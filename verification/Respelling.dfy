// A token replaced before, in an html text whose inline archives have been encoded anew since: when it is
// there again.
module Respelling {
  import opened Text
  import opened Bytes
  import opened Base64
  import opened Replacement
  import opened ScrubToken
  import opened InlineArchives
  import opened BlobOverlap

  // The needle is in the text, overlapping an inline archive, and no replaced occurrence of the token
  // overlaps it.
  ghost predicate Respelled(text: bytes, token: bytes, needle: bytes)
    requires token != []
  {
    exists i: nat :: Survives(text, token, needle, i) && Meets(text, i, |needle|)
  }

  ghost predicate RespellsNone(text: bytes, token: bytes, needles: seq<bytes>)
    requires token != []
  {
    forall i :: 0 <= i < |needles| ==> !Respelled(text, token, needles[i])
  }

  // The inline archive in front, and its successor.
  lemma FirstBlobAgain(codec: Codec, depth: nat, data: bytes, token: bytes) returns (out: bytes, rest: bytes)
    requires Lawful(codec) && token != [] && data != [] && BlobLength(data) > 0
    requires Embed(codec, depth, data, token).Some?
    ensures out == Embed(codec, depth, data, token).value && out != [] && BlobLength(out) > 0
    ensures rest == data[Step(data)..] && Embed(codec, depth, rest, token).Some?
    ensures out[Step(out)..] == Embed(codec, depth, rest, token).value
    ensures rest == [] || !IsBase64(rest[0])
  {
    rest := data[Step(data)..];
    out := Embed(codec, depth, data, token).value;
    var e := EmbedFront(codec, depth, data, token, data[|MARKER|..|MARKER| + BlobLength(data)], rest);
    SplitFront(data, rest);
    NextByteEnds(codec, depth, rest, token);
    var rest' := Embed(codec, depth, rest, token).value;
    BlobIsMeasured(e, rest');
    assert (MARKER + e + rest')[|MARKER| + |e|..] == rest';
  }

  lemma ByteInFront(codec: Codec, depth: nat, data: bytes, token: bytes) returns (out: bytes)
    requires token != [] && data != [] && BlobLength(data) == 0 && Embed(codec, depth, data, token).Some?
    ensures out == Embed(codec, depth, data, token).value && out != [] && BlobLength(out) == 0
    ensures Embed(codec, depth, data[1..], token).Some?
    ensures out[1..] == Embed(codec, depth, data[1..], token).value && out[0] == data[0]
  {
    out := Embed(codec, depth, data, token).value;
    EmbedOne(codec, depth, data, token);
    NoBlobHere(codec, depth, data, token);
    var rest := Embed(codec, depth, data[1..], token).value;
    assert ([data[0]] + rest)[1..] == rest;
  }

  lemma StepsOver(text: bytes)
    requires text != []
    ensures forall j: nat :: IsBlobAt(text, Step(text) + j) <==> IsBlobAt(text[Step(text)..], j)
  {
  }

  lemma StartsWithBlob(codec: Codec, depth: nat, data: bytes, token: bytes)
    requires Lawful(codec) && token != [] && data != [] && BlobLength(data) > 0
    requires Embed(codec, depth, data, token).Some?
    ensures IsBlobAt(Embed(codec, depth, data, token).value, 0)
  {
    var _, _ := FirstBlobAgain(codec, depth, data, token);
  }

  // What stands in front of the first inline archive was there before.
  lemma {:induction false} PlainFrontIsKept(codec: Codec, depth: nat, data: bytes, token: bytes, k: nat)
    requires Lawful(codec) && token != [] && Embed(codec, depth, data, token).Some?
    requires k <= |Embed(codec, depth, data, token).value|
    requires forall j: nat :: j < k ==> !IsBlobAt(Embed(codec, depth, data, token).value, j)
    ensures k <= |data| && Embed(codec, depth, data, token).value[..k] == data[..k]
    decreases |data|
  {
    if data == [] || k == 0 {
    } else if BlobLength(data) > 0 {
      StartsWithBlob(codec, depth, data, token);
      assert false;
    } else {
      var out := ByteInFront(codec, depth, data, token);
      StepsOver(out);
      forall j: nat | j < k - 1 ensures !IsBlobAt(out[1..], j) {
        assert !IsBlobAt(out, 1 + j);
      }
      PlainFrontIsKept(codec, depth, data[1..], token, k - 1);
      SameFirst(data, out[1..], out, k);
    }
  }

  lemma MeetsFurtherOn(text: bytes, i: nat, n: nat)
    requires text != [] && Step(text) <= i && !Meets(text, i, n)
    ensures !Meets(text[Step(text)..], i - Step(text), n)
  {
    var m := Step(text);
    StepsOver(text);
    forall j: nat | j <= |text[m..]| && IsBlobAt(text[m..], j) && j < i - m + n ensures BlobEnd(text[m..], j) <= i - m {
      BlobEndShifted(text, m, j);
      assert IsBlobAt(text, m + j);
    }
  }

  lemma BehindFirst(text: bytes, i: nat, n: nat)
    requires text != [] && BlobLength(text) > 0 && 0 < n && !Meets(text, i, n)
    ensures Step(text) <= i
  {
    assert text[0..] == text && IsBlobAt(text, 0);
    assert BlobEnd(text, 0) == Step(text);
  }

  // What is found off the inline archives was there before they were encoded anew.
  lemma {:induction false} OffTheArchives(codec: Codec, depth: nat, data: bytes, token: bytes, needle: bytes, i: nat)
    requires Lawful(codec) && token != [] && needle != [] && Embed(codec, depth, data, token).Some?
    requires OccursAt(Embed(codec, depth, data, token).value, needle, i)
    requires !Meets(Embed(codec, depth, data, token).value, i, |needle|)
    ensures Contains(data, needle)
    decreases |data|
  {
    if data != [] {
      if BlobLength(data) > 0 {
        var out, rest := FirstBlobAgain(codec, depth, data, token);
        BehindFirst(out, i, |needle|);
        OffTheFirst(out, needle, i);
        OffTheArchives(codec, depth, rest, token, needle, i - Step(out));
        ContainsInSuffix(data, Step(data), needle);
      } else if i > 0 {
        var out := ByteInFront(codec, depth, data, token);
        OffTheFirst(out, needle, i);
        OffTheArchives(codec, depth, data[1..], token, needle, i - 1);
        ContainsInSuffix(data, 1, needle);
      } else {
        AtTheFront(codec, depth, data, token, needle);
      }
    }
  }

  lemma OffTheFirst(out: bytes, needle: bytes, i: nat)
    requires out != [] && Step(out) <= i && OccursAt(out, needle, i) && !Meets(out, i, |needle|)
    ensures OccursAt(out[Step(out)..], needle, i - Step(out)) && !Meets(out[Step(out)..], i - Step(out), |needle|)
  {
    OccursShifted(out, Step(out), needle, i - Step(out));
    MeetsFurtherOn(out, i, |needle|);
  }

  lemma AtTheFront(codec: Codec, depth: nat, data: bytes, token: bytes, needle: bytes)
    requires Lawful(codec) && token != [] && needle != [] && Embed(codec, depth, data, token).Some?
    requires OccursAt(Embed(codec, depth, data, token).value, needle, 0)
    requires !Meets(Embed(codec, depth, data, token).value, 0, |needle|)
    ensures Contains(data, needle)
  {
    var out := Embed(codec, depth, data, token).value;
    forall j: nat | IsBlobAt(out, j) ensures |needle| <= j {
      BlobAtIsBlob(out, j);
    }
    PlainFrontIsKept(codec, depth, data, token, |needle|);
    assert OccursAt(data, needle, 0);
  }

  // A token the html text does not show is back after a pass for another exactly if it has come about in,
  // or on the edge of, an inline archive encoded anew, where nothing is replaced.
  lemma EarlierReturnsExactly(codec: Codec, depth: nat, data: bytes, token: bytes, needle: bytes)
    requires Lawful(codec) && token != [] && Foreign(needle) && Embed(codec, depth, data, token).Some?
    requires !Contains(data, needle)
    ensures var text := Embed(codec, depth, data, token).value;
            Contains(Replace(text, token), needle) <==> Respelled(text, token, needle)
  {
    var text := Embed(codec, depth, data, token).value;
    OccursAfterExactly(text, token, needle);
    forall i: nat | Survives(text, token, needle, i) ensures Meets(text, i, |needle|) {
      if !Meets(text, i, |needle|) { OffTheArchives(codec, depth, data, token, needle, i); }
    }
  }
}
