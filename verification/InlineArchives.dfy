// Archives inlined in html reports, as scripts/scrub-e2e-token.py rewrites them.
module InlineArchives {
  import opened Bytes
  import opened Base64
  import opened ScrubToken

  // The inline archives of an html text, still encoded, in order.
  function Blobs(data: bytes): seq<bytes>
    decreases |data|
  {
    var n := BlobLength(data);
    if data == [] then []
    else if n > 0 then [data[|MARKER|..|MARKER| + n]] + Blobs(data[|MARKER| + n..])
    else Blobs(data[1..])
  }

  lemma EmbedOne(codec: Codec, depth: nat, data: bytes, token: bytes)
    requires token != [] && data != [] && BlobLength(data) == 0 && Embed(codec, depth, data, token).Some?
    ensures Embed(codec, depth, data[1..], token).Some?
    ensures Embed(codec, depth, data, token).value == [data[0]] + Embed(codec, depth, data[1..], token).value
  {
  }

  lemma SameFirst(data: bytes, rest: bytes, out: bytes, k: nat)
    requires data != [] && out == [data[0]] + rest && 0 < k
    requires k - 1 <= |data[1..]| && k - 1 <= |rest| && rest[..k - 1] == data[1..][..k - 1]
    ensures k <= |data| && k <= |out| && out[..k] == data[..k]
  {
    assert out[..k] == [data[0]] + rest[..k - 1];
    assert data[..k] == [data[0]] + data[1..][..k - 1];
  }

  // Substituting archives leaves the text in front of the first one alone.
  lemma {:induction false} FrontIsKept(codec: Codec, depth: nat, data: bytes, token: bytes, k: nat)
    requires token != [] && Embed(codec, depth, data, token).Some? && k <= |MARKER|
    requires k <= |data| || k <= |Embed(codec, depth, data, token).value|
    ensures var out := Embed(codec, depth, data, token).value;
            k <= |data| && k <= |out| && out[..k] == data[..k]
    decreases |data|
  {
    if data == [] {
    } else if BlobLength(data) > 0 {
      var out := Embed(codec, depth, data, token).value;
      MarkerInFront(codec, depth, data, token);
      assert out[..k] == MARKER[..k] == data[..k];
    } else if k > 0 {
      EmbedOne(codec, depth, data, token);
      var rest := Embed(codec, depth, data[1..], token).value;
      FrontIsKept(codec, depth, data[1..], token, k - 1);
      SameFirst(data, rest, [data[0]] + rest, k);
    }
  }

  lemma MarkerInFront(codec: Codec, depth: nat, data: bytes, token: bytes)
    requires token != [] && data != [] && BlobLength(data) > 0 && Embed(codec, depth, data, token).Some?
    ensures MARKER <= data && MARKER <= Embed(codec, depth, data, token).value
  {
  }

  lemma {:induction false} RunStops(e: bytes, rest: bytes)
    requires forall i :: 0 <= i < |e| ==> IsBase64(e[i])
    requires rest == [] || !IsBase64(rest[0])
    ensures Run64(e + rest) == |e|
  {
    if e == [] {
      assert e + rest == rest;
    } else {
      assert (e + rest)[1..] == e[1..] + rest;
      RunStops(e[1..], rest);
    }
  }

  lemma MarkerStartsBase64()
    ensures |MARKER| == 28 && IsBase64(MARKER[0])
  {
    assert |"data:application/zip;base64,"| == 28;
    assert MARKER[0] == 'd' as int % 256;
  }

  // After an inline archive the text goes on with the same byte, which ends the archive there too.
  lemma NextByteEnds(codec: Codec, depth: nat, rest: bytes, token: bytes)
    requires token != [] && Embed(codec, depth, rest, token).Some? && (rest == [] || !IsBase64(rest[0]))
    ensures var out := Embed(codec, depth, rest, token).value;
            out == [] || !IsBase64(out[0])
  {
    MarkerStartsBase64();
    if rest != [] { FrontIsKept(codec, depth, rest, token, 1); }
  }

  // Where the data has no inline archive, the result has none either.
  lemma NoBlobHere(codec: Codec, depth: nat, data: bytes, token: bytes)
    requires token != [] && data != [] && BlobLength(data) == 0
    requires Embed(codec, depth, data[1..], token).Some?
    ensures BlobLength([data[0]] + Embed(codec, depth, data[1..], token).value) == 0
  {
    var rest := Embed(codec, depth, data[1..], token).value;
    var out := [data[0]] + rest;
    MarkerStartsBase64();
    if BlobLength(out) > 0 {
      FrontIsKept(codec, depth, data[1..], token, |MARKER|);
      assert out[..|MARKER| + 1] == [data[0]] + rest[..|MARKER|];
      assert data[..|MARKER| + 1] == [data[0]] + data[1..][..|MARKER|];
      SameFront(out, data);
    }
  }

  lemma SameFront(out: bytes, data: bytes)
    requires BlobLength(out) > 0 && |MARKER| < |out| && |MARKER| < |data|
    requires out[..|MARKER| + 1] == data[..|MARKER| + 1]
    ensures BlobLength(data) > 0
  {
    assert out[|MARKER|] == out[..|MARKER| + 1][|MARKER|] == data[|MARKER|];
    assert data[..|MARKER|] == data[..|MARKER| + 1][..|MARKER|] == out[..|MARKER|] == MARKER;
    assert data[|MARKER|..][0] == out[|MARKER|..][0];
  }

  ghost predicate Rewrites(codec: Codec, depth: nat, blob: bytes, token: bytes, out: bytes)
    requires token != []
  {
    && codec.decode(blob).Some?
    && ScrubZip(codec, depth, codec.decode(blob).value, token).Some?
    && out == Encode(ScrubZip(codec, depth, codec.decode(blob).value, token).value)
  }

  ghost predicate AllRewritten(codec: Codec, depth: nat, blobs: seq<bytes>, token: bytes, out: seq<bytes>)
    requires token != []
  {
    |out| == |blobs| && forall i :: 0 <= i < |out| ==> Rewrites(codec, depth, blobs[i], token, out[i])
  }

  lemma RewrittenCons(codec: Codec, depth: nat, blob: bytes, blobs: seq<bytes>, token: bytes, e: bytes, out: seq<bytes>)
    requires token != [] && AllRewritten(codec, depth, blobs, token, out) && Rewrites(codec, depth, blob, token, e)
    ensures AllRewritten(codec, depth, [blob] + blobs, token, [e] + out)
  {
  }

  lemma SplitFront(data: bytes, rest: bytes)
    requires data != [] && BlobLength(data) > 0 && rest == data[|MARKER| + BlobLength(data)..]
    ensures Blobs(data) == [data[|MARKER|..|MARKER| + BlobLength(data)]] + Blobs(rest)
    ensures rest == [] || !IsBase64(rest[0])
  {
    assert rest == [] || rest[0] == data[|MARKER|..][BlobLength(data)];
  }

  lemma EmbedFront(codec: Codec, depth: nat, data: bytes, token: bytes, blob: bytes, rest: bytes) returns (e: bytes)
    requires Lawful(codec) && token != [] && data != [] && BlobLength(data) > 0
    requires blob == data[|MARKER|..|MARKER| + BlobLength(data)] && rest == data[|MARKER| + BlobLength(data)..]
    requires Embed(codec, depth, data, token).Some?
    ensures Embed(codec, depth, rest, token).Some?
    ensures Embed(codec, depth, data, token).value == MARKER + e + Embed(codec, depth, rest, token).value
    ensures Rewrites(codec, depth, blob, token, e) && e != [] && forall i :: 0 <= i < |e| ==> IsBase64(e[i])
  {
    var archive := codec.decode(blob).value;
    ZipIsReread(codec, depth, archive, token);
    e := Encode(ScrubZip(codec, depth, archive, token).value);
  }

  // The result's inline archives are those of the data, each decoded, scrubbed and encoded again.
  lemma {:induction false} EmbedRewritesBlobs(codec: Codec, depth: nat, data: bytes, token: bytes)
    requires Lawful(codec) && token != [] && Embed(codec, depth, data, token).Some?
    ensures AllRewritten(codec, depth, Blobs(data), token, Blobs(Embed(codec, depth, data, token).value))
    decreases |data|
  {
    var n := BlobLength(data);
    if data == [] {
      assert Blobs([]) == [];
    } else if n > 0 {
      RewriteInFront(codec, depth, data, token, data[|MARKER| + n..]);
    } else {
      EmbedRewritesBlobs(codec, depth, data[1..], token);
      NoBlobHere(codec, depth, data, token);
      var rest := Embed(codec, depth, data[1..], token).value;
      assert ([data[0]] + rest)[1..] == rest;
    }
  }

  lemma {:induction false} RewriteInFront(codec: Codec, depth: nat, data: bytes, token: bytes, rest: bytes)
    requires Lawful(codec) && token != [] && data != [] && BlobLength(data) > 0
    requires Embed(codec, depth, data, token).Some? && rest == data[|MARKER| + BlobLength(data)..]
    ensures AllRewritten(codec, depth, Blobs(data), token, Blobs(Embed(codec, depth, data, token).value))
    decreases |data|, 0
  {
    var blob := data[|MARKER|..|MARKER| + BlobLength(data)];
    var e := EmbedFront(codec, depth, data, token, blob, rest);
    EmbedRewritesBlobs(codec, depth, rest, token);
    SplitFront(data, rest);
    NextByteEnds(codec, depth, rest, token);
    var out := Embed(codec, depth, rest, token).value;
    BlobIsFront(e, out);
    RewrittenCons(codec, depth, blob, Blobs(rest), token, e, Blobs(out));
  }

  lemma BlobIsFront(e: bytes, rest: bytes)
    requires e != [] && (forall i :: 0 <= i < |e| ==> IsBase64(e[i])) && (rest == [] || !IsBase64(rest[0]))
    ensures Blobs(MARKER + e + rest) == [e] + Blobs(rest)
  {
    var out := MARKER + e + rest;
    BlobIsMeasured(e, rest);
    assert out[|MARKER|..|MARKER| + |e|] == e && out[|MARKER| + |e|..] == rest;
  }

  lemma BlobIsMeasured(e: bytes, rest: bytes)
    requires e != [] && (forall i :: 0 <= i < |e| ==> IsBase64(e[i])) && (rest == [] || !IsBase64(rest[0]))
    ensures BlobLength(MARKER + e + rest) == |e|
  {
    assert (MARKER + e + rest)[|MARKER|..] == e + rest;
    assert MARKER <= MARKER + e + rest;
    RunStops(e, rest);
  }
}
