// Replacing a token in a text with inline archives: which of them come through.
module BlobOverlap {
  import opened Text
  import opened Bytes
  import opened Base64
  import opened Replacement
  import opened ScrubToken
  import opened InlineArchives

  // How far the scan for inline archives goes at once: over an inline archive, or over one byte.
  function Step(text: bytes): (m: nat)
    requires text != []
    ensures 0 < m <= |text|
  {
    if BlobLength(text) > 0 then |MARKER| + BlobLength(text) else 1
  }

  // An inline archive of the text, with its marker, begins at j.
  predicate IsBlobAt(text: bytes, j: nat)
    decreases |text|
  {
    if text == [] then false
    else if j == 0 then BlobLength(text) > 0
    else Step(text) <= j && IsBlobAt(text[Step(text)..], j - Step(text))
  }

  // Where what begins at j ends, with its marker.
  function BlobEnd(text: bytes, j: nat): (end: nat)
    requires j <= |text|
  {
    j + |MARKER| + BlobLength(text[j..])
  }

  // Some inline archive overlaps the n bytes from i on.
  ghost predicate Meets(text: bytes, i: nat, n: nat) {
    exists j: nat :: j <= |text| && IsBlobAt(text, j) && j < i + n && i < BlobEnd(text, j)
  }

  // Some replaced occurrence of the token overlaps an inline archive.
  ghost predicate Overlaps(text: bytes, token: bytes)
    requires token != []
  {
    exists h: nat :: IsHit(text, token, h) && Meets(text, h, |token|)
  }

  // Every place that looks like an inline archive is one: none begins within another.
  ghost predicate Separate(text: bytes) {
    forall j: nat :: j <= |text| && BlobLength(text[j..]) > 0 ==> IsBlobAt(text, j)
  }

  lemma {:induction false} BlobAtIsBlob(text: bytes, j: nat)
    requires IsBlobAt(text, j)
    ensures j < |text| && BlobLength(text[j..]) > 0 && BlobEnd(text, j) <= |text|
    decreases |text|
  {
    if j == 0 {
      assert text[0..] == text;
    } else {
      var m := Step(text);
      BlobAtIsBlob(text[m..], j - m);
      BlobEndShifted(text, m, j - m);
    }
  }

  lemma BlobEndShifted(text: bytes, m: nat, j: nat)
    requires m <= |text| && j <= |text[m..]|
    ensures text[m..][j..] == text[m + j..] && BlobEnd(text, m + j) == m + BlobEnd(text[m..], j)
  {
    assert text[m..][j..] == text[m + j..];
  }

  ghost predicate SameBlobsAfter(text: bytes, m: nat)
    requires m <= |text|
  {
    && Blobs(text) == Blobs(text[m..])
    && forall j: nat :: IsBlobAt(text, m + j) <==> IsBlobAt(text[m..], j)
  }

  lemma OneOn(text: bytes)
    requires text != [] && !IsBlobAt(text, 0)
    ensures SameBlobsAfter(text, 1) && BlobLength(text) == 0
  {
  }

  lemma TwoSteps(text: bytes, m: nat)
    requires 0 < m <= |text| && SameBlobsAfter(text, 1) && SameBlobsAfter(text[1..], m - 1)
    ensures SameBlobsAfter(text, m)
  {
    assert text[1..][m - 1..] == text[m..];
    forall j: nat ensures IsBlobAt(text, m + j) <==> IsBlobAt(text[m..], j) {
      assert IsBlobAt(text, 1 + (m - 1 + j)) <==> IsBlobAt(text[1..], m - 1 + j);
    }
  }

  lemma {:induction false} BlobsFurtherOn(text: bytes, m: nat)
    requires m <= |text| && forall k: nat :: k < m ==> !IsBlobAt(text, k)
    ensures SameBlobsAfter(text, m)
    decreases m
  {
    if m == 0 {
      assert text[m..] == text;
    } else {
      OneOn(text);
      var tail := text[1..];
      forall k: nat | k < m - 1 ensures !IsBlobAt(tail, k) {
        assert !IsBlobAt(text, 1 + k);
      }
      BlobsFurtherOn(tail, m - 1);
      TwoSteps(text, m);
    }
  }

  lemma NoBlobWhere(text: bytes, m: nat)
    requires m <= |text| && forall k :: 0 <= k < m ==> BlobLength(text[k..]) == 0
    ensures forall k: nat :: k < m ==> !IsBlobAt(text, k)
  {
    forall k: nat | k < m ensures !IsBlobAt(text, k) {
      if IsBlobAt(text, k) { BlobAtIsBlob(text, k); }
    }
  }

  lemma MarkerIsForeign()
    ensures Foreign(MARKER)
  {
    MarkerStartsBase64();
    forall i | 0 <= i < |MARKER| ensures MARKER[i] != OPEN && MARKER[i] != CLOSE {
      MarkerBytes(i);
    }
  }

  lemma MarkerOccurs(text: bytes, k: nat)
    requires k <= |text|
    ensures MARKER <= text[k..] <==> OccursAt(text, MARKER, k)
  {
    if k + |MARKER| <= |text| {
      assert text[k..k + |MARKER|] == text[k..][..|MARKER|];
    }
  }

  lemma NoBlobInPlaceholder(rest: bytes, k: nat)
    requires k < |PLACEHOLDER|
    ensures BlobLength((PLACEHOLDER + rest)[k..]) == 0
  {
    MarkerIsForeign();
    PlaceholderBytes(0);
    NotInPlaceholder(MARKER, rest, k);
    MarkerOccurs(PLACEHOLDER + rest, k);
  }

  lemma PlaceholderHasNoBlob(rest: bytes)
    ensures Blobs(PLACEHOLDER + rest) == Blobs(rest)
  {
    var out := PLACEHOLDER + rest;
    forall k | 0 <= k < |PLACEHOLDER| ensures BlobLength(out[k..]) == 0 {
      NoBlobInPlaceholder(rest, k);
    }
    NoBlobWhere(out, |PLACEHOLDER|);
    BlobsFurtherOn(out, |PLACEHOLDER|);
    assert out[|PLACEHOLDER|..] == rest;
  }

  lemma NextByteStillEnds(rest: bytes, token: bytes)
    requires token != [] && (rest == [] || !IsBase64(rest[0]))
    ensures var out := Replace(rest, token);
            out == [] || !IsBase64(out[0])
  {
    PlaceholderBytes(0);
  }

  // What begins at the front of the result began there before, and was no shorter.

  lemma RunReaches(s: bytes, n: nat)
    requires n <= |s| && forall i :: 0 <= i < n ==> IsBase64(s[i])
    ensures n <= Run64(s)
  {
  }

  lemma FrontHasNoBracket(out: bytes)
    requires BlobLength(out) > 0
    ensures |MARKER| + BlobLength(out) <= |out| && OPEN !in out[..|MARKER| + BlobLength(out)]
  {
    var m := |MARKER| + BlobLength(out);
    forall k | 0 <= k < m ensures out[k] != OPEN {
      if k < |MARKER| { MarkerBytes(k); } else { assert out[k] == out[|MARKER|..][k - |MARKER|]; }
    }
  }

  lemma CommonFront(out: bytes, text: bytes)
    requires BlobLength(out) > 0
    requires var m := |MARKER| + BlobLength(out);
             m <= |out| && m <= |text| && text[..m] == out[..m]
    ensures BlobLength(out) <= BlobLength(text)
  {
    var n := BlobLength(out);
    var m := |MARKER| + n;
    assert text[..|MARKER|] == text[..m][..|MARKER|] == out[..|MARKER|] == MARKER;
    forall i | 0 <= i < n ensures IsBase64(text[|MARKER|..][i]) {
      assert text[|MARKER|..][i] == text[..m][|MARKER| + i] == out[|MARKER|..][i];
    }
    RunReaches(text[|MARKER|..], n);
  }

  lemma ShrunkBlob(text: bytes, token: bytes)
    requires token != []
    ensures BlobLength(Replace(text, token)) <= BlobLength(text)
    ensures BlobLength(text) > 0 && !NoHitBefore(text, token, |MARKER| + BlobLength(text)) ==>
              BlobLength(Replace(text, token)) < BlobLength(text)
  {
    var out := Replace(text, token);
    if BlobLength(out) > 0 {
      var m := |MARKER| + BlobLength(out);
      FrontHasNoBracket(out);
      PrefixIsKept(text, token, m);
      NoBracketNoHit(text, token, m);
      CommonFront(out, text);
    }
  }

  // Nothing overlapped

  lemma RestIsSpared(text: bytes, token: bytes, m: nat)
    requires token != [] && m <= |text| && !Overlaps(text, token)
    requires forall h: nat :: IsHit(text[m..], token, h) ==> IsHit(text, token, m + h)
    requires forall j: nat :: IsBlobAt(text[m..], j) ==> IsBlobAt(text, m + j)
    ensures !Overlaps(text[m..], token)
  {
    var rest := text[m..];
    forall h: nat | IsHit(rest, token, h) ensures !Meets(rest, h, |token|) {
      assert !Meets(text, m + h, |token|);
      forall j: nat | j <= |rest| && IsBlobAt(rest, j) && j < h + |token| ensures BlobEnd(rest, j) <= h {
        assert IsBlobAt(text, m + j) && rest[j..] == text[m + j..];
      }
    }
  }

  lemma HitIsApart(text: bytes, token: bytes, h: nat, j: nat)
    requires token != [] && !Overlaps(text, token) && IsHit(text, token, h) && j <= |text| && IsBlobAt(text, j)
    ensures h + |token| <= j || BlobEnd(text, j) <= h
  {
    assert !Meets(text, h, |token|);
  }

  lemma NoHitInFirst(text: bytes, token: bytes)
    requires token != [] && text != [] && BlobLength(text) > 0 && !Overlaps(text, token)
    ensures NoHitBefore(text, token, |MARKER| + BlobLength(text))
  {
    assert text[0..] == text;
    forall h: nat | IsHit(text, token, h) ensures |MARKER| + BlobLength(text) <= h {
      HitIsApart(text, token, h, 0);
    }
  }

  lemma NoBlobInHit(text: bytes, token: bytes)
    requires token != [] && token <= text && !Overlaps(text, token)
    ensures forall k: nat :: IsBlobAt(text, k) ==> |token| <= k
  {
    forall k: nat | IsBlobAt(text, k) ensures |token| <= k {
      BlobAtIsBlob(text, k);
      HitIsApart(text, token, 0, k);
    }
  }

  // Replacing a token that overlaps no inline archive leaves every inline archive as it is.
  lemma {:induction false} ReplaceKeepsBlobs(text: bytes, token: bytes)
    requires token != [] && !Overlaps(text, token)
    ensures Blobs(Replace(text, token)) == Blobs(text)
    decreases |text|
  {
    if |text| < |token| {
    } else if BlobLength(text) > 0 {
      var m := |MARKER| + BlobLength(text);
      FirstIsKept(text, token, m);
      ReplaceKeepsBlobs(text[m..], token);
      FirstStaysInFront(text, token, m);
    } else if token <= text {
      HitIsBetween(text, token);
      ReplaceKeepsBlobs(text[|token|..], token);
      PlaceholderHasNoBlob(Replace(text[|token|..], token));
    } else {
      RestIsSpared(text, token, 1);
      ReplaceKeepsBlobs(text[1..], token);
      OneStaysInFront(text, token);
    }
  }

  lemma HitIsBetween(text: bytes, token: bytes)
    requires token != [] && token <= text && !Overlaps(text, token)
    ensures Blobs(text) == Blobs(text[|token|..]) && !Overlaps(text[|token|..], token)
  {
    NothingBetween(text, token);
    HitsAfterHit(text, token);
    RestIsSpared(text, token, |token|);
  }

  lemma NothingBetween(text: bytes, token: bytes)
    requires token != [] && token <= text && !Overlaps(text, token)
    ensures SameBlobsAfter(text, |token|)
  {
    NoBlobInHit(text, token);
    BlobsFurtherOn(text, |token|);
  }

  lemma HitsAfterHit(text: bytes, token: bytes)
    requires token != [] && token <= text
    ensures forall h: nat :: IsHit(text[|token|..], token, h) ==> IsHit(text, token, |token| + h)
  {
  }

  lemma OneStaysInFront(text: bytes, token: bytes)
    requires 0 < |token| <= |text| && BlobLength(text) == 0 && !(token <= text)
    ensures Replace(text, token) != [] && Replace(text, token)[1..] == Replace(text[1..], token)
    ensures Blobs(Replace(text, token)) == Blobs(Replace(text[1..], token))
  {
    ShrunkBlob(text, token);
  }

  lemma FirstIsKept(text: bytes, token: bytes, m: nat)
    requires token != [] && text != [] && BlobLength(text) > 0 && !Overlaps(text, token)
    requires m == |MARKER| + BlobLength(text)
    ensures m <= |text| && Replace(text, token) == text[..m] + Replace(text[m..], token)
    ensures !Overlaps(text[m..], token)
  {
    NoHitInFirst(text, token);
    SkipTo(text, token, m);
    HitsBehind(text, token, m);
    assert m == Step(text);
    RestIsSpared(text, token, m);
  }

  lemma HitsBehind(text: bytes, token: bytes, m: nat)
    requires token != [] && m <= |text| && NoHitBefore(text, token, m)
    ensures forall h: nat :: IsHit(text[m..], token, h) ==> IsHit(text, token, m + h)
  {
    forall h: nat | IsHit(text[m..], token, h) ensures IsHit(text, token, m + h) {
      HitsFurtherOn(text, token, m, m + h);
    }
  }

  lemma FirstStaysInFront(text: bytes, token: bytes, m: nat)
    requires token != [] && text != [] && BlobLength(text) > 0 && m == |MARKER| + BlobLength(text)
    requires Replace(text, token) == text[..m] + Replace(text[m..], token)
    requires Blobs(Replace(text[m..], token)) == Blobs(text[m..])
    ensures Blobs(Replace(text, token)) == Blobs(text)
  {
    var e := text[|MARKER|..m];
    SplitFront(text, text[m..]);
    NextByteStillEnds(text[m..], token);
    BlobBytes(text, e);
    BlobIsFront(e, Replace(text[m..], token));
  }

  lemma BlobBytes(text: bytes, e: bytes)
    requires text != [] && BlobLength(text) > 0 && e == text[|MARKER|..|MARKER| + BlobLength(text)]
    ensures e != [] && forall i :: 0 <= i < |e| ==> IsBase64(e[i])
    ensures text[..|MARKER| + |e|] == MARKER + e
  {
    assert forall i :: 0 <= i < |e| ==> e[i] == text[|MARKER|..][i];
  }

  // Something overlapped

  function Weight(blobs: seq<bytes>): nat {
    if blobs == [] then 0 else 1 + |blobs[0]| + Weight(blobs[1..])
  }

  // The weight of everything that looks like an inline archive, within another or not.
  function MarkedWeight(text: bytes): nat {
    if text == [] then 0
    else (if BlobLength(text) > 0 then 1 + BlobLength(text) else 0) + MarkedWeight(text[1..])
  }

  ghost predicate HasMarked(text: bytes, m: nat) {
    exists j: nat :: j < m && j < |text| && BlobLength(text[j..]) > 0
  }

  lemma MarkedOneOn(text: bytes, m: nat)
    requires text != [] && 0 < m
    ensures HasMarked(text, m) <==> BlobLength(text) > 0 || HasMarked(text[1..], m - 1)
  {
    assert text[0..] == text;
    if HasMarked(text[1..], m - 1) {
      var j: nat :| j < m - 1 && j < |text[1..]| && BlobLength(text[1..][j..]) > 0;
      assert text[1..][j..] == text[j + 1..];
    }
    if HasMarked(text, m) {
      var j: nat :| j < m && j < |text| && BlobLength(text[j..]) > 0;
      assert j > 0 ==> text[1..][j - 1..] == text[j..];
    }
  }

  lemma {:induction false} TailWeighsLess(text: bytes, m: nat)
    requires m <= |text|
    ensures MarkedWeight(text[m..]) <= MarkedWeight(text)
    ensures HasMarked(text, m) <==> MarkedWeight(text[m..]) < MarkedWeight(text)
    decreases m
  {
    if m == 0 {
      assert text[m..] == text;
    } else {
      TailWeighsLess(text[1..], m - 1);
      assert text[1..][m - 1..] == text[m..];
      MarkedOneOn(text, m);
    }
  }

  lemma WeightOfCons(blob: bytes, blobs: seq<bytes>)
    ensures Weight([blob] + blobs) == 1 + |blob| + Weight(blobs)
  {
    assert ([blob] + blobs)[1..] == blobs;
  }

  lemma {:induction false} BlobsWeighNoMore(text: bytes)
    ensures Weight(Blobs(text)) <= MarkedWeight(text)
    decreases |text|
  {
    if text != [] {
      var n := BlobLength(text);
      if n > 0 {
        var rest := text[|MARKER| + n..];
        WeightOfCons(text[|MARKER|..|MARKER| + n], Blobs(rest));
        BlobsWeighNoMore(rest);
        TailWeighsLess(text[1..], |MARKER| + n - 1);
        assert text[1..][|MARKER| + n - 1..] == rest;
      } else {
        BlobsWeighNoMore(text[1..]);
      }
    }
  }

  lemma SeparateFurtherOn(text: bytes, m: nat)
    requires m <= |text| && Separate(text)
    requires forall j: nat :: IsBlobAt(text, m + j) ==> IsBlobAt(text[m..], j)
    ensures Separate(text[m..])
  {
    forall j: nat | j <= |text[m..]| && BlobLength(text[m..][j..]) > 0 ensures IsBlobAt(text[m..], j) {
      assert text[m..][j..] == text[m + j..];
      assert IsBlobAt(text, m + j);
    }
  }

  lemma {:induction false} SeparateWeight(text: bytes)
    requires Separate(text)
    ensures Weight(Blobs(text)) == MarkedWeight(text)
    decreases |text|
  {
    if text != [] {
      var m := Step(text);
      SeparateFurtherOn(text, m);
      SeparateWeight(text[m..]);
      if BlobLength(text) > 0 { FirstWeighsItself(text, m); }
    }
  }

  lemma FirstWeighsItself(text: bytes, m: nat)
    requires text != [] && BlobLength(text) > 0 && m == |MARKER| + BlobLength(text) && Separate(text)
    ensures Weight(Blobs(text)) == 1 + BlobLength(text) + Weight(Blobs(text[m..]))
    ensures MarkedWeight(text) == 1 + BlobLength(text) + MarkedWeight(text[m..])
  {
    WeightOfCons(text[|MARKER|..m], Blobs(text[m..]));
    NothingWithin(text, m);
    TailWeighsLess(text[1..], m - 1);
    assert text[1..][m - 1..] == text[m..];
  }

  lemma NothingWithin(text: bytes, m: nat)
    requires text != [] && BlobLength(text) > 0 && m == |MARKER| + BlobLength(text) && Separate(text)
    ensures !HasMarked(text[1..], m - 1)
  {
    var tail := text[1..];
    forall j: nat | j < |tail| && BlobLength(tail[j..]) > 0 ensures m - 1 <= j {
      assert tail[j..] == text[j + 1..];
      assert IsBlobAt(text, j + 1);
    }
  }

  // Some replaced occurrence overlaps what looks like an inline archive.
  ghost predicate Damages(text: bytes, token: bytes)
    requires token != []
  {
    exists j: nat :: DamagesAt(text, token, j)
  }

  ghost predicate DamagesAt(text: bytes, token: bytes, j: nat)
    requires token != []
  {
    j <= |text| && BlobLength(text[j..]) > 0 && !Untouched(text, token, j, BlobEnd(text, j) - j)
  }

  lemma DamageFurtherOn(text: bytes, token: bytes, m: nat, j: nat)
    requires token != [] && m <= j <= |text| && DamagesAt(text, token, j)
    requires forall h: nat :: IsHit(text, token, h) ==> h + |token| <= m || (m <= h && IsHit(text[m..], token, h - m))
    ensures DamagesAt(text[m..], token, j - m)
  {
    assert text[m..][j - m..] == text[j..];
    var h: nat :| IsHit(text, token, h) && !(h + |token| <= j || BlobEnd(text, j) <= h);
    assert IsHit(text[m..], token, h - m);
  }

  lemma {:induction false} DamageWeighsLess(text: bytes, token: bytes)
    requires token != []
    ensures MarkedWeight(Replace(text, token)) <= MarkedWeight(text)
    ensures Damages(text, token) ==> MarkedWeight(Replace(text, token)) < MarkedWeight(text)
    decreases |text|
  {
    if |token| <= |text| {
      if token <= text {
        HitWeighsLess(text, token);
      } else {
        DamageWeighsLess(text[1..], token);
        ShrunkBlob(text, token);
        var rest := Replace(text[1..], token);
        assert ([text[0]] + rest)[1..] == rest;
        if j: nat :| DamagesAt(text, token, j) {
          if j == 0 {
            assert text[0..] == text;
          } else {
            DamageFurtherOn(text, token, 1, j);
          }
        }
      }
    }
  }

  lemma {:induction false} HitWeighsLess(text: bytes, token: bytes)
    requires token != [] && token <= text
    ensures MarkedWeight(Replace(text, token)) <= MarkedWeight(text)
    ensures Damages(text, token) ==> MarkedWeight(Replace(text, token)) < MarkedWeight(text)
    decreases |text|, 0
  {
    var rest := text[|token|..];
    DamageWeighsLess(rest, token);
    TailWeighsLess(text, |token|);
    PlaceholderWeighsNothing(Replace(rest, token));
    if Damages(text, token) { DamageBehindHit(text, token); }
  }

  lemma DamageBehindHit(text: bytes, token: bytes)
    requires token != [] && token <= text && Damages(text, token)
    ensures HasMarked(text, |token|) || Damages(text[|token|..], token)
  {
    var j: nat :| DamagesAt(text, token, j);
    if |token| <= j {
      HitsBehindHit(text, token);
      DamageFurtherOn(text, token, |token|, j);
      assert DamagesAt(text[|token|..], token, j - |token|);
    } else {
      assert BlobLength(text[j..]) > 0;
    }
  }

  lemma HitsBehindHit(text: bytes, token: bytes)
    requires token != [] && token <= text
    ensures forall h: nat :: IsHit(text, token, h) ==>
              h + |token| <= |token| || (|token| <= h && IsHit(text[|token|..], token, h - |token|))
  {
  }

  lemma PlaceholderWeighsNothing(rest: bytes)
    ensures MarkedWeight(PLACEHOLDER + rest) == MarkedWeight(rest)
  {
    var out := PLACEHOLDER + rest;
    TailWeighsLess(out, |PLACEHOLDER|);
    assert out[|PLACEHOLDER|..] == rest;
    if HasMarked(out, |PLACEHOLDER|) {
      var j: nat :| j < |PLACEHOLDER| && j < |out| && BlobLength(out[j..]) > 0;
      NoBlobInPlaceholder(rest, j);
    }
  }

  // In a text where no inline archive begins within another, the inline archives come through exactly if
  // no replaced occurrence of the token overlaps one.
  lemma BlobsComeThroughExactly(text: bytes, token: bytes)
    requires token != [] && Separate(text)
    ensures Blobs(Replace(text, token)) == Blobs(text) <==> !Overlaps(text, token)
  {
    if Overlaps(text, token) {
      var h: nat :| IsHit(text, token, h) && Meets(text, h, |token|);
      var j: nat :| j <= |text| && IsBlobAt(text, j) && j < h + |token| && h < BlobEnd(text, j);
      BlobAtIsBlob(text, j);
      assert DamagesAt(text, token, j);
      DamageWeighsLess(text, token);
      BlobsWeighNoMore(Replace(text, token));
      SeparateWeight(text);
    } else {
      ReplaceKeepsBlobs(text, token);
    }
  }

  // Without that the inline archives can come out the same all the same: the token destroys the first, and
  // the one that began within it, with the same text, is found instead.

  const DATA: bytes := Ascii("data")
  const TYPE: bytes := Ascii(":application/zip;base64,")
  const QUOTED: bytes := Ascii("\"data:")

  lemma AsciiOfConcat(a: string, b: string)
    ensures Ascii(a + b) == Ascii(a) + Ascii(b)
  {
  }

  lemma MarkerIsSpelt()
    ensures MARKER == DATA + TYPE
  {
    AsciiOfConcat("data", ":application/zip;base64,");
    assert "data" + ":application/zip;base64," == "data:application/zip;base64,";
  }

  lemma DataBytes(i: nat)
    requires i < |DATA|
    ensures |DATA| == 4 && IsBase64(DATA[i]) && DATA[i] != 34
  {
    assert |"data"| == 4;
    assert "data"[i] == 'd' || "data"[i] == 'a' || "data"[i] == 't';
    assert DATA[i] == "data"[i] as int % 256;
  }

  lemma TypeBytes(i: nat)
    requires i < |TYPE|
    ensures |TYPE| == 24 && TYPE[i] != 'd' as int && TYPE[i] != 34 && (i == 0 ==> TYPE[i] == ':' as int)
  {
    var text := ":application/zip;base64,";
    assert |TYPE| == |text| == 24;
    assert text[i] != 'd' && text[i] < 128 as char && text[i] != 34 as char;
    assert TYPE[i] == text[i] as int % 256;
  }

  // A text no longer than the marker, or without its first letter, has no inline archive.
  lemma ShortTextHasNoBlob(text: bytes)
    requires |text| <= |MARKER|
    ensures Blobs(text) == []
  {
    forall k | 0 <= k < |text| ensures BlobLength(text[k..]) == 0 {
      assert |text[k..]| <= |MARKER|;
    }
    NoBlobWhere(text, |text|);
    BlobsFurtherOn(text, |text|);
    assert text[|text|..] == [] && Blobs([]) == [];
  }

  lemma FirstLetter()
    ensures MARKER != [] && MARKER[0] == 'd' as int
  {
    assert MARKER[0] == "data:application/zip;base64,"[0] as int % 256;
  }

  lemma MarkerBeginsWithD(text: bytes)
    requires text != [] && BlobLength(text) > 0
    ensures text[0] == 'd' as int
  {
    FirstLetter();
  }

  lemma NoBlobWithoutD(text: bytes, rest: bytes)
    requires 'd' as int !in text
    ensures Blobs(text + rest) == Blobs(rest)
  {
    var all := text + rest;
    forall k | 0 <= k < |text| ensures BlobLength(all[k..]) == 0 {
      assert all[k..][0] == text[k];
      if BlobLength(all[k..]) > 0 { MarkerBeginsWithD(all[k..]); }
    }
    NoBlobWhere(all, |text|);
    BlobsFurtherOn(all, |text|);
    assert all[|text|..] == rest;
  }

  lemma {:induction false} NowhereWithoutFirst(text: bytes, token: bytes)
    requires token != [] && token[0] !in text
    ensures Replace(text, token) == text
  {
    forall i | 0 <= i <= |text| ensures !OccursAt(text, token, i) {
      if i + |token| <= |text| { assert text[i..i + |token|][0] == text[i]; }
    }
    NothingToReplace(text, token);
  }

  // The text `"`, marker, `data`, `:application/zip;base64,data`.
  function Nested(): bytes {
    [34] + (MARKER + DATA + (TYPE + DATA))
  }

  lemma NestedBefore()
    ensures Blobs(Nested()) == [DATA] && IsBlobAt(Nested(), 1)
  {
    DataBytes(0);
    forall i | 0 <= i < |DATA| ensures IsBase64(DATA[i]) { DataBytes(i); }
    TypeBytes(0);
    var rest := TYPE + DATA;
    assert rest[0] == TYPE[0];
    BlobIsFront(DATA, rest);
    BlobIsMeasured(DATA, rest);
    ShortTextHasNoBlob(rest);
    NoBlobWithoutD([34], MARKER + DATA + rest);
    NoBlobAtQuote(MARKER + DATA + rest);
  }

  lemma NoBlobAtQuote(text: bytes)
    requires text != [] && BlobLength(text) > 0
    ensures IsBlobAt([34] + text, 1)
  {
    var all := [34] + text;
    if BlobLength(all) > 0 { MarkerBeginsWithD(all); }
    assert all[1..] == text;
  }

  lemma NestedAfter()
    ensures Replace(Nested(), QUOTED) == PLACEHOLDER + (TYPE[1..] + (MARKER + DATA)) && IsHit(Nested(), QUOTED, 0)
  {
    var rest := TYPE[1..] + (MARKER + DATA);
    NestedIsSpelt(rest);
    ReplaceFirst(QUOTED, rest);
    forall b | b in rest ensures b != 34 {
      MarkerIsSpelt();
      NoQuote(b);
    }
    NowhereWithoutFirst(rest, QUOTED);
  }

  lemma ReplaceFirst(token: bytes, rest: bytes)
    requires token != []
    ensures Replace(token + rest, token) == PLACEHOLDER + Replace(rest, token) && IsHit(token + rest, token, 0)
  {
    assert (token + rest)[..|token|] == token && (token + rest)[|token|..] == rest;
  }

  lemma NestedIsSpelt(rest: bytes)
    requires rest == TYPE[1..] + (MARKER + DATA)
    ensures Nested() == QUOTED + rest && QUOTED != [] && QUOTED[0] == 34
  {
    MarkerIsSpelt();
    QuotedIsSpelt();
    Regroup([34], DATA, TYPE);
  }

  lemma Regroup(q: bytes, d: bytes, t: bytes)
    requires |t| > 0
    ensures q + ((d + t) + d + (t + d)) == (q + d + t[..1]) + (t[1..] + ((d + t) + d))
  {
    assert t == t[..1] + t[1..];
  }

  lemma NoQuote(b: Byte)
    requires b in TYPE || b in DATA
    ensures b != 34
  {
    if b in TYPE {
      var i :| 0 <= i < |TYPE| && TYPE[i] == b;
      TypeBytes(i);
    } else {
      var i :| 0 <= i < |DATA| && DATA[i] == b;
      DataBytes(i);
    }
  }

  lemma QuotedIsSpelt()
    ensures QUOTED == [34] + DATA + TYPE[..1] && |TYPE| == 24
  {
    TypeBytes(0);
    AsciiOfConcat("\"", "data");
    AsciiOfConcat("\"data", ":");
    assert "\"" + "data" == "\"data" && "\"data" + ":" == "\"data:";
    assert TYPE[..1] == [TYPE[0]] == Ascii(":");
    assert Ascii("\"") == [34];
  }

  // The token, a quote and `data:`, overlaps the first inline archive and is replaced; what is found then
  // began within that one and reads the same.
  lemma AnotherTakesItsPlace()
    ensures Overlaps(Nested(), QUOTED) && Blobs(Replace(Nested(), QUOTED)) == Blobs(Nested())
  {
    NestedBefore();
    NestedAfter();
    QuotedIsSpelt();
    DataBytes(0);
    assert Meets(Nested(), 0, |QUOTED|);
    PlaceholderHasNoBlob(TYPE[1..] + (MARKER + DATA));
    forall i | 0 <= i < |TYPE| ensures TYPE[i] != 'd' as int { TypeBytes(i); }
    NoBlobWithoutD(TYPE[1..], MARKER + DATA);
    forall i | 0 <= i < |DATA| ensures IsBase64(DATA[i]) { DataBytes(i); }
    BlobIsFront(DATA, []);
    assert MARKER + DATA + [] == MARKER + DATA && Blobs([]) == [];
  }
}
