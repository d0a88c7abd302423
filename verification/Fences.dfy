// Inline archives that stand between bytes a token does not have, such as quotes: there the token overlaps
// one exactly if it occurs inside it.
module Fences {
  import opened Text
  import opened Bytes
  import opened Base64
  import opened Replacement
  import opened ScrubToken
  import opened InlineArchives
  import opened BlobOverlap
  import opened Respelling

  // A byte no inline archive has, marker included.
  predicate HasOther(token: bytes) {
    exists p :: 0 <= p < |token| && !IsBase64(token[p]) && token[p] !in MARKER
  }

  // Each inline archive stands between bytes that the token does not have. `before` says so of the byte
  // in front of the text.
  predicate Fenced(text: bytes, token: bytes, before: bool)
    decreases |text|
  {
    if text == [] then true
    else if BlobLength(text) > 0 then
      var rest := text[Step(text)..];
      before && (rest == [] || rest[0] !in token) && Fenced(rest, token, false)
    else Fenced(text[1..], token, text[0] !in token)
  }

  ghost predicate IsFencedAt(text: bytes, token: bytes, before: bool, j: nat) {
    && j <= |text|
    && (if j == 0 then before else text[j - 1] !in token)
    && (BlobEnd(text, j) < |text| ==> text[BlobEnd(text, j)] !in token)
  }

  ghost predicate AllFenced(text: bytes, token: bytes, before: bool) {
    forall j: nat :: IsBlobAt(text, j) ==> IsFencedAt(text, token, before, j)
  }

  lemma FirstIsFenced(text: bytes, token: bytes, before: bool)
    requires Fenced(text, token, before) && IsBlobAt(text, 0)
    ensures IsFencedAt(text, token, before, 0)
  {
    assert text[0..] == text && BlobEnd(text, 0) == Step(text);
    assert Step(text) < |text| ==> text[Step(text)..][0] == text[Step(text)];
  }

  lemma SameEdges(text: bytes, rest: bytes, m: nat, j: nat)
    requires 0 < m <= |text| && rest == text[m..] && m <= j <= |text|
    ensures BlobEnd(text, j) == m + BlobEnd(rest, j - m)
    ensures BlobEnd(rest, j - m) < |rest| ==> text[BlobEnd(text, j)] == rest[BlobEnd(rest, j - m)]
    ensures m < j ==> text[j - 1] == rest[j - m - 1]
  {
    BlobEndShifted(text, m, j - m);
  }

  lemma FenceShifted(text: bytes, token: bytes, before: bool, rest: bytes, next: bool, m: nat, j: nat)
    requires 0 < m <= |text| && rest == text[m..] && m <= j && (next ==> text[m - 1] !in token)
    ensures IsFencedAt(rest, token, next, j - m) ==> IsFencedAt(text, token, before, j)
  {
    if j <= |text| { SameEdges(text, rest, m, j); }
  }

  lemma FencedFromRest(text: bytes, token: bytes, before: bool, next: bool)
    requires text != [] && Fenced(text, token, before) && (next ==> text[Step(text) - 1] !in token)
    requires AllFenced(text[Step(text)..], token, next)
    ensures AllFenced(text, token, before)
  {
    var m := Step(text);
    forall j: nat | IsBlobAt(text, j) ensures IsFencedAt(text, token, before, j) {
      if j == 0 {
        FirstIsFenced(text, token, before);
      } else {
        assert IsBlobAt(text[m..], j - m);
        FenceShifted(text, token, before, text[m..], next, m, j);
      }
    }
  }

  lemma {:induction false} EachIsFenced(text: bytes, token: bytes, before: bool)
    requires Fenced(text, token, before)
    ensures AllFenced(text, token, before)
    decreases |text|
  {
    if text != [] {
      var next := BlobLength(text) == 0 && text[0] !in token;
      EachIsFenced(text[Step(text)..], token, next);
      FencedFromRest(text, token, before, next);
    }
  }

  lemma OffOrInside(text: bytes, token: bytes, before: bool, i: nat, j: nat)
    requires OccursAt(text, token, i) && IsFencedAt(text, token, before, j) && BlobEnd(text, j) <= |text|
    ensures i + |token| <= j || BlobEnd(text, j) <= i || (j <= i && i + |token| <= BlobEnd(text, j))
  {
    forall k | i <= k < i + |token| ensures text[k] in token {
      assert text[i..i + |token|][k - i] == text[k];
    }
  }

  // The needle occurs inside an inline archive, marker included.
  ghost predicate IsInside(text: bytes, needle: bytes) {
    exists j: nat, i: nat :: IsInsideAt(text, needle, j, i)
  }

  ghost predicate IsInsideAt(text: bytes, needle: bytes, j: nat, i: nat) {
    j <= |text| && IsBlobAt(text, j) && OccursAt(text, needle, i) && j <= i && i + |needle| <= BlobEnd(text, j)
  }

  ghost predicate HasNoneInside(text: bytes, needles: seq<bytes>) {
    forall i :: 0 <= i < |needles| ==> !IsInside(text, needles[i])
  }

  predicate IsFencedFrom(text: bytes, tokens: seq<bytes>) {
    forall i :: 0 <= i < |tokens| ==> Fenced(text, tokens[i], true)
  }

  // Where it overlaps fenced inline archives at all, a token occurs inside one.
  lemma FencedMeetsInside(text: bytes, token: bytes, before: bool, i: nat)
    requires Fenced(text, token, before) && OccursAt(text, token, i) && Meets(text, i, |token|)
    ensures IsInside(text, token)
  {
    EachIsFenced(text, token, before);
    var j: nat :| j <= |text| && IsBlobAt(text, j) && j < i + |token| && i < BlobEnd(text, j);
    BlobAtIsBlob(text, j);
    OffOrInside(text, token, before, i, j);
    assert IsInsideAt(text, token, j, i);
  }

  // An occurrence inside an inline archive is replaced or overlaps one that is.
  lemma InsideIsOverlapped(text: bytes, token: bytes)
    requires token != [] && IsInside(text, token)
    ensures Overlaps(text, token)
  {
    var j: nat, i: nat :| IsInsideAt(text, token, j, i);
    TokenIsTouched(text, token, i);
    var h: nat :| IsHit(text, token, h) && !(h + |token| <= i || i + |token| <= h);
    assert Meets(text, h, |token|);
  }

  lemma FencedOverlapsExactly(text: bytes, token: bytes, before: bool)
    requires token != [] && Fenced(text, token, before)
    ensures Overlaps(text, token) <==> IsInside(text, token)
  {
    if IsInside(text, token) { InsideIsOverlapped(text, token); }
    if h: nat :| IsHit(text, token, h) && Meets(text, h, |token|) {
      HitOccurs(text, token, h);
      FencedMeetsInside(text, token, before, h);
    }
  }

  lemma FencedRespelledExactly(text: bytes, token: bytes, needle: bytes, before: bool)
    requires token != [] && needle != [] && !Overlaps(text, token) && Fenced(text, needle, before)
    ensures Respelled(text, token, needle) <==> IsInside(text, needle)
  {
    if i: nat :| Survives(text, token, needle, i) && Meets(text, i, |needle|) {
      FencedMeetsInside(text, needle, before, i);
    }
    if IsInside(text, needle) {
      var j: nat, i: nat :| IsInsideAt(text, needle, j, i);
      forall h: nat | IsHit(text, token, h) ensures h + |token| <= i || i + |needle| <= h {
        HitIsApart(text, token, h, j);
      }
      assert Survives(text, token, needle, i) && Meets(text, i, |needle|);
    }
  }

  lemma BlobByteAt(text: bytes, j: nat, k: nat)
    requires j <= |text| && BlobLength(text[j..]) > 0 && j <= k < BlobEnd(text, j) <= |text|
    ensures IsBase64(text[k]) || text[k] in MARKER
  {
    var blob := text[j..];
    if k - j < |MARKER| {
      assert blob[..|MARKER|][k - j] == text[k];
    } else {
      assert blob[|MARKER|..][k - j - |MARKER|] == text[k];
    }
  }

  // A byte no inline archive has keeps a token out of them all.
  lemma OtherByteIsOutside(text: bytes, token: bytes)
    requires HasOther(token)
    ensures !IsInside(text, token)
  {
    if j: nat, i: nat :| IsInsideAt(text, token, j, i) {
      var p :| 0 <= p < |token| && !IsBase64(token[p]) && token[p] !in MARKER;
      BlobAtIsBlob(text, j);
      assert text[i..i + |token|][p] == text[i + p];
      BlobByteAt(text, j, i + p);
    }
  }

  lemma NothingInlinedIsOutside(text: bytes, token: bytes)
    requires Blobs(text) == []
    ensures !IsInside(text, token)
  {
    NoBlobListed(text);
  }

  lemma {:induction false} NoBlobListed(text: bytes)
    requires Blobs(text) == []
    ensures forall j: nat :: !IsBlobAt(text, j)
    decreases |text|
  {
    if text != [] {
      NoBlobListed(text[1..]);
      forall j: nat ensures !IsBlobAt(text, j) {
        if 0 < j { assert !IsBlobAt(text[1..], j - 1); }
      }
    }
  }

  // Fences stay where they are

  lemma SameNextByte(codec: Codec, depth: nat, rest: bytes, token: bytes)
    requires token != [] && Embed(codec, depth, rest, token).Some?
    ensures var out := Embed(codec, depth, rest, token).value;
            (out == [] <==> rest == []) && (out != [] && rest != [] ==> out[0] == rest[0])
  {
    var out := Embed(codec, depth, rest, token).value;
    MarkerStartsBase64();
    if rest != [] || out != [] {
      FrontIsKept(codec, depth, rest, token, 1);
      assert out[0] == out[..1][0] == rest[..1][0] == rest[0];
    }
  }

  lemma {:induction false} FencesThroughEmbed(codec: Codec, depth: nat, data: bytes, token: bytes, needle: bytes, before: bool)
    requires Lawful(codec) && token != [] && Embed(codec, depth, data, token).Some? && Fenced(data, needle, before)
    ensures Fenced(Embed(codec, depth, data, token).value, needle, before)
    decreases |data|
  {
    if data == [] {
    } else if BlobLength(data) > 0 {
      var out, rest := FirstBlobAgain(codec, depth, data, token);
      FencesThroughEmbed(codec, depth, rest, token, needle, false);
      SameNextByte(codec, depth, rest, token);
    } else {
      var out := ByteInFront(codec, depth, data, token);
      FencesThroughEmbed(codec, depth, data[1..], token, needle, data[0] !in needle);
    }
  }

  lemma FencedAnyway(text: bytes, needle: bytes, before: bool)
    requires Fenced(text, needle, before)
    ensures Fenced(text, needle, true)
  {
  }

  lemma {:induction false} FencedFurtherOn(text: bytes, needle: bytes, m: nat, before: bool)
    requires m <= |text| && Fenced(text, needle, before) && forall k: nat :: k < m ==> !IsBlobAt(text, k)
    ensures Fenced(text[m..], needle, true)
    decreases m
  {
    if m == 0 {
      assert text[m..] == text;
      FencedAnyway(text, needle, before);
    } else {
      OneOn(text);
      forall k: nat | k < m - 1 ensures !IsBlobAt(text[1..], k) {
        assert !IsBlobAt(text, 1 + k);
      }
      FencedFurtherOn(text[1..], needle, m - 1, text[0] !in needle);
      assert text[1..][m - 1..] == text[m..];
    }
  }

  ghost predicate NoBlobIn(text: bytes, m: nat) {
    forall k: nat :: k < m && k <= |text| ==> BlobLength(text[k..]) == 0
  }

  lemma NoBlobInTail(text: bytes, m: nat)
    requires text != [] && 0 < m && NoBlobIn(text, m)
    ensures BlobLength(text) == 0 && NoBlobIn(text[1..], m - 1)
  {
    assert text[0..] == text;
    forall k: nat | k < m - 1 && k <= |text[1..]| ensures BlobLength(text[1..][k..]) == 0 {
      assert text[1..][k..] == text[k + 1..];
    }
  }

  lemma {:induction false} FencedBehind(front: bytes, rest: bytes, needle: bytes, before: bool)
    requires front != [] && front[|front| - 1] !in needle && Fenced(rest, needle, true)
    requires NoBlobIn(front + rest, |front|)
    ensures Fenced(front + rest, needle, before)
    decreases |front|
  {
    var all := front + rest;
    NoBlobInTail(all, |front|);
    if |front| == 1 {
      assert all[1..] == rest;
    } else {
      assert all[1..] == front[1..] + rest;
      FencedBehind(front[1..], rest, needle, front[0] !in needle);
    }
  }

  lemma FencedBehindPlaceholder(rest: bytes, needle: bytes, before: bool)
    requires Foreign(needle) && Fenced(rest, needle, true)
    ensures Fenced(PLACEHOLDER + rest, needle, before)
  {
    PlaceholderBytes(9);
    forall k: nat | k < |PLACEHOLDER| ensures BlobLength((PLACEHOLDER + rest)[k..]) == 0 {
      NoBlobInPlaceholder(rest, k);
    }
    FencedBehind(PLACEHOLDER, rest, needle, before);
  }

  lemma FencedArchive(e: bytes, rest: bytes, needle: bytes)
    requires e != [] && (forall i :: 0 <= i < |e| ==> IsBase64(e[i])) && (rest == [] || !IsBase64(rest[0]))
    requires (rest == [] || rest[0] !in needle) && Fenced(rest, needle, false)
    ensures Fenced(MARKER + e + rest, needle, true)
  {
    BlobIsMeasured(e, rest);
    assert (MARKER + e + rest)[|MARKER| + |e|..] == rest;
  }

  lemma FirstStaysFenced(text: bytes, token: bytes, needle: bytes)
    requires token != [] && text != [] && BlobLength(text) > 0 && Foreign(needle)
    requires Replace(text, token) == text[..Step(text)] + Replace(text[Step(text)..], token)
    requires Fenced(text, needle, true) && Fenced(Replace(text[Step(text)..], token), needle, false)
    ensures Fenced(Replace(text, token), needle, true)
  {
    var e := text[|MARKER|..Step(text)];
    NextByteIsKept(text, token, needle, text[Step(text)..]);
    BlobBytes(text, e);
    FencedArchive(e, Replace(text[Step(text)..], token), needle);
  }

  lemma NextByteIsKept(text: bytes, token: bytes, needle: bytes, rest: bytes)
    requires token != [] && text != [] && BlobLength(text) > 0 && Foreign(needle)
    requires Fenced(text, needle, true) && rest == text[Step(text)..]
    ensures var out := Replace(rest, token);
            (out == [] || (!IsBase64(out[0]) && out[0] !in needle))
  {
    SplitFront(text, rest);
    NextByteStillEnds(rest, token);
    NextByteStaysForeign(rest, token, needle);
  }

  lemma NextByteStaysForeign(rest: bytes, token: bytes, needle: bytes)
    requires token != [] && Foreign(needle) && (rest == [] || rest[0] !in needle)
    ensures var out := Replace(rest, token);
            out == [] || out[0] !in needle
  {
    PlaceholderBytes(0);
  }

  lemma HitStaysFenced(text: bytes, token: bytes, needle: bytes, before: bool)
    requires token != [] && Foreign(needle) && token <= text && !Overlaps(text, token) && Fenced(text, needle, before)
    ensures Fenced(text[|token|..], needle, true)
    ensures Fenced(Replace(text[|token|..], token), needle, true) ==> Fenced(Replace(text, token), needle, before)
  {
    NoBlobInHit(text, token);
    FencedFurtherOn(text, needle, |token|, before);
    var rest := Replace(text[|token|..], token);
    if Fenced(rest, needle, true) { FencedBehindPlaceholder(rest, needle, before); }
  }

  lemma OneStaysFenced(text: bytes, token: bytes, needle: bytes, before: bool)
    requires 0 < |token| <= |text| && BlobLength(text) == 0 && !(token <= text)
    requires Fenced(Replace(text[1..], token), needle, text[0] !in needle)
    ensures Fenced(Replace(text, token), needle, before)
  {
    OneStaysInFront(text, token);
    ShrunkBlob(text, token);
  }

  lemma {:induction false} FencesThroughReplace(text: bytes, token: bytes, needle: bytes, before: bool)
    requires token != [] && Foreign(needle) && !Overlaps(text, token) && Fenced(text, needle, before)
    ensures Fenced(Replace(text, token), needle, before)
    decreases |text|
  {
    if |text| < |token| {
    } else if BlobLength(text) > 0 {
      FirstIsKept(text, token, Step(text));
      FencesThroughReplace(text[Step(text)..], token, needle, false);
      FirstStaysFenced(text, token, needle);
    } else if token <= text {
      HitIsBetween(text, token);
      HitStaysFenced(text, token, needle, before);
      FencesThroughReplace(text[|token|..], token, needle, true);
    } else {
      RestIsSpared(text, token, 1);
      FencesThroughReplace(text[1..], token, needle, text[0] !in needle);
      OneStaysFenced(text, token, needle, before);
    }
  }
}
