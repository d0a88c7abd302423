// `bytes.replace` with the placeholder of scripts/scrub-e2e-token.py, and which byte strings survive it.
module Replacement {
  import opened Text
  import opened Bytes

  const OPEN: Byte := '[' as int
  const CLOSE: Byte := ']' as int
  const WORD: bytes := Ascii("scrubbed")
  const PLACEHOLDER: bytes := [OPEN] + WORD + [CLOSE]

  // Leftmost occurrences first, none overlapping.
  function Replace(data: bytes, token: bytes): bytes
    requires token != []
    decreases |data|
  {
    if |data| < |token| then data
    else if data[..|token|] == token then PLACEHOLDER + Replace(data[|token|..], token)
    else [data[0]] + Replace(data[1..], token)
  }

  // Token occurrence i is one of those replaced.
  predicate IsHit(data: bytes, token: bytes, i: nat)
    requires token != []
    decreases |data|
  {
    if |data| < |token| then false
    else if data[..|token|] == token then i == 0 || (|token| <= i && IsHit(data[|token|..], token, i - |token|))
    else 0 < i && IsHit(data[1..], token, i - 1)
  }

  ghost predicate NoHitBefore(data: bytes, token: bytes, n: nat)
    requires token != []
  {
    forall h :: 0 <= h < n ==> !IsHit(data, token, h)
  }

  // No replaced occurrence overlaps the n bytes from i on.
  ghost predicate Untouched(data: bytes, token: bytes, i: nat, n: nat)
    requires token != []
  {
    forall h: nat :: IsHit(data, token, h) ==> h + |token| <= i || i + n <= h
  }

  // What cannot be put together from a placeholder and what stands next to it.
  predicate Foreign(needle: bytes) {
    needle != [] && OPEN !in needle && CLOSE !in needle && !Contains(WORD, needle)
  }

  lemma PlaceholderBytes(i: nat)
    requires i < |PLACEHOLDER|
    ensures |PLACEHOLDER| == 10
    ensures i == 0 ==> PLACEHOLDER[i] == OPEN
    ensures i == 9 ==> PLACEHOLDER[i] == CLOSE
    ensures 0 < i < 9 ==> PLACEHOLDER[i] == WORD[i - 1]
  {
  }

  // A foreign string never begins inside a placeholder.
  lemma NotInPlaceholder(needle: bytes, rest: bytes, i: nat)
    requires Foreign(needle) && i < 10
    ensures !OccursAt(PLACEHOLDER + rest, needle, i)
  {
    PlaceholderBytes(0);
    PlaceholderBytes(9);
    var s := PLACEHOLDER + rest;
    var n := i + |needle|;
    if n <= |s| {
      assert s[i..n][0] == s[i];
      if n > 9 {
        assert s[i..n][9 - i] == s[9];
      } else if 0 < i {
        forall k | 0 <= k < |needle| ensures s[i..n][k] == WORD[i - 1..n - 1][k] {
          PlaceholderBytes(i + k);
        }
        assert s[i..n] == WORD[i - 1..n - 1];
        assert !OccursAt(WORD, needle, i - 1);
      }
    }
  }

  lemma BracketComesFirst(data: bytes, token: bytes, k: nat)
    requires token != [] && token <= data && 0 < k <= |Replace(data, token)|
    ensures OPEN in Replace(data, token)[..k]
  {
    PlaceholderBytes(0);
    assert Replace(data, token)[..k][0] == OPEN;
  }

  // Up to its first bracket the result is the data.
  lemma {:induction false} PrefixIsKept(data: bytes, token: bytes, k: nat)
    requires token != [] && k <= |Replace(data, token)| && OPEN !in Replace(data, token)[..k]
    ensures k <= |data| && Replace(data, token)[..k] == data[..k]
    decreases |data|
  {
    var r := Replace(data, token);
    if |data| < |token| || k == 0 {
    } else if data[..|token|] == token {
      BracketComesFirst(data, token, k);
      assert false;
    } else {
      var rest := Replace(data[1..], token);
      assert r[..k] == [data[0]] + rest[..k - 1];
      PrefixIsKept(data[1..], token, k - 1);
      assert data == [data[0]] + data[1..];
      assert data[..k] == [data[0]] + data[1..][..k - 1];
    }
  }

  lemma OccursLater<T>(s: seq<T>, prefix: seq<T>, needle: seq<T>, i: nat)
    requires |prefix| <= i && OccursAt(prefix + s, needle, i)
    ensures OccursAt(s, needle, i - |prefix|)
  {
    assert (prefix + s)[i..i + |needle|] == s[i - |prefix|..i - |prefix| + |needle|];
  }

  lemma ContainsInSuffix<T>(s: seq<T>, n: nat, needle: seq<T>)
    requires n <= |s| && Contains(s[n..], needle)
    ensures Contains(s, needle)
  {
    var i :| 0 <= i <= |s[n..]| && OccursAt(s[n..], needle, i);
    assert s[n + i..n + i + |needle|] == s[n..][i..i + |needle|];
    assert OccursAt(s, needle, n + i);
  }

  // Where nothing is replaced, nothing changes.
  lemma {:induction false} SkipTo(data: bytes, token: bytes, m: nat)
    requires token != [] && m <= |data| && NoHitBefore(data, token, m)
    ensures Replace(data, token) == data[..m] + Replace(data[m..], token)
    decreases m
  {
    if m == 0 {
      assert data[m..] == data;
    } else if |data| < |token| {
      assert Replace(data[m..], token) == data[m..];
    } else {
      NoHitFirst(data, token, m);
      SkipTo(data[1..], token, m - 1);
      assert data[1..][m - 1..] == data[m..];
      assert data[..m] == [data[0]] + data[1..][..m - 1];
    }
  }

  lemma NoHitFirst(data: bytes, token: bytes, m: nat)
    requires token != [] && |token| <= |data| && 0 < m && NoHitBefore(data, token, m)
    ensures !(token <= data) && NoHitBefore(data[1..], token, m - 1)
    ensures forall h: nat :: IsHit(data, token, h) <==> 0 < h && IsHit(data[1..], token, h - 1)
  {
    assert !IsHit(data, token, 0);
    forall h | 0 <= h < m - 1 ensures !IsHit(data[1..], token, h) {
      assert !IsHit(data, token, h + 1);
    }
  }

  lemma {:induction false} HitsFurtherOn(data: bytes, token: bytes, m: nat, h: nat)
    requires token != [] && m <= |data| && NoHitBefore(data, token, m) && m <= h
    ensures IsHit(data, token, h) <==> IsHit(data[m..], token, h - m)
    decreases m
  {
    if m == 0 {
      assert data[m..] == data;
    } else if |token| <= |data| {
      NoHitFirst(data, token, m);
      HitsFurtherOn(data[1..], token, m - 1, h - 1);
      assert data[1..][m - 1..] == data[m..];
    }
  }

  lemma {:induction false} NoBracketNoHit(data: bytes, token: bytes, k: nat)
    requires token != [] && k <= |Replace(data, token)| && OPEN !in Replace(data, token)[..k]
    ensures NoHitBefore(data, token, k)
    decreases |data|
  {
    if |data| < |token| || k == 0 {
    } else if data[..|token|] == token {
      BracketComesFirst(data, token, k);
      assert false;
    } else {
      var rest := Replace(data[1..], token);
      assert Replace(data, token)[..k] == [data[0]] + rest[..k - 1];
      NoBracketNoHit(data[1..], token, k - 1);
      forall h | 0 <= h < k ensures !IsHit(data, token, h) {
        if 0 < h { assert !IsHit(data[1..], token, h - 1); }
      }
    }
  }

  // Which occurrences survive

  ghost predicate Survives(data: bytes, token: bytes, needle: bytes, i: nat)
    requires token != []
  {
    OccursAt(data, needle, i) && Untouched(data, token, i, |needle|)
  }

  ghost predicate SomeSurvives(data: bytes, token: bytes, needle: bytes)
    requires token != []
  {
    exists i: nat :: Survives(data, token, needle, i)
  }

  lemma OccursShifted<T>(s: seq<T>, m: nat, needle: seq<T>, i: nat)
    requires m <= |s|
    ensures OccursAt(s, needle, m + i) <==> OccursAt(s[m..], needle, i)
  {
    if m + i + |needle| <= |s| {
      assert s[m + i..m + i + |needle|] == s[m..][i..i + |needle|];
    }
  }

  lemma SurvivesAfterHit(data: bytes, token: bytes, needle: bytes, i: nat)
    requires token != [] && token <= data
    ensures Survives(data[|token|..], token, needle, i) <==> Survives(data, token, needle, |token| + i)
  {
    OccursShifted(data, |token|, needle, i);
    assert forall h: nat :: IsHit(data, token, |token| + h) <==> IsHit(data[|token|..], token, h);
    if Survives(data, token, needle, |token| + i) {
      forall h: nat | IsHit(data[|token|..], token, h) ensures h + |token| <= i || i + |needle| <= h {
        assert IsHit(data, token, |token| + h);
      }
    }
    if Survives(data[|token|..], token, needle, i) {
      forall h: nat | IsHit(data, token, h) ensures h + |token| <= |token| + i || |token| + i + |needle| <= h {
        if 0 < h { assert IsHit(data[|token|..], token, h - |token|); }
      }
    }
  }

  lemma SurvivesOneOn(data: bytes, token: bytes, needle: bytes, i: nat)
    requires token != [] && |token| <= |data| && !(token <= data)
    ensures Survives(data[1..], token, needle, i) <==> Survives(data, token, needle, 1 + i)
  {
    OccursShifted(data, 1, needle, i);
    assert forall h: nat :: IsHit(data, token, 1 + h) <==> IsHit(data[1..], token, h);
    if Survives(data, token, needle, 1 + i) {
      forall h: nat | IsHit(data[1..], token, h) ensures h + |token| <= i || i + |needle| <= h {
        assert IsHit(data, token, 1 + h);
      }
    }
    if Survives(data[1..], token, needle, i) {
      forall h: nat | IsHit(data, token, h) ensures h + |token| <= 1 + i || 1 + i + |needle| <= h {
        if 0 < h { assert IsHit(data[1..], token, h - 1); }
      }
    }
  }

  // Whatever foreign string the result holds, the data held where nothing was replaced.
  lemma {:induction false} OccurrenceSurvived(data: bytes, token: bytes, needle: bytes, i: nat)
    requires token != [] && Foreign(needle) && OccursAt(Replace(data, token), needle, i)
    ensures SomeSurvives(data, token, needle)
    decreases |data|
  {
    var r := Replace(data, token);
    if |data| < |token| {
      assert Survives(data, token, needle, i);
    } else if data[..|token|] == token {
      PlaceholderBytes(0);
      var rest := Replace(data[|token|..], token);
      if i < 10 { NotInPlaceholder(needle, rest, i); }
      OccursLater(rest, PLACEHOLDER, needle, i);
      OccurrenceSurvived(data[|token|..], token, needle, i - 10);
      var j: nat :| Survives(data[|token|..], token, needle, j);
      SurvivesAfterHit(data, token, needle, j);
    } else if i == 0 {
      assert r[..|needle|] == needle;
      PrefixIsKept(data, token, |needle|);
      NoBracketNoHit(data, token, |needle|);
      assert Survives(data, token, needle, 0);
    } else {
      var rest := Replace(data[1..], token);
      OccursLater(rest, [data[0]], needle, i);
      OccurrenceSurvived(data[1..], token, needle, i - 1);
      var j: nat :| Survives(data[1..], token, needle, j);
      SurvivesOneOn(data, token, needle, j);
    }
  }

  lemma ContainsAfter<T>(prefix: seq<T>, s: seq<T>, needle: seq<T>)
    requires Contains(s, needle)
    ensures Contains(prefix + s, needle)
  {
    assert (prefix + s)[|prefix|..] == s;
    ContainsInSuffix(prefix + s, |prefix|, needle);
  }

  lemma {:induction false} SurvivorOccurs(data: bytes, token: bytes, needle: bytes, i: nat)
    requires token != [] && needle != [] && Survives(data, token, needle, i)
    ensures Contains(Replace(data, token), needle)
    decreases |data|
  {
    if |data| < |token| {
    } else if data[..|token|] == token {
      assert IsHit(data, token, 0);
      SurvivesAfterHit(data, token, needle, i - |token|);
      SurvivorOccurs(data[|token|..], token, needle, i - |token|);
      ContainsAfter(PLACEHOLDER, Replace(data[|token|..], token), needle);
    } else if i == 0 {
      SkipTo(data, token, |needle|);
      assert OccursAt(Replace(data, token), needle, 0);
    } else {
      SurvivesOneOn(data, token, needle, i - 1);
      SurvivorOccurs(data[1..], token, needle, i - 1);
      ContainsAfter([data[0]], Replace(data[1..], token), needle);
    }
  }

  // A foreign string is in the result exactly if it is in the data somewhere no replaced occurrence of
  // the token overlaps.
  lemma OccursAfterExactly(data: bytes, token: bytes, needle: bytes)
    requires token != [] && Foreign(needle)
    ensures Contains(Replace(data, token), needle) <==> SomeSurvives(data, token, needle)
  {
    if Contains(Replace(data, token), needle) {
      var i :| 0 <= i <= |Replace(data, token)| && OccursAt(Replace(data, token), needle, i);
      OccurrenceSurvived(data, token, needle, i);
    }
    if i: nat :| Survives(data, token, needle, i) {
      SurvivorOccurs(data, token, needle, i);
    }
  }

  // Every occurrence of the token itself is replaced or overlaps one that is.
  lemma {:induction false} TokenIsTouched(data: bytes, token: bytes, i: nat)
    requires token != []
    ensures !Survives(data, token, token, i)
    decreases |data|
  {
    if |token| <= |data| {
      if data[..|token|] == token {
        assert IsHit(data, token, 0);
        if |token| <= i {
          SurvivesAfterHit(data, token, token, i - |token|);
          TokenIsTouched(data[|token|..], token, i - |token|);
        }
      } else if 0 < i {
        SurvivesOneOn(data, token, token, i - 1);
        TokenIsTouched(data[1..], token, i - 1);
      }
    }
  }

  // A foreign token does not survive its own replacement.
  lemma TokenIsGone(data: bytes, token: bytes)
    requires Foreign(token)
    ensures !Contains(Replace(data, token), token)
  {
    OccursAfterExactly(data, token, token);
    forall i: nat ensures !Survives(data, token, token, i) {
      TokenIsTouched(data, token, i);
    }
  }

  lemma NowhereAt<T>(s: seq<T>, needle: seq<T>, i: nat)
    requires !Contains(s, needle)
    ensures !OccursAt(s, needle, i)
  {
  }

  lemma OthersStayGone(data: bytes, token: bytes, needle: bytes)
    requires token != [] && Foreign(needle) && !Contains(data, needle)
    ensures !Contains(Replace(data, token), needle)
  {
    OccursAfterExactly(data, token, needle);
    forall i: nat ensures !Survives(data, token, needle, i) {
      NowhereAt(data, needle, i);
    }
  }

  lemma {:induction false} NothingToReplace(data: bytes, token: bytes)
    requires token != [] && !Contains(data, token)
    ensures Replace(data, token) == data
    decreases |data|
  {
    if |token| <= |data| {
      assert !OccursAt(data, token, 0);
      if Contains(data[1..], token) { ContainsInSuffix(data, 1, token); }
      NothingToReplace(data[1..], token);
    }
  }

  // Which tokens come back

  // From index a on the token agrees with the placeholder from index d on, as far as both go.
  predicate Agrees(token: bytes, a: nat, d: nat) {
    forall i :: a <= i < |token| && d + i - a < 10 ==> token[i] == PLACEHOLDER[d + i - a]
  }

  // Behind its own first a bytes the token occurs no earlier than it stands.
  ghost predicate FirstBehind(token: bytes, a: nat)
    requires a <= |token|
  {
    forall j :: 0 <= j < a ==> !OccursAt(token[..a] + token, token, j)
  }

  // The token can lie across a placeholder: from within it on, or from before it, where what it begins with
  // does not make the token come sooner.
  ghost predicate LiesAcross(token: bytes) {
    || (exists d: nat :: d < 10 && Agrees(token, 0, d))
    || (exists a: nat :: 0 < a < |token| && Agrees(token, a, 0) && FirstBehind(token, a))
  }

  lemma {:induction false} FirstHitIsFirst(data: bytes, token: bytes, m: nat, j: nat)
    requires token != [] && m <= |data| && NoHitBefore(data, token, m) && j < m
    ensures !OccursAt(data, token, j)
    decreases m
  {
    if |token| <= |data| {
      NoHitFirst(data, token, m);
      if 0 < j {
        FirstHitIsFirst(data[1..], token, m - 1, j - 1);
        OccursShifted(data, 1, token, j - 1);
      }
    }
  }

  lemma {:induction false} FirstHit(data: bytes, token: bytes, m: nat) returns (h: nat)
    requires token != [] && m <= |data|
    ensures h <= m && NoHitBefore(data, token, h) && (h < m ==> IsHit(data, token, h))
    decreases m
  {
    if m == 0 {
      h := 0;
    } else {
      h := FirstHit(data, token, m - 1);
      if h == m - 1 && !IsHit(data, token, h) { h := m; }
    }
  }

  lemma {:induction false} HitOccurs(text: bytes, token: bytes, h: nat)
    requires token != [] && IsHit(text, token, h)
    ensures OccursAt(text, token, h)
    decreases |text|
  {
    var m := if token <= text then |token| else 1;
    if 0 < h {
      HitOccurs(text[m..], token, h - m);
      OccursShifted(text, m, token, h - m);
    }
  }

  // The token at the front of the result, but not of the data.
  lemma AcrossFirstHit(data: bytes, token: bytes)
    requires token != [] && |token| <= |data| && !(token <= data) && token <= Replace(data, token)
    ensures LiesAcross(token)
  {
    var a := FirstHit(data, token, |token|);
    FrontIsToken(data, token, a);
    HitOccurs(data, token, a);
    HitAt(data, token, a);
    AgreesFrom(Replace(data, token), token, a);
    forall j | 0 <= j < a ensures !OccursAt(token[..a] + token, token, j) {
      FirstHitIsFirst(data, token, a, j);
      OccursInFront(data, token, a, j);
    }
  }

  lemma FrontIsToken(data: bytes, token: bytes, a: nat)
    requires token != [] && a <= |token| <= |data| && !(token <= data) && token <= Replace(data, token)
    requires NoHitBefore(data, token, a) && (a < |token| ==> IsHit(data, token, a))
    ensures 0 < a < |token| && data[..a] == token[..a] && IsHit(data, token, a)
    ensures Replace(data, token)[a..] == Replace(data[a..], token)
  {
    SkipTo(data, token, a);
    assert Replace(data, token)[..a] == data[..a] == token[..a];
  }

  lemma HitAt(data: bytes, token: bytes, a: nat)
    requires token != [] && a <= |data| && OccursAt(data, token, a)
    ensures PLACEHOLDER <= Replace(data[a..], token)
  {
    assert data[a..][..|token|] == data[a..a + |token|] == token;
  }

  lemma AgreesFrom(r: bytes, token: bytes, a: nat)
    requires token <= r && a <= |token| && PLACEHOLDER <= r[a..]
    ensures Agrees(token, a, 0)
  {
    PlaceholderBytes(0);
    forall i | a <= i < |token| && i - a < 10 ensures token[i] == PLACEHOLDER[i - a] {
      assert token[i] == r[i] == r[a..][i - a];
    }
  }

  lemma OccursInFront(data: bytes, token: bytes, a: nat, j: nat)
    requires a <= |token| && OccursAt(data, token, a) && data[..a] == token[..a] && j < a
    ensures OccursAt(token[..a] + token, token, j) ==> OccursAt(data, token, j)
  {
    var front := token[..a] + token;
    assert data[..a + |token|] == front;
    if OccursAt(front, token, j) { assert data[j..j + |token|] == front[j..j + |token|]; }
  }

  lemma {:induction false} BackOnlyAcross(data: bytes, token: bytes, i: nat)
    requires token != [] && OccursAt(Replace(data, token), token, i)
    ensures LiesAcross(token)
    decreases |data|
  {
    var r := Replace(data, token);
    if |data| < |token| {
      assert false;
    } else if token <= data {
      PlaceholderBytes(0);
      var rest := Replace(data[|token|..], token);
      if i < 10 {
        forall k | 0 <= k < |token| && i + k < 10 ensures token[k] == PLACEHOLDER[i + k] {
          assert r[i..i + |token|][k] == r[i + k];
        }
        assert Agrees(token, 0, i);
      } else {
        OccursLater(rest, PLACEHOLDER, token, i);
        BackOnlyAcross(data[|token|..], token, i - 10);
      }
    } else if i == 0 {
      assert r[..|token|] == token;
      AcrossFirstHit(data, token);
    } else {
      OccursLater(Replace(data[1..], token), [data[0]], token, i);
      BackOnlyAcross(data[1..], token, i - 1);
    }
  }

  // What is left of the token beyond the placeholder.
  function Beyond(token: bytes, a: nat, d: nat): bytes
    requires d <= 10
  {
    if a + 10 - d <= |token| then token[a + 10 - d..] else []
  }

  lemma AcrossOccurs(token: bytes, a: nat, d: nat, r: bytes)
    requires a <= |token| && d < 10 && (a == 0 || d == 0) && Agrees(token, a, d)
    requires r == token[..a] + (PLACEHOLDER + Beyond(token, a, d))
    ensures OccursAt(r, token, d)
  {
    PlaceholderBytes(0);
    forall k | 0 <= k < |token| ensures r[d + k] == token[k] {
      if k < a {
        assert r[k] == token[..a][k];
      } else if d + k - a < 10 {
        assert r[d + k] == PLACEHOLDER[d + k - a];
      } else {
        assert r[d + k] == Beyond(token, a, d)[d + k - a - 10];
      }
    }
    assert r[d..d + |token|] == token;
  }

  lemma BackFromWithin(token: bytes, d: nat)
    requires token != [] && d < 10 && Agrees(token, 0, d)
    ensures Contains(Replace(token + Beyond(token, 0, d), token), token)
  {
    var rest := Beyond(token, 0, d);
    var data := token + rest;
    assert data[..|token|] == token && data[|token|..] == rest;
    assert Replace(rest, token) == rest;
    assert Replace(data, token) == token[..0] + (PLACEHOLDER + rest);
    AcrossOccurs(token, 0, d, Replace(data, token));
    assert OccursAt(Replace(data, token), token, d);
  }

  lemma {:induction false} NoHitFirstBehind(front: bytes, token: bytes, rest: bytes)
    requires token != [] && forall j :: 0 <= j < |front| ==> !OccursAt(front + token, token, j)
    ensures Replace(front + (token + rest), token) == front + (PLACEHOLDER + Replace(rest, token))
  {
    if front == [] {
      NothingInFront(token, rest);
    } else {
      NoneSooner(front, token);
      NoHitFirstBehind(front[1..], token, rest);
      NotAtFront(front, token, rest);
      FirstByte(front, PLACEHOLDER + Replace(rest, token));
    }
  }

  lemma NothingInFront(token: bytes, rest: bytes)
    requires token != []
    ensures Replace([] + (token + rest), token) == [] + (PLACEHOLDER + Replace(rest, token))
  {
    var data := token + rest;
    assert [] + data == data && data[..|token|] == token && data[|token|..] == rest;
    assert [] + (PLACEHOLDER + Replace(rest, token)) == PLACEHOLDER + Replace(rest, token);
  }

  lemma FirstByte(front: bytes, rest: bytes)
    requires front != []
    ensures [front[0]] + (front[1..] + rest) == front + rest
  {
  }

  lemma NoneSooner(front: bytes, token: bytes)
    requires front != [] && forall j :: 0 <= j < |front| ==> !OccursAt(front + token, token, j)
    ensures forall j :: 0 <= j < |front[1..]| ==> !OccursAt(front[1..] + token, token, j)
  {
    assert (front + token)[1..] == front[1..] + token;
    forall j: nat | j < |front[1..]| ensures !OccursAt(front[1..] + token, token, j) {
      OccursShifted(front + token, 1, token, j);
    }
  }

  lemma NotAtFront(front: bytes, token: bytes, rest: bytes)
    requires token != [] && front != [] && !OccursAt(front + token, token, 0)
    ensures var data, tail := front + (token + rest), front[1..] + (token + rest);
            Replace(data, token) == [front[0]] + Replace(tail, token)
  {
    var data := front + (token + rest);
    assert (front + token)[..|token|] == data[..|token|];
    assert data[1..] == front[1..] + (token + rest);
  }

  lemma BackFromBefore(token: bytes, a: nat)
    requires 0 < a < |token| && Agrees(token, a, 0) && FirstBehind(token, a)
    ensures Contains(Replace(token[..a] + (token + Beyond(token, a, 0)), token), token)
  {
    var rest := Beyond(token, a, 0);
    var data := token[..a] + (token + rest);
    NoHitFirstBehind(token[..a], token, rest);
    assert Replace(rest, token) == rest;
    AcrossOccurs(token, a, 0, Replace(data, token));
    assert OccursAt(Replace(data, token), token, 0);
  }

  // The token can be in data it has been replaced in.
  ghost predicate ComesBack(token: bytes)
    requires token != []
  {
    exists data: bytes :: Contains(Replace(data, token), token)
  }

  lemma BackBy(data: bytes, token: bytes)
    requires token != [] && Contains(Replace(data, token), token)
    ensures ComesBack(token)
  {
  }

  // A token can be in data it has been replaced in exactly if it can lie across a placeholder.
  lemma ComesBackExactly(token: bytes)
    requires token != []
    ensures ComesBack(token) <==> LiesAcross(token)
  {
    if data: bytes :| Contains(Replace(data, token), token) {
      var i: nat :| i <= |Replace(data, token)| && OccursAt(Replace(data, token), token, i);
      BackOnlyAcross(data, token, i);
    }
    if LiesAcross(token) {
      if d: nat :| d < 10 && Agrees(token, 0, d) {
        BackFromWithin(token, d);
        BackBy(token + Beyond(token, 0, d), token);
      } else {
        var a: nat :| 0 < a < |token| && Agrees(token, a, 0) && FirstBehind(token, a);
        BackFromBefore(token, a);
        BackBy(token[..a] + (token + Beyond(token, a, 0)), token);
      }
    }
  }

  // Without brackets these are the tokens within the placeholder's word.
  lemma BracketFreeComesBackExactly(token: bytes)
    requires token != [] && OPEN !in token && CLOSE !in token
    ensures ComesBack(token) <==> Contains(WORD, token)
  {
    ComesBackExactly(token);
    if Contains(WORD, token) {
      var i: nat :| i <= |WORD| && OccursAt(WORD, token, i);
      WithinWord(token, i);
    } else {
      forall data: bytes ensures !Contains(Replace(data, token), token) { TokenIsGone(data, token); }
    }
  }

  lemma WithinWord(token: bytes, i: nat)
    requires OccursAt(WORD, token, i)
    ensures LiesAcross(token)
  {
    PlaceholderBytes(0);
    if token != [] {
      forall k | 0 <= k < |token| && 1 + i + k < 10 ensures token[k] == PLACEHOLDER[1 + i + k] {
        PlaceholderBytes(1 + i + k);
        assert WORD[i..i + |token|][k] == WORD[i + k];
      }
      assert Agrees(token, 0, 1 + i);
    } else {
      assert Agrees(token, 0, 0);
    }
  }

  // A bracket comes back, two opening ones never do.
  lemma BracketsComeBack()
    ensures LiesAcross([OPEN]) && LiesAcross([CLOSE]) && !LiesAcross([OPEN, OPEN])
  {
    PlaceholderBytes(0);
    PlaceholderBytes(9);
    assert Agrees([OPEN], 0, 0) && Agrees([CLOSE], 0, 9);
    var two := [OPEN, OPEN];
    forall d: nat | d < 10 ensures !Agrees(two, 0, d) {
      OpensOnce(if d == 0 then 1 else d);
      assert two[0] == OPEN && two[1] == OPEN;
    }
    assert two[..1] + two == [OPEN, OPEN, OPEN];
    assert OccursAt(two[..1] + two, two, 0);
  }

  lemma OpensOnce(k: nat)
    requires 0 < k < 10
    ensures PLACEHOLDER[k] != OPEN
  {
    PlaceholderBytes(k);
    var word := "scrubbed";
    assert k < 9 ==> WORD[k - 1] == word[k - 1] as int % 256 && word[k - 1] != '[' && word[k - 1] < 128 as char;
  }
}
