// The release pipeline when any run may start at any commit of main and any publish job of the past
// may be attempted again with what its version job handed over back then, but no release is
// withdrawn or returned to draft meanwhile.
module StaleReruns {
  import opened Text
  import opened Git
  import opened SemVer
  import opened ReleaseVersion
  import opened ReleasePipeline
  import opened ReleaseSelection
  import opened ReleaseOrder

  // Version v is, or may yet be, released at commit c.
  ghost predicate Holds(s: State, c: Sha, v: Version) {
    if Claimed(s, v) then s.tags[v] == c
    else !IsIn(s, v, Prerelease) && exists o :: o in s.outputs && o.head == c && o.version == v
  }

  // Greater versions come later on main, and from version f on the releases of one minor line have no
  // feature between them.
  ghost predicate InStep(s: State, f: Version, c: Sha, v: Version, d: Sha, w: Version) {
    && d < |s.repo| && c < |s.repo|
    && (Less(v, w) ==> c < d && (v.minor == w.minor && AtMost(f, v) ==> Lvl(s, c, d) <= 1))
  }

  ghost predicate AllInStep(s: State, f: Version) {
    forall c, v, d, w :: Holds(s, c, v) && Holds(s, d, w) ==> InStep(s, f, c, v, d, w)
  }

  // The version after m, for a commit that asks for that level.
  function Next(s: State, m: Version, level: nat): Version {
    NextFree(s, Bump(m, level))
  }

  // Version v at commit c comes after the release of m.
  ghost predicate Follows(s: State, f: Version, c: Sha, v: Version, m: Version) {
    && c < |s.repo| && Claimed(s, m) && AtMost(f, m) && s.tags[m] < c
    && 0 < Lvl(s, s.tags[m], c) && v == Next(s, m, Lvl(s, s.tags[m], c))
  }

  ghost predicate Pending(s: State, f: Version, o: Output) {
    exists m :: Follows(s, f, o.head, o.version, m)
  }

  ghost predicate SomeClaim(s: State) {
    exists m :: Claimed(s, m)
  }

  // Before the first release every run hands over the baseline b; after it, f is a release that every
  // later one is above.
  ghost predicate Grounded(s: State, f: Version, b: Version) {
    if SomeClaim(s) then
      && Claimed(s, f)
      && forall o :: o in s.outputs && !Claimed(s, o.version) && !IsIn(s, o.version, Prerelease) ==> Pending(s, f, o)
    else f == b && forall o :: o in s.outputs ==> o.version == b
  }

  ghost predicate Invariant(s: State, f: Version, b: Version) {
    && Base(s)
    && AllInStep(s, f)
    && Grounded(s, f, b)
    && (forall v :: Alive(s, v) && !Claimed(s, v) ==> Holds(s, s.tags[v], v))
  }

  // Version order, as far as one bump goes

  lemma NothingBetween(s: State, m: Version, level: nat, w: Version)
    requires 0 < level && m.major == w.major && !IsIn(s, w, Prerelease)
    requires Less(m, w) && Less(w, Next(s, m, level))
    ensures level >= 2 && w.minor == m.minor
  {
    NextFreeIsFirst(s, Bump(m, level));
    assert !(IsPatchFrom(Bump(m, level), w) && w.patch < Next(s, m, level).patch);
  }

  lemma NextIsMonotone(s: State, m: Version, low: nat, high: nat)
    requires 0 < low <= high
    ensures AtMost(Next(s, m, low), Next(s, m, high))
  {
    NextFreeIsFirst(s, Bump(m, low));
    NextFreeIsFirst(s, Bump(m, high));
  }

  lemma NextsDiffer(s: State, m: Version, low: nat, high: nat)
    requires 0 < low && 0 < high && Less(Next(s, m, low), Next(s, m, high))
    ensures Next(s, m, low).minor != Next(s, m, high).minor
  {
    NextFreeIsFirst(s, Bump(m, low));
    NextFreeIsFirst(s, Bump(m, high));
  }

  lemma NextIsAbove(s: State, m: Version, level: nat)
    requires 0 < level
    ensures Less(m, Next(s, m, level)) && Next(s, m, level).major == m.major
    ensures level == 1 ==> Next(s, m, level).minor == m.minor
    ensures level >= 2 ==> Next(s, m, level).minor == m.minor + 1
    ensures !IsIn(s, Next(s, m, level), Prerelease)
  {
    NextFreeIsFirst(s, Bump(m, level));
  }

  lemma NextOfEarlierBase(s: State, m': Version, level': nat, m: Version, level: nat)
    requires 0 < level && 0 < level' && m.major == m'.major && Less(m', m) && !IsIn(s, m, Prerelease)
    requires Less(Next(s, m, level), Next(s, m', level'))
    ensures level' >= 2 && m'.minor == m.minor && level == 1
    ensures Next(s, m, level).minor != Next(s, m', level').minor
  {
    NextIsAbove(s, m, level);
    NextIsAbove(s, m', level');
    LessIsTransitive(m, Next(s, m, level), Next(s, m', level'));
    NothingBetween(s, m', level', m);
    assert level >= 2 && level' >= 2 && m.minor == m'.minor ==> Bump(m, level) == Bump(m', level');
  }

  lemma LessIsTransitive(u: Version, v: Version, w: Version)
    requires Less(u, v) && Less(v, w)
    ensures Less(u, w)
  {
  }

  // The new version against everything held

  lemma HeldIsBeta(s: State, c: Sha, w: Version)
    requires Base(s) && Holds(s, c, w)
    ensures w.major == 0 && !IsIn(s, w, Prerelease) && OnMain(s, c)
  {
  }

  lemma ClaimHolds(s: State, m: Version)
    requires Base(s) && Claimed(s, m)
    ensures Holds(s, s.tags[m], m) && OnMain(s, s.tags[m])
  {
  }

  lemma BelowBase(s: State, f: Version, at: Sha, m: Version, head: Sha, c: Sha, w: Version)
    requires OnMain(s, at) && OnMain(s, head) && OnMain(s, c) && at < head && 0 < Lvl(s, at, head)
    requires InStep(s, f, c, w, at, m) && Less(w, m) && w.major == m.major
    ensures c < head
    ensures w.minor == Next(s, m, Lvl(s, at, head)).minor && AtMost(f, w) ==> Lvl(s, c, head) <= 1
  {
    NextIsAbove(s, m, Lvl(s, at, head));
    LvlSplits(s, c, at, head);
  }

  lemma AboveBase(s: State, f: Version, at: Sha, m: Version, head: Sha, c: Sha, w: Version)
    requires OnMain(s, at) && OnMain(s, head) && OnMain(s, c) && at < head && 0 < Lvl(s, at, head)
    requires InStep(s, f, at, m, c, w) && Less(m, w) && w.major == m.major && AtMost(f, m) && !IsIn(s, w, Prerelease)
    requires Less(w, Next(s, m, Lvl(s, at, head)))
    ensures c < head && w.minor != Next(s, m, Lvl(s, at, head)).minor
  {
    NextIsAbove(s, m, Lvl(s, at, head));
    NothingBetween(s, m, Lvl(s, at, head), w);
    if head <= c { LvlSplits(s, at, head, c); }
  }

  lemma LowerIsEarlier(s: State, f: Version, b: Version, head: Sha, m: Version, v: Version, c: Sha, w: Version)
    requires Invariant(s, f, b) && OnMain(s, head) && Follows(s, f, head, v, m)
    requires Holds(s, c, w) && Less(w, v)
    ensures c < head && (w.minor == v.minor && AtMost(f, w) ==> Lvl(s, c, head) <= 1)
  {
    var at := s.tags[m];
    ClaimHolds(s, m);
    HeldIsBeta(s, c, w);
    if w == m {
      NextIsAbove(s, m, Lvl(s, at, head));
    } else if Less(w, m) {
      assert InStep(s, f, c, w, at, m);
      BelowBase(s, f, at, m, head, c, w);
    } else {
      assert InStep(s, f, at, m, c, w);
      AboveBase(s, f, at, m, head, c, w);
    }
  }

  lemma HigherAfterSameBase(s: State, at: Sha, head: Sha, c: Sha, m: Version)
    requires OnMain(s, at) && OnMain(s, head) && OnMain(s, c) && at < head && at < c
    requires 0 < Lvl(s, at, head) && 0 < Lvl(s, at, c)
    requires Less(Next(s, m, Lvl(s, at, head)), Next(s, m, Lvl(s, at, c)))
    ensures head < c && Next(s, m, Lvl(s, at, head)).minor != Next(s, m, Lvl(s, at, c)).minor
  {
    NextsDiffer(s, m, Lvl(s, at, head), Lvl(s, at, c));
    if c <= head {
      LvlSplits(s, at, c, head);
      NextIsMonotone(s, m, Lvl(s, at, c), Lvl(s, at, head));
    }
  }

  lemma HigherAfterEarlierBase(s: State, f: Version, at': Sha, m': Version, at: Sha, m: Version, head: Sha, c: Sha)
    requires OnMain(s, at') && OnMain(s, at) && OnMain(s, head) && OnMain(s, c) && at < head && at < c
    requires m.major == 0 && m'.major == 0 && InStep(s, f, at', m', at, m) && Less(m', m) && AtMost(f, m')
    requires !IsIn(s, m, Prerelease) && 0 < Lvl(s, at, head) && 0 < Lvl(s, at', c)
    requires Less(Next(s, m, Lvl(s, at, head)), Next(s, m', Lvl(s, at', c)))
    ensures head < c && Next(s, m, Lvl(s, at, head)).minor != Next(s, m', Lvl(s, at', c)).minor
  {
    NextOfEarlierBase(s, m', Lvl(s, at', c), m, Lvl(s, at, head));
    if c <= head {
      LvlSplits(s, at', at, c);
      LvlSplits(s, at, c, head);
    }
  }

  lemma FollowerOf(s: State, f: Version, b: Version, c: Sha, w: Version) returns (m: Version)
    requires Invariant(s, f, b) && SomeClaim(s) && Holds(s, c, w) && !Claimed(s, w)
    ensures Follows(s, f, c, w, m)
  {
    var o :| o in s.outputs && o.head == c && o.version == w;
    m :| Follows(s, f, o.head, o.version, m);
  }

  lemma HigherIsLater(s: State, f: Version, b: Version, head: Sha, m: Version, v: Version, c: Sha, w: Version)
    requires Invariant(s, f, b) && OnMain(s, head) && Follows(s, f, head, v, m)
    requires forall u :: Claimed(s, u) ==> AtMost(u, m)
    requires Holds(s, c, w) && Less(v, w)
    ensures head < c && v.minor != w.minor
  {
    HeldIsBeta(s, c, w);
    NextIsAbove(s, m, Lvl(s, s.tags[m], head));
    LessIsTransitive(m, v, w);
    var m' := FollowerOf(s, f, b, c, w);
    ClaimHolds(s, m);
    ClaimHolds(s, m');
    assert InStep(s, f, s.tags[m], m, c, w);
    if m' == m {
      HigherAfterSameBase(s, s.tags[m], head, c, m);
    } else {
      assert InStep(s, f, s.tags[m'], m', s.tags[m], m);
      HigherAfterEarlierBase(s, f, s.tags[m'], m', s.tags[m], m, head, c);
    }
  }

  // What a run hands over

  ghost predicate Fits(s: State, f: Version, head: Sha, v: Version) {
    forall c, w :: Holds(s, c, w) ==> InStep(s, f, c, w, head, v) && InStep(s, f, head, v, c, w)
  }

  lemma FollowerFits(s: State, f: Version, b: Version, head: Sha, m: Version, v: Version)
    requires Invariant(s, f, b) && OnMain(s, head) && Follows(s, f, head, v, m)
    requires forall u :: Claimed(s, u) ==> AtMost(u, m)
    ensures Fits(s, f, head, v)
  {
    forall c, w | Holds(s, c, w) ensures InStep(s, f, c, w, head, v) && InStep(s, f, head, v, c, w) {
      HeldIsBeta(s, c, w);
      if Less(w, v) { LowerIsEarlier(s, f, b, head, m, v, c, w); }
      if Less(v, w) { HigherIsLater(s, f, b, head, m, v, c, w); }
    }
  }

  lemma ClaimInView(s: State, m: Version, head: Sha)
    requires Claimed(s, m)
    ensures InView(s, m, head)
  {
  }

  lemma NextFollows(s: State, f: Version, b: Version, head: Sha, m: Version, v: Version, reclaim: Option<Sha>)
    requires Invariant(s, f, b) && head < |s.repo| && OffersNext(s, head, m, v, reclaim)
    ensures Follows(s, f, head, v, m) && forall u :: Claimed(s, u) ==> AtMost(u, m)
  {
    AncestorIsOlder(s.repo, s.tags[m], head);
    forall u | Claimed(s, u) ensures AtMost(u, m) { ClaimInView(s, u, head); }
    assert Claimed(s, m);
  }

  ghost predicate IsFirst(s: State, b: Version, v: Version) {
    !SomeClaim(s) && v == b
  }

  lemma OfferFits(s: State, f: Version, b: Version, head: Sha, base: Version, v: Version, reclaim: Option<Sha>)
    requires Invariant(s, f, b) && OnMain(s, head) && Offers(s, head, base, v, reclaim) && !Claimed(s, v)
    requires SomeClaim(s) || base == b
    ensures Holds(s, head, v) || IsFirst(s, b, v) || exists m :: Follows(s, f, head, v, m)
    ensures Fits(s, f, head, v)
  {
    if OffersOwn(s, head, v, reclaim) {
      assert Holds(s, head, v);
    } else if OffersFirst(s, head, base, v, reclaim) {
      if m :| Claimed(s, m) { ClaimInView(s, m, head); }
      assert IsFirst(s, b, v);
      forall c: Sha, w | Holds(s, c, w) ensures w == v && c < |s.repo| { HeldIsBeta(s, c, w); }
    } else {
      var m :| OffersNext(s, head, m, v, reclaim);
      NextFollows(s, f, b, head, m, v, reclaim);
      FollowerFits(s, f, b, head, m, v);
    }
  }

  // An older checkout publishes nothing once a later commit is released.
  lemma OlderCheckoutIsRefused(s: State, f: Version, b: Version, head: Sha, u: Version,
                               base: Version, v: Version, reclaim: Option<Sha>)
    requires Invariant(s, f, b) && OnMain(s, head) && Claimed(s, u) && head < s.tags[u]
    ensures !Offers(s, head, base, v, reclaim)
  {
    ClaimInView(s, u, head);
    if OffersOwn(s, head, v, reclaim) { TopIsLater(s, f, b, head, u, v); }
    if m :| OffersNext(s, head, m, v, reclaim) {
      AncestorIsOlder(s.repo, s.tags[m], head);
      TopIsLater(s, f, b, head, u, m);
    }
  }

  lemma TopIsLater(s: State, f: Version, b: Version, head: Sha, u: Version, m: Version)
    requires Invariant(s, f, b) && Claimed(s, u) && IsTop(s, head, m)
    ensures s.tags[u] <= s.tags[m]
  {
    ClaimInView(s, u, head);
    ClaimHolds(s, u);
    assert Holds(s, s.tags[m], m);
    assert InStep(s, f, s.tags[u], u, s.tags[m], m);
  }

  // Steps

  ghost predicate KeepsClaims(s: State, s': State) {
    && (forall v :: Claimed(s, v) ==> Claimed(s', v) && s'.tags[v] == s.tags[v])
    && WithdrawnTags(s') == WithdrawnTags(s)
  }

  lemma InStepIsLocal(s: State, s': State, f: Version)
    requires SameHistory(s, s')
    ensures forall c, v, d, w :: InStep(s, f, c, v, d, w) ==> InStep(s', f, c, v, d, w)
  {
    forall c, v, d, w | InStep(s, f, c, v, d, w) ensures InStep(s', f, c, v, d, w) {
      LvlOfOldCommits(s, s', c, d);
    }
  }

  lemma FollowsIsLocal(s: State, s': State, f: Version, c: Sha, v: Version, m: Version)
    requires Base(s) && SameHistory(s, s') && KeepsClaims(s, s') && Follows(s, f, c, v, m)
    ensures Follows(s', f, c, v, m)
  {
    LvlOfOldCommits(s, s', s.tags[m], c);
  }

  lemma PendingIsLocal(s: State, s': State, f: Version, o: Output)
    requires Base(s) && SameHistory(s, s') && KeepsClaims(s, s') && Pending(s, f, o)
    ensures Pending(s', f, o)
  {
    var m :| Follows(s, f, o.head, o.version, m);
    FollowsIsLocal(s, s', f, o.head, o.version, m);
  }

  lemma StaysInStep(s: State, s': State, f: Version)
    requires AllInStep(s, f) && SameHistory(s, s') && forall c, v :: Holds(s', c, v) ==> Holds(s, c, v)
    ensures AllInStep(s', f)
  {
    InStepIsLocal(s, s', f);
  }

  // Commits

  lemma GrowthKeepsInvariant(s: State, step: Step, s': State, f: Version, b: Version)
    requires Invariant(s, f, b) && Takes(s, step, s') && (step.Push? || step.Side?)
    ensures Invariant(s', f, b)
  {
    StepKeepsBase(s, step, s');
    HistoryGrows(s, step, s');
    assert forall v :: (Claimed(s', v) <==> Claimed(s, v)) && (Alive(s', v) <==> Alive(s, v));
    assert forall c, v :: Holds(s', c, v) <==> Holds(s, c, v);
    StaysInStep(s, s', f);
    StaysGrounded(s, s', f, b);
  }

  lemma StaysGrounded(s: State, s': State, f: Version, b: Version)
    requires Base(s) && Grounded(s, f, b) && SameHistory(s, s')
    requires s'.tags == s.tags && s'.dist == s.dist && s'.outputs == s.outputs
    ensures Grounded(s', f, b)
  {
    assert forall v :: Claimed(s', v) <==> Claimed(s, v);
    assert WithdrawnTags(s') == WithdrawnTags(s);
    if SomeClaim(s) {
      forall o | o in s'.outputs && !Claimed(s', o.version) && !IsIn(s', o.version, Prerelease) ensures Pending(s', f, o) {
        PendingIsLocal(s, s', f, o);
      }
    }
  }

  // Attempts

  lemma TouchHolds(s: State, o: Output, s': State)
    requires o in s.outputs && Touches(s, o, s')
    ensures forall c, v :: Holds(s', c, v) ==> Holds(s, c, v)
    ensures KeepsClaims(s, s')
  {
    OthersAreUntouched(s, o, s');
    forall v ensures Tag(v) in WithdrawnTags(s') <==> Tag(v) in WithdrawnTags(s) {
      WithdrawnTag(s, v);
      WithdrawnTag(s', v);
    }
  }

  lemma TouchKeepsDrafts(s: State, o: Output, s': State)
    requires o in s.outputs && Touches(s, o, s')
    requires forall v :: Alive(s, v) && !Claimed(s, v) ==> Holds(s, s.tags[v], v)
    ensures forall v :: Alive(s', v) && !Claimed(s', v) ==> Holds(s', s'.tags[v], v)
  {
    OthersAreUntouched(s, o, s');
    forall v | Alive(s', v) && !Claimed(s', v) ensures Holds(s', s'.tags[v], v) {
      if v != o.version || s'.tags[v] != o.head {
        assert Alive(s, v) && !Claimed(s, v) && Holds(s, s.tags[v], v);
      }
    }
  }

  lemma TouchKeepsGrounded(s: State, o: Output, s': State, f: Version, b: Version)
    requires Base(s) && Grounded(s, f, b) && o in s.outputs && Touches(s, o, s') && KeepsClaims(s, s')
    ensures Grounded(s', f, b)
  {
    OthersAreUntouched(s, o, s');
    if SomeClaim(s) {
      assert Claimed(s', f);
      forall p | p in s'.outputs && !Claimed(s', p.version) && !IsIn(s', p.version, Prerelease) ensures Pending(s', f, p) {
        PendingIsLocal(s, s', f, p);
      }
    } else if m :| Claimed(s', m) {
      assert m == o.version == b;
    }
  }

  lemma TouchKeepsInvariant(s: State, o: Output, s': State, f: Version, b: Version)
    requires Invariant(s, f, b) && Base(s') && o in s.outputs && Touches(s, o, s')
    ensures Invariant(s', f, b)
  {
    TouchHolds(s, o, s');
    StaysInStep(s, s', f);
    TouchKeepsDrafts(s, o, s');
    TouchKeepsGrounded(s, o, s', f, b);
  }

  // Runs

  lemma SelectionHolds(s: State, head: Sha, base: Version, s': State)
    requires OnlySelects(s, head, base, s')
    ensures forall v :: Claimed(s', v) <==> Claimed(s, v)
    ensures forall c, v :: Holds(s, c, v) ==> Holds(s', c, v)
    ensures forall c, v :: Holds(s', c, v) ==> Holds(s, c, v) || IsNew(s, head, s', c, v)
  {
    forall c, v | Holds(s', c, v) ensures Holds(s, c, v) || IsNew(s, head, s', c, v) {
      if !Claimed(s, v) {
        var o :| o in s'.outputs && o.head == c && o.version == v;
      }
    }
  }

  ghost predicate IsNew(s: State, head: Sha, s': State, c: Sha, v: Version) {
    s'.current.Some? && !Claimed(s, v) && c == head && v == s'.current.value.version
  }

  lemma SelectionStaysInStep(s: State, f: Version, head: Sha, base: Version, s': State)
    requires AllInStep(s, f) && OnlySelects(s, head, base, s')
    requires s'.current.Some? && !Claimed(s, s'.current.value.version) ==> Fits(s, f, head, s'.current.value.version)
    ensures AllInStep(s', f)
  {
    SelectionHolds(s, head, base, s');
    InStepIsLocal(s, s', f);
  }

  lemma SelectionIsLocal(s: State, head: Sha, base: Version, s': State)
    requires OnlySelects(s, head, base, s')
    ensures SameHistory(s, s') && KeepsClaims(s, s') && (SomeClaim(s') <==> SomeClaim(s))
    ensures forall v :: Claimed(s', v) <==> Claimed(s, v)
  {
    assert forall v :: Claimed(s', v) <==> Claimed(s, v);
    assert WithdrawnTags(s') == WithdrawnTags(s);
  }

  ghost predicate IsGrounded(s: State, f: Version, b: Version, head: Sha, v: Version) {
    if SomeClaim(s) then exists m :: Follows(s, f, head, v, m) else v == b
  }

  lemma OfferIsGrounded(s: State, f: Version, b: Version, head: Sha, base: Version, v: Version, reclaim: Option<Sha>)
    requires Invariant(s, f, b) && OnMain(s, head) && Offers(s, head, base, v, reclaim) && !Claimed(s, v)
    requires SomeClaim(s) || base == b
    ensures IsGrounded(s, f, b, head, v)
  {
    OfferFits(s, f, b, head, base, v, reclaim);
    if SomeClaim(s) {
      var m := NewFollows(s, f, b, head, v);
    }
  }

  lemma SelectionGrounded(s: State, f: Version, b: Version, head: Sha, base: Version, s': State)
    requires Invariant(s, f, b) && OnlySelects(s, head, base, s')
    requires s'.current.Some? && !Claimed(s, s'.current.value.version) ==>
               IsGrounded(s, f, b, head, s'.current.value.version)
    ensures Grounded(s', f, b)
  {
    SelectionIsLocal(s, head, base, s');
    if SomeClaim(s) {
      forall o | o in s'.outputs && !Claimed(s', o.version) && !IsIn(s', o.version, Prerelease) ensures Pending(s', f, o) {
        assert Pending(s, f, o);
        PendingIsLocal(s, s', f, o);
      }
    }
  }

  lemma NewFollows(s: State, f: Version, b: Version, head: Sha, v: Version) returns (m: Version)
    requires Invariant(s, f, b) && SomeClaim(s) && !Claimed(s, v)
    requires Holds(s, head, v) || IsFirst(s, b, v) || exists m :: Follows(s, f, head, v, m)
    ensures Follows(s, f, head, v, m)
  {
    if Holds(s, head, v) {
      m := FollowerOf(s, f, b, head, v);
    } else {
      m :| Follows(s, f, head, v, m);
    }
  }

  lemma SelectionKeepsInvariant(s: State, f: Version, b: Version, head: Sha, base: Version, s': State)
    requires Invariant(s, f, b) && OnlySelects(s, head, base, s') && (SomeClaim(s) || base == b)
    ensures Invariant(s', f, b)
  {
    SelectionKeepsBase(s, head, base, s');
    if s'.current.Some? && !Claimed(s, s'.current.value.version) {
      OfferFits(s, f, b, head, base, s'.current.value.version, s'.current.value.reclaim);
      OfferIsGrounded(s, f, b, head, base, s'.current.value.version, s'.current.value.reclaim);
    }
    SelectionStaysInStep(s, f, head, base, s');
    SelectionGrounded(s, f, b, head, base, s');
    SelectionHolds(s, head, base, s');
  }

  ghost predicate IsSteady(s: State, step: Step, b: Version) {
    && !step.Withdraw? && !step.Redraft?
    && (step.Run? && Parse(step.baseline).Some? && !SomeClaim(s) ==> Parse(step.baseline).value == b)
  }

  lemma StepKeepsInvariant(s: State, step: Step, s': State, f: Version, b: Version)
    requires Invariant(s, f, b) && Takes(s, step, s') && IsSteady(s, step, b)
    ensures Invariant(s', f, b)
  {
    if step.Run? {
      RunOnlySelects(s, step, s');
      SelectionKeepsInvariant(s, f, b, step.head, if Parse(step.baseline).Some? then BaseOf(step) else b, s');
    } else if step.Try? {
      StepKeepsBase(s, step, s');
      AttemptIsLocal(s, step.output, step.progress);
      TouchKeepsInvariant(s, step.output, s', f, b);
    } else {
      GrowthKeepsInvariant(s, step, s', f, b);
    }
  }

  // Where it starts

  lemma {:induction false} Greatest(versions: set<Version>) returns (top: Version)
    requires versions != {}
    ensures top in versions && forall v :: v in versions ==> AtMost(v, top)
    decreases versions
  {
    top :| top in versions;
    if versions != {top} {
      var first, rest := top, versions - {top};
      top := Greatest(rest);
      if Less(top, first) { top := first; }
      forall v | v in versions ensures AtMost(v, top) {
        assert v == first || v in rest;
      }
    }
  }

  lemma SettledIsInvariant(s: State, b: Version) returns (f: Version)
    requires Settled(s)
    ensures Invariant(s, f, b)
  {
    f := b;
    if SomeClaim(s) {
      var claimed := set v | v in s.tags && Claimed(s, v);
      var m :| Claimed(s, m);
      assert m in claimed;
      f := Greatest(claimed);
      assert forall v :: Claimed(s, v) ==> v in claimed;
    }
    ClaimsAreInStep(s, f);
  }

  lemma ClaimsAreInStep(s: State, f: Version)
    requires Settled(s) && forall v :: Claimed(s, v) ==> AtMost(v, f)
    ensures AllInStep(s, f)
  {
    forall c, v, d, w | Holds(s, c, v) && Holds(s, d, w) ensures InStep(s, f, c, v, d, w) {
      assert Claimed(s, v) && Claimed(s, w);
    }
  }

  ghost predicate AreSteady(states: seq<State>, steps: seq<Step>, b: Version) {
    |steps| <= |states| && forall i :: 0 <= i < |steps| ==> IsSteady(states[i], steps[i], b)
  }

  lemma {:induction false} InvariantHolds(states: seq<State>, steps: seq<Step>, b: Version, i: nat) returns (f: Version)
    requires IsExecution(states, steps) && Settled(states[0]) && AreSteady(states, steps, b) && i <= |steps|
    ensures Invariant(states[i], f, b)
  {
    if i == 0 {
      f := SettledIsInvariant(states[0], b);
    } else {
      f := InvariantHolds(states, steps, b, i - 1);
      assert Follow(states, steps, i - 1);
      StepKeepsInvariant(states[i - 1], steps[i - 1], states[i], f, b);
    }
  }

  // As long as no release is withdrawn or returned to draft, the order of the published versions
  // survives any order of runs and any late attempt of any publish job.
  lemma PublishedStaysInOrder(states: seq<State>, steps: seq<Step>, b: Version, i: nat)
    requires IsExecution(states, steps) && Settled(states[0]) && AreSteady(states, steps, b) && i <= |steps|
    ensures PublishedInOrder(states[i])
  {
    var s := states[i];
    var f := InvariantHolds(states, steps, b, i);
    forall u, v | Claimed(s, u) && Claimed(s, v) && Less(u, v) ensures s.tags[u] < s.tags[v] {
      assert Holds(s, s.tags[u], u) && Holds(s, s.tags[v], v);
      assert InStep(s, f, s.tags[u], u, s.tags[v], v);
    }
    OrderedClaimsAreOrderedReleases(s);
  }

  // Then an older checkout publishes nothing after a newer release.
  lemma OlderCheckoutNeverPublishes(states: seq<State>, steps: seq<Step>, b: Version, i: nat, u: Version)
    requires IsExecution(states, steps) && Settled(states[0]) && AreSteady(states, steps, b) && i < |steps|
    requires steps[i].Run? && Claimed(states[i], u) && steps[i].head < states[i].tags[u]
    ensures states[i + 1].current == None
  {
    var s := states[i];
    var f := InvariantHolds(states, steps, b, i);
    assert Follow(states, steps, i);
    RunOnlySelects(s, steps[i], states[i + 1]);
    if states[i + 1].current.Some? {
      var o := states[i + 1].current.value;
      OlderCheckoutIsRefused(s, f, b, steps[i].head, u, BaseOf(steps[i]), o.version, o.reclaim);
    }
  }
}
