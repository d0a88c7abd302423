// The description of blocks and steps leaves no choice.
module StepUniqueness {
  import opened WorkflowLines
  import opened RunBodies
  import opened WorkflowSteps

  ghost predicate AreCuts(lines: Lines, open: nat, end: nat, a: seq<Span>, b: seq<Span>) {
    end <= |lines| && IsCut(lines, open, end, a) && IsCut(lines, open, end, b)
  }

  lemma BothOrNone(lines: Lines, open: nat, end: nat, a: seq<Span>, b: seq<Span>)
    requires AreCuts(lines, open, end, a, b) && a != []
    ensures b != [] && b[0].start == a[0].start
  {
    assert IsStep(lines, a[0], Indent(lines[a[0].start])) && IsItem(lines[a[0].start]);
    if b != [] {
      assert IsStep(lines, b[0], Indent(lines[b[0].start])) && IsItem(lines[b[0].start]);
    }
  }

  // A step ends where the next item of its indentation is, so no other cut can go past it.
  lemma NextNoEarlier(lines: Lines, open: nat, end: nat, a: seq<Span>, b: seq<Span>, k: nat)
    requires AreCuts(lines, open, end, a, b) && 0 < k < |a| && k <= |b| && a[0].start == b[0].start
    requires a[k - 1].start == b[k - 1].start
    ensures b[k - 1].end <= a[k].start
  {
    var indent := Indent(lines[a[0].start]);
    assert Follows(a, k) && IsStep(lines, a[k - 1], indent) && IsStep(lines, a[k], indent) && IsStep(lines, b[k - 1], indent);
  }

  lemma {:induction false} SameStart(lines: Lines, open: nat, end: nat, a: seq<Span>, b: seq<Span>, k: nat)
    requires AreCuts(lines, open, end, a, b) && k < |a| && k < |b|
    ensures a[k].start == b[k].start
  {
    BothOrNone(lines, open, end, a, b);
    if k > 0 {
      SameStart(lines, open, end, a, b, k - 1);
      NextNoEarlier(lines, open, end, a, b, k);
      NextNoEarlier(lines, open, end, b, a, k);
      assert Follows(a, k) && Follows(b, k);
    }
  }

  lemma StartsBeforeEnd(lines: Lines, open: nat, end: nat, spans: seq<Span>, k: nat)
    requires end <= |lines| && IsCut(lines, open, end, spans) && k < |spans|
    ensures spans[k].start < end
  {
    forall n | 0 <= n < |spans| ensures spans[n].start < spans[n].end {
      assert IsStep(lines, spans[n], Indent(lines[spans[0].start]));
    }
    if k < |spans| - 1 { CutIsOrdered(spans, k, |spans| - 1); }
  }

  lemma NoMore(lines: Lines, open: nat, end: nat, a: seq<Span>, b: seq<Span>)
    requires AreCuts(lines, open, end, a, b)
    ensures |b| <= |a|
  {
    if |a| < |b| {
      if a == [] {
        BothOrNone(lines, open, end, b, a);
      } else {
        var k := |a|;
        BothOrNone(lines, open, end, b, a);
        SameStart(lines, open, end, b, a, k - 1);
        NextNoEarlier(lines, open, end, b, a, k);
        StartsBeforeEnd(lines, open, end, b, k);
      }
    }
  }

  lemma CutIsUnique(lines: Lines, open: nat, end: nat, a: seq<Span>, b: seq<Span>)
    requires AreCuts(lines, open, end, a, b)
    ensures a == b
  {
    NoMore(lines, open, end, a, b);
    NoMore(lines, open, end, b, a);
    forall k | 0 <= k < |a| ensures a[k] == b[k] {
      SameSpan(lines, open, end, a, b, k);
    }
  }

  lemma SameSpan(lines: Lines, open: nat, end: nat, a: seq<Span>, b: seq<Span>, k: nat)
    requires AreCuts(lines, open, end, a, b) && k < |a| == |b|
    ensures a[k] == b[k]
  {
    SameStart(lines, open, end, a, b, k);
    if k < |a| - 1 {
      SameStart(lines, open, end, a, b, k + 1);
      assert Follows(a, k + 1) && Follows(b, k + 1);
    }
  }

  // Blocks

  lemma BlocksOfOneLine(lines: Lines, a: Block, b: Block)
    requires IsCutBlock(lines, a) && IsCutBlock(lines, b) && a.open == b.open
    ensures a == b
  {
    CutIsUnique(lines, a.open, a.end, a.spans, b.spans);
  }

  ghost predicate SameUpTo(a: seq<Block>, b: seq<Block>, k: nat) {
    k <= |a| && k <= |b| && forall l :: 0 <= l < k ==> a[l] == b[l]
  }

  // The next block of one list opens no earlier than that of another that agrees so far.
  lemma OpensNoEarlier(lines: Lines, a: seq<Block>, b: seq<Block>, k: nat)
    requires AreBlocks(lines, a, |lines|) && AreBlocks(lines, b, |lines|) && SameUpTo(a, b, k) && k < |a|
    ensures k < |b| && b[k].open <= a[k].open
  {
    assert IsCutBlock(lines, a[k]);
    var i := a[k].open;
    forall l | 0 <= l < k ensures b[l].end <= i {
      assert a[l] == b[l];
    }
    assert IsCovered(b, i);
    var l :| 0 <= l < |b| && b[l].open <= i < b[l].end;
    if k < l {
      assert IsCutBlock(lines, b[k]);
    }
  }

  lemma {:induction false} SameBlocks(lines: Lines, a: seq<Block>, b: seq<Block>, k: nat)
    requires AreBlocks(lines, a, |lines|) && AreBlocks(lines, b, |lines|) && k <= |a|
    ensures SameUpTo(a, b, k)
  {
    if k > 0 {
      var l := k - 1;
      SameBlocks(lines, a, b, l);
      SameNextBlock(lines, a, b, l);
    }
  }

  lemma SameNextBlock(lines: Lines, a: seq<Block>, b: seq<Block>, l: nat)
    requires AreBlocks(lines, a, |lines|) && AreBlocks(lines, b, |lines|) && SameUpTo(a, b, l) && l < |a|
    ensures l < |b| && a[l] == b[l]
  {
    OpensNoEarlier(lines, a, b, l);
    OpensNoEarlier(lines, b, a, l);
    assert IsCutBlock(lines, a[l]) && IsCutBlock(lines, b[l]);
    BlocksOfOneLine(lines, a[l], b[l]);
  }

  lemma BlocksAreUnique(lines: Lines, a: seq<Block>, b: seq<Block>)
    requires AreBlocks(lines, a, |lines|) && AreBlocks(lines, b, |lines|)
    ensures a == b
  {
    SameBlocks(lines, a, b, |a|);
    SameBlocks(lines, b, a, |b|);
  }

  // There is exactly one list of steps.
  lemma StepListIsUnique(lines: Lines, a: seq<Span>, b: seq<Span>)
    requires IsStepList(lines, a) && IsStepList(lines, b)
    ensures a == b
  {
    var blocks :| AreBlocks(lines, blocks, |lines|) && a == AllSpans(blocks);
    var others :| AreBlocks(lines, others, |lines|) && b == AllSpans(others);
    BlocksAreUnique(lines, blocks, others);
  }
}
