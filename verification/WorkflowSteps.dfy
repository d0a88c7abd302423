// `steps` and `github_script_bodies` of scripts/check-no-run-interpolation.py.
module WorkflowSteps {
  import opened Text
  import opened WorkflowLines
  import opened RunBodies

  // One list item of a `steps:` block.
  datatype Span = Span(start: nat, end: nat)

  datatype Block = Block(open: nat, end: nat, spans: seq<Span>)

  predicate Within(line: string, stepsIndent: nat) {
    IsBlank(line) || InSteps(line, stepsIndent)
  }

  // The block opened on line `open` takes in all lines up to the first that leaves it.
  predicate IsBlock(lines: Lines, open: nat, end: nat) {
    && open < end <= |lines| && StepsKey(lines[open]).Some?
    && (forall k :: open < k < end ==> Within(lines[k], StepsKey(lines[open]).value))
    && (end < |lines| ==> !Within(lines[end], StepsKey(lines[open]).value))
  }

  predicate IsItemAt(line: string, indent: nat) {
    IsItem(line) && Indent(line) == indent
  }

  // The spans cut the block from its first item to its end, at exactly the items of that indentation.
  predicate IsCut(lines: Lines, open: nat, end: nat, spans: seq<Span>)
    requires end <= |lines|
  {
    if spans == [] then forall k :: open < k < end ==> !IsItem(lines[k])
    else
      var first := spans[0].start;
      && open < first < end && (forall k :: open < k < first ==> !IsItem(lines[k]))
      && spans[|spans| - 1].end == end
      && (forall n :: 0 < n < |spans| ==> Follows(spans, n))
      && (forall n :: 0 <= n < |spans| ==> IsStep(lines, spans[n], Indent(lines[first])))
  }

  predicate Follows(spans: seq<Span>, n: nat)
    requires 0 < n < |spans|
  {
    spans[n - 1].end == spans[n].start
  }

  predicate IsStep(lines: Lines, span: Span, indent: nat) {
    && span.start < span.end <= |lines|
    && IsItemAt(lines[span.start], indent)
    && forall k :: span.start < k < span.end ==> !IsItemAt(lines[k], indent)
  }

  predicate IsCutBlock(lines: Lines, block: Block) {
    IsBlock(lines, block.open, block.end) && IsCut(lines, block.open, block.end, block.spans)
  }

  // Every `steps:` key in front of line n opens a block or lies in an earlier one.
  ghost predicate AreBlocks(lines: Lines, blocks: seq<Block>, n: nat) {
    && (forall k :: 0 <= k < |blocks| ==> IsCutBlock(lines, blocks[k]))
    && (forall k, l :: 0 <= k < l < |blocks| ==> blocks[k].end <= blocks[l].open)
    && (forall i :: 0 <= i < n && i < |lines| && StepsKey(lines[i]).Some? ==> IsCovered(blocks, i))
  }

  ghost predicate IsCovered(blocks: seq<Block>, i: int) {
    exists k :: 0 <= k < |blocks| && blocks[k].open <= i < blocks[k].end
  }

  ghost predicate AllBefore(blocks: seq<Block>, n: nat) {
    forall k :: 0 <= k < |blocks| ==> blocks[k].end <= n
  }

  function AllSpans(blocks: seq<Block>): seq<Span> {
    if blocks == [] then [] else AllSpans(blocks[..|blocks| - 1]) + blocks[|blocks| - 1].spans
  }

  // Cutting, line by line

  lemma ExtendLast(lines: Lines, open: nat, i: nat, spans: seq<Span>, start: nat)
    requires i < |lines| && IsCut(lines, open, i, spans + [Span(start, i)])
    requires !IsItemAt(lines[i], Indent(lines[(spans + [Span(start, i)])[0].start]))
    ensures IsCut(lines, open, i + 1, spans + [Span(start, i + 1)])
  {
    var before, after := spans + [Span(start, i)], spans + [Span(start, i + 1)];
    var indent := Indent(lines[before[0].start]);
    assert after[0].start == before[0].start;
    forall n | 0 <= n < |after| ensures IsStep(lines, after[n], indent) {
      assert IsStep(lines, before[n], indent);
      if n < |spans| { assert after[n] == before[n]; }
    }
    forall n | 0 < n < |after| ensures Follows(after, n) {
      assert Follows(before, n);
    }
  }

  lemma NextItem(lines: Lines, open: nat, i: nat, spans: seq<Span>, start: nat)
    requires i < |lines| && IsCut(lines, open, i, spans + [Span(start, i)])
    requires IsItemAt(lines[i], Indent(lines[(spans + [Span(start, i)])[0].start]))
    ensures IsCut(lines, open, i + 1, spans + [Span(start, i)] + [Span(i, i + 1)])
  {
    var before := spans + [Span(start, i)];
    var after := before + [Span(i, i + 1)];
    var indent := Indent(lines[before[0].start]);
    assert after[0] == before[0];
    forall n | 0 <= n < |after| ensures IsStep(lines, after[n], indent) {
      if n < |before| { assert after[n] == before[n] && IsStep(lines, before[n], indent); }
    }
    forall n | 0 < n < |after| ensures Follows(after, n) {
      if n < |before| { assert Follows(before, n); }
    }
  }

  // The scanner's state in front of line i of the block.
  ghost predicate Cutting(lines: Lines, open: nat, i: nat, spans: seq<Span>, start: Option<nat>, itemIndent: Option<nat>)
    requires i <= |lines|
  {
    match start
    case None => itemIndent.None? && spans == [] && IsCut(lines, open, i, [])
    case Some(first) =>
      var all := spans + [Span(first, i)];
      IsCut(lines, open, i, all) && itemIndent == Some(Indent(lines[all[0].start]))
  }

  predicate StartsStep(line: string, itemIndent: Option<nat>) {
    IsItem(line) && (itemIndent.None? || Indent(line) == itemIndent.value)
  }

  lemma AtItem(lines: Lines, open: nat, i: nat, spans: seq<Span>, start: Option<nat>, itemIndent: Option<nat>)
    requires open < i < |lines| && Cutting(lines, open, i, spans, start, itemIndent) && StartsStep(lines[i], itemIndent)
    ensures Cutting(lines, open, i + 1, if start.Some? then spans + [Span(start.value, i)] else spans, Some(i),
                    Some(Indent(lines[i])))
  {
    if start.Some? {
      NextItem(lines, open, i, spans, start.value);
      assert (spans + [Span(start.value, i)] + [Span(i, i + 1)])[0] == (spans + [Span(start.value, i)])[0];
    }
  }

  lemma AtOtherLine(lines: Lines, open: nat, i: nat, spans: seq<Span>, start: Option<nat>, itemIndent: Option<nat>)
    requires open < i < |lines| && Cutting(lines, open, i, spans, start, itemIndent) && !StartsStep(lines[i], itemIndent)
    ensures Cutting(lines, open, i + 1, spans, start, itemIndent)
  {
    if start.Some? {
      ExtendLast(lines, open, i, spans, start.value);
      assert (spans + [Span(start.value, i)])[0].start == (spans + [Span(start.value, i + 1)])[0].start;
    }
  }

  lemma CutIsDone(lines: Lines, open: nat, i: nat, spans: seq<Span>, start: Option<nat>, itemIndent: Option<nat>,
                  all: seq<Span>)
    requires i <= |lines| && Cutting(lines, open, i, spans, start, itemIndent)
    requires all == if start.Some? then spans + [Span(start.value, i)] else spans
    ensures IsCut(lines, open, i, all)
  {
  }

  ghost predicate StaysWithin(lines: Lines, open: nat, i: nat, stepsIndent: nat)
    requires i <= |lines|
  {
    forall k :: open < k < i ==> Within(lines[k], stepsIndent)
  }

  lemma OneMoreWithin(lines: Lines, open: nat, i: nat, stepsIndent: nat)
    requires i < |lines| && StaysWithin(lines, open, i, stepsIndent) && Within(lines[i], stepsIndent)
    ensures StaysWithin(lines, open, i + 1, stepsIndent)
  {
  }

  lemma NothingCutYet(lines: Lines, open: nat)
    requires open < |lines|
    ensures Cutting(lines, open, open + 1, [], None, None)
  {
  }

  lemma BlockIsDone(lines: Lines, open: nat, i: nat)
    requires open < i <= |lines| && StepsKey(lines[open]).Some? && StaysWithin(lines, open, i, StepsKey(lines[open]).value)
    requires i < |lines| ==> !Within(lines[i], StepsKey(lines[open]).value)
    ensures IsBlock(lines, open, i)
  {
  }

  // One line of the block: an item of the right indentation ends the step before it and starts one.
  method CutLine(lines: Lines, open: nat, i: nat, spans: seq<Span>, start: Option<nat>, itemIndent: Option<nat>)
    returns (spans': seq<Span>, start': Option<nat>, itemIndent': Option<nat>)
    requires open < i < |lines| && Cutting(lines, open, i, spans, start, itemIndent)
    ensures Cutting(lines, open, i + 1, spans', start', itemIndent')
  {
    if StartsStep(lines[i], itemIndent) {
      AtItem(lines, open, i, spans, start, itemIndent);
      return if start.Some? then spans + [Span(start.value, i)] else spans, Some(i), Some(Indent(lines[i]));
    }
    AtOtherLine(lines, open, i, spans, start, itemIndent);
    return spans, start, itemIndent;
  }

  method CutLines(lines: Lines, open: nat, stepsIndent: nat) returns (spans: seq<Span>, end: nat)
    requires open < |lines|
    ensures open < end <= |lines| && StaysWithin(lines, open, end, stepsIndent)
    ensures end < |lines| ==> !Within(lines[end], stepsIndent)
    ensures IsCut(lines, open, end, spans)
  {
    var itemIndent: Option<nat> := None;
    var start: Option<nat> := None;
    spans := [];
    var i := open + 1;
    NothingCutYet(lines, open);
    while i < |lines|
      invariant open < i <= |lines|
      invariant StaysWithin(lines, open, i, stepsIndent)
      invariant Cutting(lines, open, i, spans, start, itemIndent)
    {
      var line := lines[i];
      if !Within(line, stepsIndent) { break; }
      OneMoreWithin(lines, open, i, stepsIndent);
      spans, start, itemIndent := CutLine(lines, open, i, spans, start, itemIndent);
      i := i + 1;
    }
    ghost var before := spans;
    if start.Some? {
      spans := spans + [Span(start.value, i)];
    }
    CutIsDone(lines, open, i, before, start, itemIndent, spans);
    end := i;
  }

  method CutBlock(lines: Lines, open: nat) returns (spans: seq<Span>, end: nat)
    requires open < |lines| && StepsKey(lines[open]).Some?
    ensures IsBlock(lines, open, end) && IsCut(lines, open, end, spans)
  {
    spans, end := CutLines(lines, open, StepsKey(lines[open]).value);
    BlockIsDone(lines, open, end);
  }

  lemma CoveredStill(blocks: seq<Block>, block: Block, i: int)
    requires IsCovered(blocks, i) || block.open <= i < block.end
    ensures IsCovered(blocks + [block], i)
  {
    var longer := blocks + [block];
    if IsCovered(blocks, i) {
      var k :| 0 <= k < |blocks| && blocks[k].open <= i < blocks[k].end;
      assert longer[k] == blocks[k];
    } else {
      assert longer[|blocks|] == block;
    }
  }

  lemma OneMoreBlock(lines: Lines, blocks: seq<Block>, block: Block)
    requires AreBlocks(lines, blocks, block.open) && AllBefore(blocks, block.open)
    requires IsCutBlock(lines, block) && block.open < block.end
    ensures AreBlocks(lines, blocks + [block], block.end) && AllBefore(blocks + [block], block.end)
    ensures AllSpans(blocks + [block]) == AllSpans(blocks) + block.spans
  {
    var longer := blocks + [block];
    assert longer[..|blocks|] == blocks;
    forall k | 0 <= k < |longer| ensures IsCutBlock(lines, longer[k]) {
      assert longer[k] == if k < |blocks| then blocks[k] else block;
    }
    forall k, l | 0 <= k < l < |longer| ensures longer[k].end <= longer[l].open {
      assert longer[k] == blocks[k] && longer[l] == if l < |blocks| then blocks[l] else block;
    }
    CoveredTo(lines, blocks, block);
  }

  lemma CoveredTo(lines: Lines, blocks: seq<Block>, block: Block)
    requires forall i :: 0 <= i < block.open && i < |lines| && StepsKey(lines[i]).Some? ==> IsCovered(blocks, i)
    ensures forall i :: 0 <= i < block.end && i < |lines| && StepsKey(lines[i]).Some? ==> IsCovered(blocks + [block], i)
  {
    forall i | 0 <= i < block.end && i < |lines| && StepsKey(lines[i]).Some? ensures IsCovered(blocks + [block], i) {
      CoveredStill(blocks, block, i);
    }
  }

  lemma NoBlockHere(lines: Lines, blocks: seq<Block>, i: nat)
    requires AreBlocks(lines, blocks, i) && i < |lines| && StepsKey(lines[i]).None?
    ensures AreBlocks(lines, blocks, i + 1)
  {
  }

  // The steps of all blocks of the workflow.
  ghost predicate IsStepList(lines: Lines, spans: seq<Span>) {
    exists blocks :: AreBlocks(lines, blocks, |lines|) && spans == AllSpans(blocks)
  }

  method Steps(lines: Lines) returns (spans: seq<Span>)
    ensures IsStepList(lines, spans)
  {
    spans := [];
    ghost var blocks: seq<Block> := [];
    var i := 0;
    while i < |lines|
      invariant 0 <= i <= |lines|
      invariant AreBlocks(lines, blocks, i) && AllBefore(blocks, i) && spans == AllSpans(blocks)
    {
      if StepsKey(lines[i]).None? {
        NoBlockHere(lines, blocks, i);
        i := i + 1;
        continue;
      }
      var cut, end := CutBlock(lines, i);
      OneMoreBlock(lines, blocks, Block(i, end, cut));
      spans := spans + cut;
      blocks := blocks + [Block(i, end, cut)];
      i := end;
    }
  }

  // What a caller may rely on: steps are in order, none overlap, each starts on a list item, and no
  // line further into a step is an item of the same indentation.
  ghost predicate AreSteps(lines: Lines, spans: seq<Span>, n: nat) {
    && (forall k :: 0 <= k < |spans| ==>
          spans[k].start < |lines| && IsStep(lines, spans[k], Indent(lines[spans[k].start])) && spans[k].end <= n)
    && (forall k, l :: 0 <= k < l < |spans| ==> spans[k].end <= spans[l].start)
  }

  lemma {:induction false} CutIsOrdered(spans: seq<Span>, k: nat, l: nat)
    requires k < l < |spans| && (forall n :: 0 < n < |spans| ==> Follows(spans, n))
    requires forall n :: 0 <= n < |spans| ==> spans[n].start < spans[n].end
    ensures spans[k].end <= spans[l].start
    decreases l - k
  {
    assert Follows(spans, l);
    if k < l - 1 { CutIsOrdered(spans, k, l - 1); }
  }

  lemma CutIsSteps(lines: Lines, open: nat, end: nat, spans: seq<Span>)
    requires end <= |lines| && IsCut(lines, open, end, spans)
    ensures AreSteps(lines, spans, end)
    ensures forall k :: 0 <= k < |spans| ==> open < spans[k].start
  {
    if spans != [] {
      var indent := Indent(lines[spans[0].start]);
      forall k | 0 <= k < |spans|
        ensures IsStep(lines, spans[k], Indent(lines[spans[k].start])) && spans[k].end <= end && open < spans[k].start
      {
        assert IsStep(lines, spans[k], indent);
        if k < |spans| - 1 { CutIsOrdered(spans, k, |spans| - 1); assert IsStep(lines, spans[|spans| - 1], indent); }
        if 0 < k { CutIsOrdered(spans, 0, k); assert IsStep(lines, spans[0], indent); }
      }
      forall k, l | 0 <= k < l < |spans| ensures spans[k].end <= spans[l].start {
        CutIsOrdered(spans, k, l);
      }
    }
  }

  lemma AppendSteps(lines: Lines, a: seq<Span>, b: seq<Span>, open: nat, n: nat)
    requires AreSteps(lines, a, open) && AreSteps(lines, b, n) && open <= n
    requires forall k :: 0 <= k < |b| ==> open < b[k].start
    ensures AreSteps(lines, a + b, n)
  {
    var all := a + b;
    forall k | 0 <= k < |all|
      ensures all[k].start < |lines| && IsStep(lines, all[k], Indent(lines[all[k].start])) && all[k].end <= n
    {
      assert all[k] == if k < |a| then a[k] else b[k - |a|];
    }
    forall k, l | 0 <= k < l < |all| ensures all[k].end <= all[l].start {
      assert all[k] == if k < |a| then a[k] else b[k - |a|];
      assert all[l] == if l < |a| then a[l] else b[l - |a|];
    }
  }

  lemma {:induction false} BlocksAreSteps(lines: Lines, blocks: seq<Block>, n: nat)
    requires AreBlocks(lines, blocks, 0) && n <= |lines| && AllBefore(blocks, n)
    ensures AreSteps(lines, AllSpans(blocks), n)
  {
    if blocks != [] {
      var m := |blocks| - 1;
      var last := blocks[m];
      assert forall k :: 0 <= k < m ==> blocks[..m][k] == blocks[k];
      BlocksAreSteps(lines, blocks[..m], last.open);
      CutIsSteps(lines, last.open, last.end, last.spans);
      AppendSteps(lines, AllSpans(blocks[..m]), last.spans, last.open, n);
    }
  }

  lemma ListIsSteps(lines: Lines, spans: seq<Span>)
    requires IsStepList(lines, spans)
    ensures AreSteps(lines, spans, |lines|)
  {
    var blocks: seq<Block> :| AreBlocks(lines, blocks, |lines|) && spans == AllSpans(blocks);
    forall k | 0 <= k < |blocks| ensures blocks[k].end <= |lines| {
      assert IsCutBlock(lines, blocks[k]);
    }
    BlocksAreSteps(lines, blocks, |lines|);
  }

  // github-script bodies

  predicate UsesScript(lines: Lines, span: Span)
    requires span.start <= span.end <= |lines|
  {
    exists k :: span.start <= k < span.end && UsesGithubScript(lines[k])
  }

  // Line i is the `script:` input of the step.
  predicate IsInput(lines: Lines, span: Span, i: nat)
    requires span.start < span.end <= |lines|
  {
    && span.start <= i < span.end && UsesScript(lines, span)
    && ScriptKey(lines[i]).Some? && ScriptKey(lines[i]).value.indent > Indent(lines[span.start])
  }

  // The value of the input, cut off where the step ends.
  predicate IsInputBody(lines: Lines, span: Span, body: Body)
    requires span.start < span.end <= |lines|
  {
    && IsInput(lines, span, body.start)
    && IsScalarEnd(lines[..span.end], body.start, ScriptKey(lines[body.start]).value.indent, body.end)
    && body.text == BodyText(lines, body.start, body.end, ScriptKey(lines[body.start]).value.value)
  }

  predicate StartsAt(bodies: seq<Body>, i: nat) {
    exists k :: 0 <= k < |bodies| && bodies[k].start == i
  }

  // The inputs in front of line n, in order.
  ghost predicate AreInputs(lines: Lines, span: Span, bodies: seq<Body>, n: nat)
    requires span.start < span.end <= |lines|
  {
    && (forall k :: 0 <= k < |bodies| ==> IsInputBody(lines, span, bodies[k]) && bodies[k].start < n)
    && (forall k, l :: 0 <= k < l < |bodies| ==> bodies[k].start < bodies[l].start)
    && (forall i :: span.start <= i < n && IsInput(lines, span, i) ==> StartsAt(bodies, i))
  }

  lemma InOrderWith(bodies: seq<Body>, body: Body)
    requires forall k :: 0 <= k < |bodies| ==> bodies[k].start < body.start
    requires forall k, l :: 0 <= k < l < |bodies| ==> bodies[k].start < bodies[l].start
    ensures forall k, l :: 0 <= k < l < |bodies + [body]| ==> (bodies + [body])[k].start < (bodies + [body])[l].start
  {
  }

  lemma OneMoreInput(lines: Lines, span: Span, bodies: seq<Body>, body: Body)
    requires span.start < span.end <= |lines| && AreInputs(lines, span, bodies, body.start) && IsInputBody(lines, span, body)
    ensures AreInputs(lines, span, bodies + [body], body.start + 1)
  {
    var longer := bodies + [body];
    assert longer[|bodies|] == body;
    InOrderWith(bodies, body);
    forall i | span.start <= i < body.start + 1 && IsInput(lines, span, i)
      ensures StartsAt(longer, i)
    {
      StartIsKept(bodies, body, i);
    }
  }

  lemma StartIsKept(bodies: seq<Body>, body: Body, i: nat)
    requires i == body.start || StartsAt(bodies, i)
    ensures StartsAt(bodies + [body], i)
  {
    var longer := bodies + [body];
    if i == body.start {
      assert longer[|bodies|].start == i;
    } else {
      var k :| 0 <= k < |bodies| && bodies[k].start == i;
      assert longer[k].start == i;
    }
  }

  method InputBody(lines: Lines, span: Span, i: nat) returns (body: Body)
    requires span.start < span.end <= |lines| && IsInput(lines, span, i)
    ensures IsInputBody(lines, span, body) && body.start == i
  {
    var key := ScriptKey(lines[i]).value;
    var step := lines[..span.end];
    var text, next := ScalarBody(step, i, key.indent, key.value);
    TextInFront(lines, span.end, i, next, key.value);
    body := Body(i, next, text);
  }

  lemma TextInFront(lines: Lines, n: nat, i: nat, next: nat, value: string)
    requires i < next <= n <= |lines|
    ensures BodyText(lines[..n], i, next, value) == BodyText(lines, i, next, value)
  {
    assert lines[..n][i + 1..next] == lines[i + 1..next];
  }

  lemma NoInputHere(lines: Lines, span: Span, bodies: seq<Body>, i: nat)
    requires span.start < span.end <= |lines| && AreInputs(lines, span, bodies, i) && !IsInput(lines, span, i)
    ensures AreInputs(lines, span, bodies, i + 1)
  {
  }

  method StepBodies(lines: Lines, span: Span) returns (bodies: seq<Body>)
    requires span.start < |lines| && IsStep(lines, span, Indent(lines[span.start]))
    ensures AreInputs(lines, span, bodies, span.end)
  {
    bodies := [];
    if !UsesScript(lines, span) {
      assert forall i :: !IsInput(lines, span, i);
      return;
    }
    var itemIndent := Indent(lines[span.start]);
    for i := span.start to span.end
      invariant AreInputs(lines, span, bodies, i)
    {
      var key := ScriptKey(lines[i]);
      if key.Some? && key.value.indent > itemIndent {
        var body := InputBody(lines, span, i);
        OneMoreInput(lines, span, bodies, body);
        bodies := bodies + [body];
      } else {
        NoInputHere(lines, span, bodies, i);
      }
    }
  }

  lemma InputsStayInStep(lines: Lines, span: Span, bodies: seq<Body>)
    requires span.start < span.end <= |lines| && AreInputs(lines, span, bodies, span.end)
    ensures forall k :: 0 <= k < |bodies| ==> span.start <= bodies[k].start < bodies[k].end <= span.end
  {
    forall k | 0 <= k < |bodies| ensures span.start <= bodies[k].start < bodies[k].end <= span.end {
      assert IsInputBody(lines, span, bodies[k]);
    }
  }

  // Every `script:` input of every github-script step is yielded, and none reaches into another step.
  method GithubScriptBodies(lines: Lines) returns (bodies: seq<seq<Body>>, spans: seq<Span>)
    ensures IsStepList(lines, spans) && AreSteps(lines, spans, |lines|) && |bodies| == |spans|
    ensures forall n :: 0 <= n < |spans| ==> spans[n].start < spans[n].end <= |lines|
                                             && AreInputs(lines, spans[n], bodies[n], spans[n].end)
    ensures forall n, k :: 0 <= n < |spans| && 0 <= k < |bodies[n]| ==>
              spans[n].start <= bodies[n][k].start < bodies[n][k].end <= spans[n].end
  {
    spans := Steps(lines);
    ListIsSteps(lines, spans);
    bodies := [];
    for n := 0 to |spans|
      invariant |bodies| == n
      invariant forall m :: 0 <= m < n ==> spans[m].start < spans[m].end <= |lines|
                                           && AreInputs(lines, spans[m], bodies[m], spans[m].end)
    {
      var found := StepBodies(lines, spans[n]);
      bodies := bodies + [found];
    }
    forall n | 0 <= n < |spans| ensures forall k :: 0 <= k < |bodies[n]| ==>
              spans[n].start <= bodies[n][k].start < bodies[n][k].end <= spans[n].end {
      InputsStayInStep(lines, spans[n], bodies[n]);
    }
  }
}
