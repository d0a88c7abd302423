// What the scans of scripts/check-no-run-interpolation.py yield, told by the text of the workflow.
module ScriptText {
  import opened Text
  import opened WorkflowLines
  import opened RunBodies
  import opened WorkflowSteps
  import opened LinePatterns

  // str.split("\n")
  function SplitLines(text: string): (lines: seq<string>)
    ensures lines != [] && lines[0] <= text
  {
    var n := Find(text, '\n');
    if n == |text| then [text] else [text[..n]] + SplitLines(text[n + 1..])
  }

  // Lines as splitting a text leaves them.
  predicate AreLines(lines: Lines) {
    forall i :: 0 <= i < |lines| ==> '\n' !in lines[i]
  }

  lemma SplitOne(line: string)
    requires '\n' !in line
    ensures SplitLines(line) == [line]
  {
    FindIs(line, '\n', |line|);
  }

  lemma SplitFirst(line: string, rest: string)
    requires '\n' !in line
    ensures SplitLines(line + ("\n" + rest)) == [line] + SplitLines(rest)
  {
    var all := line + ("\n" + rest);
    assert all[..|line|] == line && all[|line| + 1..] == rest;
    FindIs(all, '\n', |line|);
  }

  lemma FirstLineOf(text: string) returns (line: string, rest: string)
    requires Find(text, '\n') < |text|
    ensures '\n' !in line && text == line + ("\n" + rest) && |rest| < |text|
  {
    var n := Find(text, '\n');
    line, rest := text[..n], text[n + 1..];
  }

  lemma Regrouped(a: string, b: string, line: string)
    ensures a + ("\n" + b) + "\n" + line == a + ("\n" + (b + "\n" + line))
  {
  }

  lemma {:induction false} SplitOneMore(text: string, line: string)
    requires '\n' !in line
    ensures SplitLines(text + "\n" + line) == SplitLines(text) + [line]
    decreases |text|
  {
    if Find(text, '\n') == |text| {
      SplitOne(text);
      SplitOne(line);
      SplitFirst(text, line);
      assert text + "\n" + line == text + ("\n" + line);
    } else {
      var first, rest := FirstLineOf(text);
      SplitOneMore(rest, line);
      SplitBehind(first, rest, line);
    }
  }

  lemma SplitBehind(first: string, rest: string, line: string)
    requires '\n' !in first && SplitLines(rest + "\n" + line) == SplitLines(rest) + [line]
    ensures SplitLines(first + ("\n" + rest) + "\n" + line) == SplitLines(first + ("\n" + rest)) + [line]
  {
    SplitFirst(first, rest);
    SplitFirst(first, rest + "\n" + line);
    Regrouped(first, rest, line);
    assert [first] + (SplitLines(rest) + [line]) == [first] + SplitLines(rest) + [line];
  }

  lemma {:induction false} SplitOfJoin(lines: Lines)
    requires lines != [] && AreLines(lines)
    ensures SplitLines(Join(lines)) == lines
  {
    var n := |lines| - 1;
    if n == 0 {
      SplitOne(lines[0]);
    } else {
      SplitOfJoin(lines[..n]);
      JoinOneMore(lines[..n], lines[n]);
      assert lines == lines[..n] + [lines[n]];
    }
  }

  lemma JoinOneMore(lines: Lines, line: string)
    requires lines != [] && SplitLines(Join(lines)) == lines && '\n' !in line
    ensures SplitLines(Join(lines + [line])) == lines + [line]
  {
    SplitOneMore(Join(lines), line);
    assert (lines + [line])[..|lines|] == lines;
  }

  // A text is determined by its lines.
  lemma {:induction false} SplitsOnce(a: string, b: string)
    requires SplitLines(a) == SplitLines(b)
    ensures a == b
    decreases |a|
  {
    if Find(a, '\n') == |a| {
      SplitOne(a);
      if Find(b, '\n') < |b| { SplitsTwice(b); }
    } else if Find(b, '\n') == |b| {
      SplitOne(b);
      SplitsTwice(a);
    } else {
      var first, rest := FirstLineOf(a);
      var first', rest' := FirstLineOf(b);
      SplitFirst(first, rest);
      SplitFirst(first', rest');
      HeadAndTail(first, SplitLines(rest), first', SplitLines(rest'));
      SplitsOnce(rest, rest');
    }
  }

  lemma SplitsTwice(text: string)
    requires Find(text, '\n') < |text|
    ensures |SplitLines(text)| > 1
  {
    var first, rest := FirstLineOf(text);
    SplitFirst(first, rest);
  }

  lemma HeadAndTail(a: string, rest: seq<string>, b: string, rest': seq<string>)
    requires [a] + rest == [b] + rest'
    ensures a == b && rest == rest'
  {
    assert ([a] + rest)[1..] == rest && ([b] + rest')[1..] == rest';
    assert ([a] + rest)[0] == ([b] + rest')[0];
  }

  // A value that announces a block.
  ghost predicate AnnouncesBlock(value: string) {
    exists style, sign, digits, gap ::
      IsSpaces(gap) && value == style + (sign + digits) + gap
      && IsBlockHeader(style + (sign + digits), style, sign, digits)
  }

  ghost predicate IsDeeper(line: string, indent: nat) {
    exists front, rest :: line == front + rest && |front| > indent && IsSpaces(front) && StartsVisibly(rest)
  }

  // Nothing but space, or indented deeper than that.
  ghost predicate BelongsTo(line: string, indent: nat) {
    IsSpaces(line) || IsDeeper(line, indent)
  }

  lemma BelongsExactly(line: string, indent: nat)
    ensures Continues(line, indent) <==> BelongsTo(line, indent)
  {
    IndentExactly(line, Indent(line));
    IndentSplits(line);
    if IsDeeper(line, indent) {
      var front, rest :| line == front + rest && |front| > indent && IsSpaces(front) && StartsVisibly(rest);
      IndentIs(front, rest);
    }
  }

  // The inline part, unless it announces a block, and the lines below, each as it stands.
  ghost predicate IsTextOf(text: string, value: string, below: Lines) {
    if !AnnouncesBlock(value) then SplitLines(text) == [value] + below
    else if below == [] then text == ""
    else SplitLines(text) == below
  }

  // The value of a key on line `start`: it ends in front of the first line that does not belong to it.
  ghost predicate IsValueOf(lines: Lines, start: nat, end: nat, indent: nat, value: string, text: string) {
    && start < end <= |lines|
    && (forall k :: start < k < end ==> BelongsTo(lines[k], indent))
    && (end < |lines| ==> !BelongsTo(lines[end], indent))
    && IsTextOf(text, value, lines[start + 1..end])
  }

  lemma EndExactly(lines: Lines, start: nat, indent: nat, end: nat)
    requires start < end <= |lines|
    ensures IsScalarEnd(lines, start, indent, end)
            <==> (forall k :: start < k < end ==> BelongsTo(lines[k], indent))
                 && (end < |lines| ==> !BelongsTo(lines[end], indent))
  {
    forall k | 0 <= k < |lines| ensures Continues(lines[k], indent) <==> BelongsTo(lines[k], indent) {
      BelongsExactly(lines[k], indent);
    }
  }

  lemma TextExactly(lines: Lines, start: nat, end: nat, value: string, text: string)
    requires start < end <= |lines| && AreLines(lines) && '\n' !in value
    ensures text == BodyText(lines, start, end, value) <==> IsTextOf(text, value, lines[start + 1..end])
  {
    var parts := Collected(lines, start, end, value);
    BlockExactly(value);
    assert parts == if AnnouncesBlock(value) then lines[start + 1..end] else [value] + lines[start + 1..end];
    if parts != [] {
      PartsAreLines(lines, start, end, value);
      SplitOfJoin(parts);
      if SplitLines(text) == parts { SplitsOnce(text, Join(parts)); }
    }
  }

  lemma PartsAreLines(lines: Lines, start: nat, end: nat, value: string)
    requires start < end <= |lines| && AreLines(lines) && '\n' !in value
    ensures AreLines(Collected(lines, start, end, value))
  {
  }

  lemma ValueExactly(lines: Lines, start: nat, end: nat, indent: nat, value: string, text: string)
    requires start < |lines| && AreLines(lines) && '\n' !in value
    ensures IsScalarEnd(lines, start, indent, end) && text == BodyText(lines, start, end, value)
            <==> IsValueOf(lines, start, end, indent, value, text)
  {
    if start < end <= |lines| {
      EndExactly(lines, start, indent, end);
      TextExactly(lines, start, end, value, text);
    }
  }

  // A `run:` script.
  ghost predicate IsScriptText(lines: Lines, body: Body, front: string, dash: string, gap: string, value: string) {
    && body.start < |lines| && IsRunLine(lines[body.start], front, dash, gap, value)
    && IsValueOf(lines, body.start, body.end, |front|, value, body.text)
  }

  lemma ValueIsInLine(line: string, front: string, dash: string, gap: string, value: string)
    requires '\n' !in line && IsRunLine(line, front, dash, gap, value)
    ensures '\n' !in value
  {
    var n := |line| - |value|;
    assert forall i :: 0 <= i < |value| ==> value[i] == line[n + i];
  }

  // The bodies the scan yields are exactly such scripts.
  lemma BodyExactly(lines: Lines, body: Body)
    requires AreLines(lines)
    ensures IsBodyOf(lines, body)
            <==> exists front, dash, gap, value :: IsScriptText(lines, body, front, dash, gap, value)
  {
    if IsBodyOf(lines, body) {
      var front, dash, gap := RunIsThere(lines[body.start]);
      BodyIsScript(lines, body, front, dash, gap, RunKey(lines[body.start]).value.value);
    }
    if front, dash, gap, value :| IsScriptText(lines, body, front, dash, gap, value) {
      RunIsRead(lines[body.start], front, dash, gap, value);
      ValueIsInLine(lines[body.start], front, dash, gap, value);
      ValueExactly(lines, body.start, body.end, |front|, value, body.text);
    }
  }

  lemma BodyIsScript(lines: Lines, body: Body, front: string, dash: string, gap: string, value: string)
    requires AreLines(lines) && IsBodyOf(lines, body) && IsRunLine(lines[body.start], front, dash, gap, value)
    ensures IsScriptText(lines, body, front, dash, gap, value)
  {
    RunIsRead(lines[body.start], front, dash, gap, value);
    ValueIsInLine(lines[body.start], front, dash, gap, value);
    ValueExactly(lines, body.start, body.end, |front|, value, body.text);
  }

  // Every `run:` line in an open block and in no earlier body is yielded with its whole value, and so an inline
  // value that is no block header stands at the front of what is searched for interpolations.
  lemma ScriptIsYielded(lines: Lines, bodies: seq<Body>, i: nat, front: string, dash: string, gap: string, value: string)
    requires AreLines(lines) && IsScan(lines, bodies) && i < |lines| && Open(lines, bodies, i) && !Inside(bodies, i)
    requires IsRunLine(lines[i], front, dash, gap, value)
    ensures exists k :: 0 <= k < |bodies| && bodies[k].start == i
                        && IsScriptText(lines, bodies[k], front, dash, gap, value)
                        && (value == "" || (value[0] != '|' && value[0] != '>') ==> value <= bodies[k].text)
  {
    RunIsRead(lines[i], front, dash, gap, value);
    assert IsScript(lines, bodies, i);
    var k :| 0 <= k < |bodies| && bodies[k].start == i;
    BodyIsScript(lines, bodies[k], front, dash, gap, value);
    InlineIsCollected(lines, bodies[k], front, dash, gap, value);
  }

  lemma InlineIsCollected(lines: Lines, body: Body, front: string, dash: string, gap: string, value: string)
    requires IsScriptText(lines, body, front, dash, gap, value)
    ensures value == "" || (value[0] != '|' && value[0] != '>') ==> value <= body.text
  {
  }

  // A line that stays in a `steps:` block: deeper than its key, or a list item as deep.
  lemma InStepsExactly(line: string, indent: nat)
    ensures InSteps(line, indent)
            <==> IsDeeper(line, indent) || exists front, c, rest :: |front| == indent && IsItemLine(line, front, c, rest)
  {
    IndentSplits(line);
    if IsDeeper(line, indent) {
      var front, rest :| line == front + rest && |front| > indent && IsSpaces(front) && StartsVisibly(rest);
      IndentIs(front, rest);
    }
    if front, c, rest :| |front| == indent && IsItemLine(line, front, c, rest) {
      ItemIs(line, front, c, rest);
    }
    if Indent(line) == indent && IsItem(line) {
      var front, c, rest := ItemSplits(line);
    }
  }

  // The `script:` input of a step that uses the github-script action.
  ghost predicate IsInputText(lines: Lines, span: Span, body: Body, front: string, gap: string, value: string)
    requires span.start < span.end <= |lines|
  {
    && span.start <= body.start < span.end && IsKeyLine(lines[body.start], front, "script:", gap, value)
    && |front| > Indent(lines[span.start])
    && IsValueOf(lines[..span.end], body.start, body.end, |front|, value, body.text)
  }

  ghost predicate UsesTheAction(lines: Lines, span: Span)
    requires span.start < span.end <= |lines|
  {
    exists k :: span.start <= k < span.end && RefersToAction(lines[k])
  }

  ghost predicate RefersToAction(line: string) {
    exists front, dash, key, gap, quote, name, version ::
      IsUse(line, front, dash, key, gap, quote + (name + version))
      && IsReference(quote + (name + version), quote, name, version)
  }

  lemma UsesScriptExactly(lines: Lines, span: Span)
    requires span.start < span.end <= |lines|
    ensures UsesScript(lines, span) <==> UsesTheAction(lines, span)
  {
    forall k | span.start <= k < span.end ensures UsesGithubScript(lines[k]) <==> RefersToAction(lines[k]) {
      UseExactly(lines[k]);
    }
  }

  lemma InputTextExactly(lines: Lines, span: Span, body: Body, front: string, gap: string, value: string)
    requires AreLines(lines) && span.start < span.end <= |lines| && span.start <= body.start < span.end
    requires IsKeyLine(lines[body.start], front, "script:", gap, value) && UsesScript(lines, span)
    ensures IsInputBody(lines, span, body) <==> IsInputText(lines, span, body, front, gap, value)
  {
    KeyIsRead(lines[body.start], front, "script:", gap, value);
    KeyValueIsInLine(lines[body.start], front, gap, value);
    ValueInFront(lines, span.end, body, |front|, value);
  }

  lemma ValueInFront(lines: Lines, n: nat, body: Body, indent: nat, value: string)
    requires AreLines(lines) && body.start < n <= |lines| && '\n' !in value
    ensures IsScalarEnd(lines[..n], body.start, indent, body.end) && body.text == BodyText(lines, body.start, body.end, value)
            <==> IsValueOf(lines[..n], body.start, body.end, indent, value, body.text)
  {
    ValueExactly(lines[..n], body.start, body.end, indent, value, body.text);
    if body.start < body.end <= n { TextInFront(lines, n, body.start, body.end, value); }
  }

  lemma KeyValueIsInLine(line: string, front: string, gap: string, value: string)
    requires '\n' !in line && IsKeyLine(line, front, "script:", gap, value)
    ensures '\n' !in value
  {
    var n := |line| - |value|;
    assert forall i :: 0 <= i < |value| ==> value[i] == line[n + i];
  }

  // The bodies yielded for a step are exactly those inputs.
  lemma InputExactly(lines: Lines, span: Span, body: Body)
    requires AreLines(lines) && span.start < span.end <= |lines|
    ensures IsInputBody(lines, span, body)
            <==> UsesTheAction(lines, span) && exists front, gap, value :: IsInputText(lines, span, body, front, gap, value)
  {
    UsesScriptExactly(lines, span);
    if IsInputBody(lines, span, body) {
      var front, gap := KeyIsThere(lines[body.start], "script:");
      InputTextExactly(lines, span, body, front, gap, ScriptKey(lines[body.start]).value.value);
    }
    if UsesScript(lines, span) {
      if front, gap, value :| IsInputText(lines, span, body, front, gap, value) {
        InputTextExactly(lines, span, body, front, gap, value);
      }
    }
  }
}
