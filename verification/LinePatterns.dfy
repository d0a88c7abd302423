// The line patterns of scripts/check-no-run-interpolation.py, each told by the lines it takes, and what the
// scans find, told by the text of the workflow.
module LinePatterns {
  import opened Text
  import opened WorkflowLines
  import SemVer

  // White space is what Python's str.isspace() takes for it.
  lemma SpaceExactly(c: char)
    ensures IsSpace(c) <==>
            c in {'\t', '\n', '\U{b}', '\U{c}', '\r', '\U{1c}', '\U{1d}', '\U{1e}', '\U{1f}', ' ', '\U{85}', '\U{a0}',
                  '\U{1680}', '\U{2000}', '\U{2001}', '\U{2002}', '\U{2003}', '\U{2004}', '\U{2005}', '\U{2006}',
                  '\U{2007}', '\U{2008}', '\U{2009}', '\U{200a}', '\U{2028}', '\U{2029}', '\U{202f}', '\U{205f}', '\U{3000}'}
  {
  }

  predicate IsSpaces(s: string) {
    forall i :: 0 <= i < |s| ==> IsSpace(s[i])
  }

  // Empty, or starting with something to see.
  predicate StartsVisibly(s: string) {
    s == "" || !IsSpace(s[0])
  }

  lemma Regroup(a: string, b: string, c: string, d: string)
    ensures a + b + c + d == a + (b + c + d) && b + c + d == b + (c + d) && a + b + c == a + (b + c)
  {
  }

  // Indentation

  lemma {:induction false} IndentIs(front: string, rest: string)
    requires IsSpaces(front) && StartsVisibly(rest)
    ensures Indent(front + rest) == |front| && Strip(front + rest) == rest
  {
    if front == "" {
      assert front + rest == rest;
    } else {
      assert (front + rest)[1..] == front[1..] + rest;
      IndentIs(front[1..], rest);
    }
  }

  lemma {:induction false} IndentSplits(line: string)
    ensures IsSpaces(line[..Indent(line)]) && StartsVisibly(Strip(line))
    ensures line == line[..Indent(line)] + Strip(line)
  {
    if line != "" {
      if IsSpace(line[0]) {
        IndentSplits(line[1..]);
        assert line[..Indent(line)] == [line[0]] + line[1..][..Indent(line[1..])];
        assert Strip(line) == Strip(line[1..]);
      }
    }
  }

  lemma IndentExactly(line: string, n: nat)
    ensures Indent(line) == n
            <==> exists front, rest :: line == front + rest && |front| == n && IsSpaces(front) && StartsVisibly(rest)
    ensures IsBlank(line) <==> IsSpaces(line)
  {
    IndentSplits(line);
    if front, rest :| line == front + rest && |front| == n && IsSpaces(front) && StartsVisibly(rest) {
      IndentIs(front, rest);
    }
    if IsSpaces(line) {
      IndentIs(line, "");
      assert line + "" == line;
    }
    assert IsBlank(line) ==> line[..Indent(line)] == line;
  }

  // Keys

  // Some indentation, the key, and its value after any space.
  predicate IsKeyLine(line: string, front: string, word: string, gap: string, value: string) {
    line == front + word + gap + value && IsSpaces(front) && IsSpaces(gap) && StartsVisibly(value)
  }

  lemma KeyIsRead(line: string, front: string, word: string, gap: string, value: string)
    requires word != "" && StartsVisibly(word) && IsKeyLine(line, front, word, gap, value)
    ensures Strip(line) == word + gap + value && KeyLine(line, word) == Some(Key(|front|, value))
  {
    Regroup(front, word, gap, value);
    IndentIs(front, word + gap + value);
    IndentIs(gap, value);
    WordIsRead(line, front, word, gap + value);
  }

  lemma WordIsRead(line: string, front: string, word: string, after: string)
    requires Strip(line) == word + after && Indent(line) == |front|
    ensures KeyLine(line, word) == Some(Key(|front|, Strip(after)))
  {
    assert Strip(line)[|word|..] == after;
  }

  lemma KeyIsThere(line: string, word: string) returns (front: string, gap: string)
    requires KeyLine(line, word).Some?
    ensures var key := KeyLine(line, word).value;
            |front| == key.indent && IsKeyLine(line, front, word, gap, key.value)
            && Strip(line) == word + gap + key.value
  {
    var after := Strip(line)[|word|..];
    assert Strip(line) == word + after;
    front, gap := line[..Indent(line)], after[..Indent(after)];
    IndentSplits(line);
    IndentSplits(after);
    Regroup(front, word, gap, Strip(after));
  }

  // A key line is read as its indentation and value, and a line of any other form as none.
  lemma KeyExactly(line: string, word: string, indent: nat, value: string)
    requires word != "" && StartsVisibly(word)
    ensures KeyLine(line, word) == Some(Key(indent, value))
            <==> exists front, gap :: |front| == indent && IsKeyLine(line, front, word, gap, value)
  {
    if KeyLine(line, word) == Some(Key(indent, value)) {
      var front, gap := KeyIsThere(line, word);
    }
    if front, gap :| |front| == indent && IsKeyLine(line, front, word, gap, value) {
      KeyIsRead(line, front, word, gap, value);
    }
  }

  lemma ScriptExactly(line: string, indent: nat, value: string)
    ensures ScriptKey(line) == Some(Key(indent, value))
            <==> exists front, gap :: |front| == indent && IsKeyLine(line, front, "script:", gap, value)
  {
    KeyExactly(line, "script:", indent, value);
  }

  lemma StepsExactly(line: string, indent: nat)
    ensures StepsKey(line) == Some(indent)
            <==> exists front, gap :: |front| == indent && IsKeyLine(line, front, "steps:", gap, "")
  {
    KeyExactly(line, "steps:", indent, "");
  }

  // List items

  predicate IsItemLine(line: string, front: string, c: char, rest: string) {
    line == front + "-" + [c] + rest && IsSpaces(front) && IsSpace(c)
  }

  lemma ItemIs(line: string, front: string, c: char, rest: string)
    requires IsItemLine(line, front, c, rest)
    ensures IsItem(line) && Indent(line) == |front| && Strip(line)[1..] == [c] + rest
  {
    assert line == front + ("-" + [c] + rest);
    IndentIs(front, "-" + [c] + rest);
  }

  lemma ItemSplits(line: string) returns (front: string, c: char, rest: string)
    requires IsItem(line)
    ensures IsItemLine(line, front, c, rest) && |front| == Indent(line) && Strip(line)[1..] == [c] + rest
  {
    var shown := Strip(line);
    front, c, rest := line[..Indent(line)], shown[1], shown[2..];
    IndentSplits(line);
    assert shown == "-" + [c] + rest;
    assert line == front + shown;
  }

  lemma ItemExactly(line: string)
    ensures IsItem(line) <==> exists front, c, rest :: IsItemLine(line, front, c, rest)
  {
    if IsItem(line) {
      var front, c, rest := ItemSplits(line);
    }
    if front, c, rest :| IsItemLine(line, front, c, rest) {
      ItemIs(line, front, c, rest);
    }
  }

  // The dash of a list item and the space after it, or nothing.
  predicate IsDash(dash: string) {
    dash == "" || (|dash| >= 2 && dash[0] == '-' && IsSpaces(dash[1..]))
  }

  // The part of a line behind the dash of a list item, if there is one.
  predicate IsEntry(line: string, front: string, dash: string, rest: string) {
    line == front + dash + rest && IsSpaces(front) && IsDash(dash) && StartsVisibly(rest)
  }

  lemma DashIsItem(line: string, front: string, dash: string, rest: string)
    requires IsEntry(line, front, dash, rest) && dash != ""
    ensures IsItem(line) && Indent(line) == |front| && Strip(line)[1..] == dash[1..] + rest
  {
    var c, more := dash[1], dash[2..] + rest;
    assert dash == "-" + [c] + dash[2..];
    assert IsSpace(dash[1..][0]);
    assert line == front + "-" + [c] + more;
    ItemIs(line, front, c, more);
    assert [c] + more == dash[1..] + rest;
  }

  lemma NoDashIsNoItem(line: string, front: string, rest: string)
    requires IsEntry(line, front, "", rest) && (rest == "" || rest[0] != '-')
    ensures !IsItem(line) && Indent(line) == |front| && Strip(line) == rest
  {
    assert line == front + rest;
    IndentIs(front, rest);
  }

  lemma EntrySplits(line: string) returns (front: string, dash: string, rest: string)
    ensures IsEntry(line, front, dash, rest) && |front| == Indent(line) && (dash != "" <==> IsItem(line))
    ensures rest == if IsItem(line) then Strip(Strip(line)[1..]) else Strip(line)
  {
    front := line[..Indent(line)];
    IndentSplits(line);
    if IsItem(line) {
      dash, rest := DashSplits(Strip(line));
      Regroup(front, dash, rest, "");
    } else {
      dash, rest := "", Strip(line);
      Regroup(front, dash, rest, "");
    }
  }

  lemma DashSplits(shown: string) returns (dash: string, rest: string)
    requires |shown| >= 2 && shown[0] == '-' && IsSpace(shown[1])
    ensures shown == dash + rest && dash != "" && IsDash(dash) && StartsVisibly(rest) && rest == Strip(shown[1..])
  {
    var after := shown[1..];
    IndentSplits(after);
    assert Indent(after) > 0;
    dash, rest := "-" + after[..Indent(after)], Strip(after);
    assert dash[1..] == after[..Indent(after)];
    Regroup("-", after[..Indent(after)], rest, "");
  }

  // A `run:` line, with or without a dash.
  predicate IsRunLine(line: string, front: string, dash: string, gap: string, value: string) {
    && line == front + dash + ("run:" + gap + value)
    && IsSpaces(front) && IsDash(dash) && IsSpaces(gap) && StartsVisibly(value)
  }

  lemma RunIsRead(line: string, front: string, dash: string, gap: string, value: string)
    requires IsRunLine(line, front, dash, gap, value)
    ensures RunKey(line) == Some(Key(|front|, value))
  {
    if dash == "" {
      NoDashIsNoItem(line, front, "run:" + gap + value);
      Regroup(front, "run:", gap, value);
      KeyIsRead(line, front, "run:", gap, value);
    } else {
      DashIsItem(line, front, dash, "run:" + gap + value);
      Regroup(dash[1..], "run:", gap, value);
      KeyIsRead(Strip(line)[1..], dash[1..], "run:", gap, value);
    }
  }

  lemma RunIsThere(line: string) returns (front: string, dash: string, gap: string)
    requires RunKey(line).Some?
    ensures |front| == RunKey(line).value.indent && IsRunLine(line, front, dash, gap, RunKey(line).value.value)
  {
    var rest;
    front, dash, rest := EntrySplits(line);
    var space;
    space, gap := KeyIsThere(if IsItem(line) then Strip(line)[1..] else line, "run:");
  }

  lemma RunExactly(line: string, indent: nat, value: string)
    ensures RunKey(line) == Some(Key(indent, value))
            <==> exists front, dash, gap :: |front| == indent && IsRunLine(line, front, dash, gap, value)
  {
    if RunKey(line) == Some(Key(indent, value)) {
      var front, dash, gap := RunIsThere(line);
    }
    if front, dash, gap :| |front| == indent && IsRunLine(line, front, dash, gap, value) {
      RunIsRead(line, front, dash, gap, value);
    }
  }

  // The use of the github-script action

  // The letters Python's `re.IGNORECASE` takes for a character of a pattern in small letters.
  predicate IsLike(c: char, w: char) {
    || c == w
    || ('a' <= w <= 'z' && c as int == w as int - 32)
    || (w == 'i' && (c == '\U{130}' || c == '\U{131}')) || (w == 's' && c == '\U{17f}') || (w == 'k' && c == '\U{212a}')
  }

  predicate ReadsAs(s: string, word: string) {
    |s| == |word| && forall i :: 0 <= i < |s| ==> IsLike(s[i], word[i])
  }

  predicate IsSmall(word: string) {
    forall i :: 0 <= i < |word| ==> word[i] < 128 as char && !('A' <= word[i] <= 'Z')
  }

  lemma LowerExactly(c: char, w: char)
    requires w < 128 as char && !('A' <= w <= 'Z')
    ensures Lower(c) == w <==> IsLike(c, w)
  {
  }

  lemma PrefixReadsAs(s: string, word: string)
    requires IsSmall(word)
    ensures StartsWith(LowerCase(s), word) <==> |word| <= |s| && ReadsAs(s[..|word|], word)
  {
    forall i | 0 <= i < |word| && i < |s| ensures LowerCase(s)[i] == word[i] <==> IsLike(s[i], word[i]) {
      LowerExactly(s[i], word[i]);
    }
    if |word| <= |s| && ReadsAs(s[..|word|], word) {
      forall i | 0 <= i < |word| ensures LowerCase(s)[i] == word[i] {
        assert IsLike(s[..|word|][i], word[i]);
      }
    }
    if StartsWith(LowerCase(s), word) {
      forall i | 0 <= i < |word| ensures IsLike(s[..|word|][i], word[i]) {
        assert LowerCase(s)[i] == word[i];
      }
    }
  }

  predicate IsQuote(quote: string) {
    quote == "" || quote == "'" || quote == "\""
  }

  // A reference to the action, perhaps quoted, in any case, at some version.
  predicate IsReference(value: string, quote: string, name: string, version: string) {
    value == quote + (name + version) && IsQuote(quote) && ReadsAs(name, "actions/github-script@")
  }

  predicate IsUse(line: string, front: string, dash: string, key: string, gap: string, value: string) {
    && line == front + dash + (key + (gap + value))
    && IsSpaces(front) && IsDash(dash) && IsSpaces(gap) && StartsVisibly(value)
    && ReadsAs(key, "uses:")
  }

  function Unquoted(value: string): string {
    if value != "" && (value[0] == '\'' || value[0] == '"') then value[1..] else value
  }

  lemma ReferenceExactly(value: string)
    ensures NamesTheAction(value)
            <==> exists quote, name, version :: IsReference(value, quote, name, version)
  {
    var word := "actions/github-script@";
    var bare := Unquoted(value);
    PrefixReadsAs(bare, word);
    if StartsWith(LowerCase(bare), word) {
      ReferenceSplits(value, bare);
    }
    if quote, name, version :| IsReference(value, quote, name, version) {
      ReferenceIsRead(value, quote, name, version);
    }
  }

  lemma ReferenceSplits(value: string, bare: string)
    requires bare == Unquoted(value) && |bare| >= 22 && ReadsAs(bare[..22], "actions/github-script@")
    ensures exists quote, name, version :: IsReference(value, quote, name, version)
  {
    var quote := value[..|value| - |bare|];
    assert bare == bare[..22] + bare[22..];
    assert value == quote + bare;
    assert |quote| <= 1;
    assert IsReference(value, quote, bare[..22], bare[22..]);
  }

  lemma ReferenceIsRead(value: string, quote: string, name: string, version: string)
    requires IsReference(value, quote, name, version)
    ensures Unquoted(value) == name + version && StartsWith(LowerCase(name + version), "actions/github-script@")
  {
    assert IsLike(name[0], 'a');
    assert (name + version)[..22] == name;
    PrefixReadsAs(name + version, "actions/github-script@");
  }

  function Entry(line: string): string {
    if IsItem(line) then Strip(Strip(line)[1..]) else Strip(line)
  }

  lemma EntryIs(line: string, front: string, dash: string, rest: string)
    requires IsEntry(line, front, dash, rest) && (rest == "" || rest[0] != '-')
    ensures Entry(line) == rest
  {
    if dash == "" {
      NoDashIsNoItem(line, front, rest);
    } else {
      DashIsItem(line, front, dash, rest);
      IndentIs(dash[1..], rest);
    }
  }

  // A line uses the action exactly if it is a `uses:` key, with or without a dash and in any case, whose
  // value is a reference to it.
  lemma UseExactly(line: string)
    ensures UsesGithubScript(line)
            <==> exists front, dash, key, gap, quote, name, version ::
                   IsUse(line, front, dash, key, gap, quote + (name + version))
                   && IsReference(quote + (name + version), quote, name, version)
  {
    if UsesGithubScript(line) {
      var front, dash, key, gap, value := UseSplits(line);
      ReferenceExactly(value);
      var quote, name, version :| IsReference(value, quote, name, version);
      assert IsUse(line, front, dash, key, gap, quote + (name + version));
    }
    if front, dash, key, gap, quote, name, version :|
      IsUse(line, front, dash, key, gap, quote + (name + version))
      && IsReference(quote + (name + version), quote, name, version)
    {
      UseIsRead(line, front, dash, key, gap, quote, name, version);
    }
  }

  predicate HasUsesKey(rest: string) {
    StartsWith(LowerCase(rest), "uses:")
  }

  predicate NamesTheAction(value: string) {
    StartsWith(LowerCase(Unquoted(value)), "actions/github-script@")
  }

  lemma UseSplits(line: string) returns (front: string, dash: string, key: string, gap: string, value: string)
    requires UsesGithubScript(line)
    ensures IsUse(line, front, dash, key, gap, value) && NamesTheAction(value)
  {
    var rest;
    front, dash, rest := EntrySplits(line);
    UseOfEntry(line, rest);
    key, gap, value := ValueSplits(rest);
  }

  lemma ValueSplits(rest: string) returns (key: string, gap: string, value: string)
    requires HasUsesKey(rest)
    ensures rest == key + (gap + value) && value == Strip(rest[5..])
    ensures ReadsAs(key, "uses:") && IsSpaces(gap) && StartsVisibly(value)
  {
    PrefixReadsAs(rest, "uses:");
    key, gap, value := rest[..5], rest[5..][..Indent(rest[5..])], Strip(rest[5..]);
    IndentSplits(rest[5..]);
    assert rest == key + rest[5..];
  }

  lemma UseOfEntry(line: string, rest: string)
    requires rest == Entry(line)
    ensures UsesGithubScript(line) <==>
              HasUsesKey(rest) && |rest| >= 5 && NamesTheAction(Strip(rest[5..]))
  {
  }

  lemma UseIsRead(line: string, front: string, dash: string, key: string, gap: string, quote: string, name: string,
                  version: string)
    requires IsUse(line, front, dash, key, gap, quote + (name + version))
    requires IsReference(quote + (name + version), quote, name, version)
    ensures UsesGithubScript(line)
  {
    var value := quote + (name + version);
    var rest := key + (gap + value);
    assert IsLike(key[0], 'u');
    EntryIs(line, front, dash, rest);
    assert rest[..5] == key && rest[5..] == gap + value;
    PrefixReadsAs(rest, "uses:");
    IndentIs(gap, value);
    ReferenceExactly(value);
    UseOfEntry(line, rest);
  }

  // Block scalars

  predicate EndsVisibly(s: string) {
    s == "" || !IsSpace(s[|s| - 1])
  }

  lemma {:induction false} EndIsStripped(s: string, gap: string)
    requires EndsVisibly(s) && IsSpaces(gap)
    ensures StripEnd(s + gap) == s
  {
    if gap == "" {
      assert s + gap == s;
    } else {
      assert (s + gap)[..|s + gap| - 1] == s + gap[..|gap| - 1];
      EndIsStripped(s, gap[..|gap| - 1]);
    }
  }

  lemma {:induction false} EndSplits(s: string) returns (gap: string)
    ensures s == StripEnd(s) + gap && IsSpaces(gap) && EndsVisibly(StripEnd(s))
  {
    if s != "" && IsSpace(s[|s| - 1]) {
      gap := EndSplits(s[..|s| - 1]);
      gap := gap + [s[|s| - 1]];
    } else {
      gap := "";
    }
  }

  // The header of a block: its style, perhaps a sign, and the digits of its indentation.
  predicate IsBlockHeader(header: string, style: string, sign: string, digits: string) {
    && header == style + (sign + digits)
    && (style == "|" || style == ">") && (sign == "" || sign == "+" || sign == "-") && SemVer.AreDigits(digits)
  }

  lemma HeaderSplits(header: string) returns (style: string, sign: string, digits: string)
    requires StripEnd(header) == header && IsBlockScalar(header)
    ensures IsBlockHeader(header, style, sign, digits)
  {
    style := header[..1];
    sign := if |header| > 1 && (header[1] == '+' || header[1] == '-') then header[1..2] else "";
    digits := header[1 + |sign|..];
    Regroup(style, sign, digits, "");
  }

  lemma HeaderIsRead(header: string, style: string, sign: string, digits: string)
    requires StripEnd(header) == header && IsBlockHeader(header, style, sign, digits)
    ensures IsBlockScalar(header)
  {
    assert header[1..] == sign + digits;
    if sign != "" {
      assert header[1] == sign[0] && header[2..] == digits;
    } else if digits != "" {
      assert header[1] == digits[0] && SemVer.Digit(digits[0]).Some?;
    }
  }

  lemma StrippedTwice(value: string)
    ensures StripEnd(StripEnd(value)) == StripEnd(value)
    ensures IsBlockScalar(value) <==> IsBlockScalar(StripEnd(value))
  {
    var gap := EndSplits(value);
    EndIsStripped(StripEnd(value), "");
    assert StripEnd(value) + "" == StripEnd(value);
  }

  // A value announces a block exactly if it is such a header, perhaps with space behind it.
  lemma BlockExactly(value: string)
    ensures IsBlockScalar(value)
            <==> exists style, sign, digits, gap ::
                   IsSpaces(gap) && value == style + (sign + digits) + gap
                   && IsBlockHeader(style + (sign + digits), style, sign, digits)
  {
    StrippedTwice(value);
    if IsBlockScalar(value) {
      var gap := EndSplits(value);
      var style, sign, digits := HeaderSplits(StripEnd(value));
      assert value == style + (sign + digits) + gap;
    }
    if style, sign, digits, gap :|
      IsSpaces(gap) && value == style + (sign + digits) + gap
      && IsBlockHeader(style + (sign + digits), style, sign, digits)
    {
      HeaderEndsVisibly(style, sign, digits);
      EndIsStripped(style + (sign + digits), gap);
      HeaderIsRead(style + (sign + digits), style, sign, digits);
    }
  }

  lemma HeaderEndsVisibly(style: string, sign: string, digits: string)
    requires IsBlockHeader(style + (sign + digits), style, sign, digits)
    ensures EndsVisibly(style + (sign + digits))
  {
    if digits != "" { DigitIsVisible(digits[|digits| - 1]); }
  }

  lemma DigitIsVisible(c: char)
    requires SemVer.Digit(c).Some?
    ensures !IsSpace(c)
  {
    if !SemVer.IsAsciiDigit(c) {
      var zero := ZeroOf(c as int, 0);
      NoSpaceNear(zero, c);
    }
  }

  lemma {:induction false} ZeroOf(code: int, d: nat) returns (zero: int)
    requires d <= 10 && SemVer.ForeignDigit(code, d).Some?
    ensures SemVer.IsForeignZero(zero) && zero <= code < zero + 10
    decreases 10 - d
  {
    if SemVer.IsForeignZero(code - d) {
      zero := code - d;
    } else {
      zero := ZeroOf(code, d + 1);
    }
  }

  lemma ZerosAre(zero: int)
    requires SemVer.IsForeignZero(zero)
    ensures 0x660 <= zero < 0x1670 || 0x1680 < zero < 0x1FF0 || 0x3000 < zero
  {
  }

  lemma NoSpaceNear(zero: int, c: char)
    requires SemVer.IsForeignZero(zero) && zero <= c as int < zero + 10
    ensures !IsSpace(c)
  {
    ZerosAre(zero);
    if IsSpace(c) { SpacesAre(c); }
  }

  lemma SpacesAre(c: char)
    requires IsSpace(c)
    ensures c as int < 0x660 || c as int == 0x1680 || 0x2000 <= c as int <= 0x3000
  {
  }
}
