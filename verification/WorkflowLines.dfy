// The line patterns of scripts/check-no-run-interpolation.py.
module WorkflowLines {
  import opened Text
  import SemVer

  // `\s` and str.isspace()
  predicate IsSpace(c: char) {
    || '\t' <= c <= '\r' || '\U{1c}' <= c <= ' ' || c == '\U{85}' || c == '\U{a0}' || c == '\U{1680}'
    || '\U{2000}' <= c <= '\U{200a}' || c == '\U{2028}' || c == '\U{2029}' || c == '\U{202f}' || c == '\U{205f}'
    || c == '\U{3000}'
  }

  // `len(line) - len(line.lstrip())`
  function Indent(line: string): (n: nat)
    ensures n <= |line|
    ensures n < |line| ==> !IsSpace(line[n])
  {
    if line == "" || !IsSpace(line[0]) then 0 else 1 + Indent(line[1..])
  }

  function Strip(line: string): string {
    line[Indent(line)..]
  }

  predicate IsBlank(line: string) {
    Indent(line) == |line|
  }

  datatype Key = Key(indent: nat, value: string)

  // `^(\s*)key:\s*(\S.*)?$`
  function KeyLine(line: string, key: string): Option<Key> {
    var rest := Strip(line);
    if StartsWith(rest, key) then Some(Key(Indent(line), Strip(rest[|key|..]))) else None
  }

  // STEPS_KEY
  function StepsKey(line: string): Option<nat> {
    match KeyLine(line, "steps:")
    case Some(Key(indent, value)) => if value == "" then Some(indent) else None
    case None => None
  }

  // STEP_ITEM
  predicate IsItem(line: string) {
    var rest := Strip(line);
    |rest| >= 2 && rest[0] == '-' && IsSpace(rest[1])
  }

  // RUN_KEY, with or without the dash of a list item in front
  function RunKey(line: string): Option<Key> {
    if IsItem(line) then
      match KeyLine(Strip(line)[1..], "run:")
      case Some(key) => Some(Key(Indent(line), key.value))
      case None => None
    else KeyLine(line, "run:")
  }

  function ScriptKey(line: string): Option<Key> {
    KeyLine(line, "script:")
  }

  // The four letters outside ASCII that `re.IGNORECASE` takes for one of them are among these.
  function Lower(c: char): char {
    if 'A' <= c <= 'Z' then (c as int + 32) as char
    else if c == '\U{130}' || c == '\U{131}' then 'i'
    else if c == '\U{17f}' then 's'
    else if c == '\U{212a}' then 'k'
    else c
  }

  function LowerCase(s: string): (t: string)
    ensures |t| == |s|
  {
    seq(|s|, i requires 0 <= i < |s| => Lower(s[i]))
  }

  // GITHUB_SCRIPT, ignoring case
  predicate UsesGithubScript(line: string) {
    var rest := if IsItem(line) then Strip(Strip(line)[1..]) else Strip(line);
    StartsWith(LowerCase(rest), "uses:")
    && var value := Strip(rest[5..]);
       var name := if value != "" && (value[0] == '\'' || value[0] == '"') then value[1..] else value;
       StartsWith(LowerCase(name), "actions/github-script@")
  }

  // BLOCK_SCALAR, on the stripped value
  predicate IsBlockScalar(value: string) {
    var s := StripEnd(value);
    s != "" && (s[0] == '|' || s[0] == '>')
    && SemVer.AreDigits(if |s| > 1 && (s[1] == '+' || s[1] == '-') then s[2..] else s[1..])
  }

  function StripEnd(s: string): string {
    if s != "" && IsSpace(s[|s| - 1]) then StripEnd(s[..|s| - 1]) else s
  }

  // Still inside a `steps:` block opened at that indentation.
  predicate InSteps(line: string, stepsIndent: nat) {
    Indent(line) > stepsIndent || (Indent(line) == stepsIndent && IsItem(line))
  }

  // No line is both.
  lemma StepsIsNotRun(line: string)
    requires StepsKey(line).Some?
    ensures RunKey(line).None? && !IsItem(line) && !IsBlank(line)
  {
    assert Strip(line)[0] == 's';
  }

  function Join(lines: seq<string>): string {
    if lines == [] then ""
    else if |lines| == 1 then lines[0]
    else Join(lines[..|lines| - 1]) + "\n" + lines[|lines| - 1]
  }
}
