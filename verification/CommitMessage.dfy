// `bump_level` of scripts/desktop_release_version.py: what a commit message asks of the version.
module CommitMessage {
  import opened Text

  // str.splitlines()
  predicate EndsLine(c: char) {
    c in {'\n', '\r', '\U{b}', '\U{c}', '\U{1c}', '\U{1d}', '\U{1e}', '\U{85}', '\U{2028}', '\U{2029}'}
  }

  function FirstLine(message: string): (line: string)
    ensures line <= message && forall c :: c in line ==> !EndsLine(c)
  {
    if message == "" || EndsLine(message[0]) then "" else [message[0]] + FirstLine(message[1..])
  }

  predicate IsLower(c: char) {
    'a' <= c <= 'z'
  }

  function LowerRun(s: string): (n: nat)
    ensures n <= |s| && (forall i :: 0 <= i < n ==> IsLower(s[i])) && (n < |s| ==> !IsLower(s[n]))
  {
    if s == "" || !IsLower(s[0]) then 0 else 1 + LowerRun(s[1..])
  }

  datatype Header = Header(kind: string, breaking: bool)

  // `([a-z]+)(?:\([^\n)]+\))?(!)?: .+`
  function ParseHeader(line: string): Option<Header> {
    var n := LowerRun(line);
    var afterScope :- DropScope(line[n..]);
    var breaking := StartsWith(afterScope, "!");
    var rest := if breaking then afterScope[1..] else afterScope;
    if 0 < n && StartsWith(rest, ": ") && |rest| > 2 then Some(Header(line[..n], breaking)) else None
  }

  function DropScope(s: string): Option<string> {
    if !StartsWith(s, "(") then Some(s)
    else
      var close := Find(s, ')');
      if 2 <= close < |s| && '\n' !in s[..close] then Some(s[close + 1..]) else None
  }

  // `^BREAKING[ -]CHANGE: ` on any line.
  predicate AnnouncesBreak(message: string) {
    exists i :: 0 <= i <= |message| && (i == 0 || message[i - 1] == '\n')
             && (OccursAt(message, "BREAKING CHANGE: ", i) || OccursAt(message, "BREAKING-CHANGE: ", i))
  }

  // 3 breaking, 2 feature, 1 anything else, 0 nothing to release.
  function BumpLevel(message: string): (level: nat)
    ensures level <= 3
  {
    var header := ParseHeader(FirstLine(message));
    if (header.Some? && header.value.breaking) || AnnouncesBreak(message) then 3
    else if header.Some? && header.value.kind == "feat" then 2
    else if header.Some? && header.value.kind in {"docs", "test", "ci", "style"} then 0
    else 1
  }

  function Render(kind: string, scope: string, breaking: bool, subject: string): string {
    kind + (if scope == "" then "" else "(" + scope + ")") + (if breaking then "!" else "") + ": " + subject
  }

  // A header written by the convention is read back for what it is, with or without a scope.
  lemma HeaderRoundTrip(kind: string, scope: string, breaking: bool, subject: string)
    requires kind != "" && forall i :: 0 <= i < |kind| ==> IsLower(kind[i])
    requires ')' !in scope && '\n' !in scope
    requires subject != ""
    ensures ParseHeader(Render(kind, scope, breaking, subject)) == Some(Header(kind, breaking))
  {
    var tail := (if breaking then "!" else "") + (": " + subject);
    var s := (if scope == "" then "" else "(" + scope + ")") + tail;
    var line := Render(kind, scope, breaking, subject);
    assert line == kind + s;
    RunEnds(kind, s);
    assert line[|kind|..] == s;
    DropsScope(scope, tail);
    ReadsTail(breaking, subject);
  }

  lemma ReadsTail(breaking: bool, subject: string)
    requires subject != ""
    ensures var tail := (if breaking then "!" else "") + (": " + subject);
            && StartsWith(tail, "!") == breaking
            && (if breaking then tail[1..] else tail) == ": " + subject
            && StartsWith(": " + subject, ": ") && |": " + subject| > 2
  {
    var tail := (if breaking then "!" else "") + (": " + subject);
    if breaking {
      assert tail[1..] == ": " + subject;
    } else {
      assert tail == ": " + subject;
      assert tail[0] == ':';
    }
  }

  lemma DropsScope(scope: string, tail: string)
    requires ')' !in scope && '\n' !in scope && tail != "" && tail[0] != '('
    ensures DropScope((if scope == "" then "" else "(" + scope + ")") + tail) == Some(tail)
  {
    if scope == "" {
      assert "" + tail == tail;
    } else {
      var s := "(" + scope + ")" + tail;
      assert s[..1 + |scope|] == "(" + scope;
      FindIs(s, ')', 1 + |scope|);
      assert s[1 + |scope| + 1..] == tail;
    }
  }

  lemma {:induction false} RunEnds(kind: string, s: string)
    requires forall i :: 0 <= i < |kind| ==> IsLower(kind[i])
    requires s == "" || !IsLower(s[0])
    ensures LowerRun(kind + s) == |kind|
  {
    if kind == "" {
      assert kind + s == s;
    } else {
      assert (kind + s)[1..] == kind[1..] + s;
      RunEnds(kind[1..], s);
    }
  }

  // Whole messages

  predicate IsOneLine(s: string) {
    forall i :: 0 <= i < |s| ==> !EndsLine(s[i])
  }

  lemma {:induction false} FirstLineIs(line: string, rest: string)
    requires IsOneLine(line) && (rest == "" || EndsLine(rest[0]))
    ensures FirstLine(line + rest) == line
  {
    if line == "" {
      assert line + rest == rest;
    } else {
      assert (line + rest)[1..] == line[1..] + rest;
      FirstLineIs(line[1..], rest);
      assert line == [line[0]] + line[1..];
    }
  }

  predicate AnnouncesAt(message: string, i: nat) {
    && (i == 0 || (i <= |message| && message[i - 1] == '\n'))
    && (OccursAt(message, "BREAKING CHANGE: ", i) || OccursAt(message, "BREAKING-CHANGE: ", i))
  }

  lemma AnnouncesSomewhere(message: string)
    ensures AnnouncesBreak(message) <==> exists i :: 0 <= i <= |message| && AnnouncesAt(message, i)
  {
    if AnnouncesBreak(message) {
      var i :| 0 <= i <= |message| && (i == 0 || message[i - 1] == '\n')
               && (OccursAt(message, "BREAKING CHANGE: ", i) || OccursAt(message, "BREAKING-CHANGE: ", i));
      assert AnnouncesAt(message, i);
    }
  }

  lemma StartsWithB(message: string, i: nat)
    requires AnnouncesAt(message, i)
    ensures i < |message| && message[i] == 'B'
  {
    assert OccursAt(message, "BREAKING CHANGE: ", i) ==> message[i..i + 17][0] == "BREAKING CHANGE: "[0];
    assert OccursAt(message, "BREAKING-CHANGE: ", i) ==> message[i..i + 17][0] == "BREAKING-CHANGE: "[0];
  }

  lemma OccursInRest(line: string, rest: string, needle: string, j: nat)
    ensures OccursAt(line + rest, needle, |line| + j) <==> OccursAt(rest, needle, j)
  {
    if j + |needle| <= |rest| {
      assert (line + rest)[|line| + j..|line| + j + |needle|] == rest[j..j + |needle|];
    }
  }

  lemma AnnouncesInRest(line: string, rest: string, j: nat)
    requires 0 < j
    ensures AnnouncesAt(line + rest, |line| + j) <==> AnnouncesAt(rest, j)
  {
    OccursInRest(line, rest, "BREAKING CHANGE: ", j);
    OccursInRest(line, rest, "BREAKING-CHANGE: ", j);
    if j <= |rest| { assert (line + rest)[|line| + j - 1] == rest[j - 1]; }
  }

  // The announcement of a message is never in a conventional header.
  lemma AnnouncedInBody(line: string, rest: string)
    requires IsOneLine(line) && line != "" && IsLower(line[0]) && (rest == "" || EndsLine(rest[0]))
    ensures AnnouncesBreak(line + rest) <==> AnnouncesBreak(rest)
  {
    var message := line + rest;
    AnnouncesSomewhere(message);
    AnnouncesSomewhere(rest);
    assert forall k :: 0 <= k < |line| ==> message[k] == line[k];
    if AnnouncesBreak(message) {
      var i :| 0 <= i <= |message| && AnnouncesAt(message, i);
      StartsWithB(message, i);
      AnnouncesInRest(line, rest, i - |line|);
    }
    if AnnouncesBreak(rest) {
      var j :| 0 <= j <= |rest| && AnnouncesAt(rest, j);
      StartsWithB(rest, j);
      AnnouncesInRest(line, rest, j);
    }
  }

  // What a conventional commit asks for: its header decides, unless its body announces a break.
  lemma LevelOfCommit(kind: string, scope: string, breaking: bool, subject: string, rest: string)
    requires kind != "" && forall i :: 0 <= i < |kind| ==> IsLower(kind[i])
    requires ')' !in scope && IsOneLine(scope) && subject != "" && IsOneLine(subject)
    requires rest == "" || EndsLine(rest[0])
    ensures BumpLevel(Render(kind, scope, breaking, subject) + rest)
            == if breaking || AnnouncesBreak(rest) then 3
               else if kind == "feat" then 2
               else if kind in {"docs", "test", "ci", "style"} then 0
               else 1
  {
    var line := Render(kind, scope, breaking, subject);
    HeaderRoundTrip(kind, scope, breaking, subject);
    HeaderIsOneLine(kind, scope, breaking, subject);
    FirstLineIs(line, rest);
    AnnouncedInBody(line, rest);
  }

  lemma HeaderIsOneLine(kind: string, scope: string, breaking: bool, subject: string)
    requires kind != "" && forall i :: 0 <= i < |kind| ==> IsLower(kind[i])
    requires IsOneLine(scope) && IsOneLine(subject)
    ensures IsOneLine(Render(kind, scope, breaking, subject))
    ensures Render(kind, scope, breaking, subject)[0] == kind[0]
  {
    var middle := if scope == "" then "" else "(" + scope + ")";
    OneLines("(", scope);
    OneLines("(" + scope, ")");
    OneLines(kind, middle);
    OneLines(kind + middle, if breaking then "!" else "");
    OneLines(kind + middle + (if breaking then "!" else ""), ": ");
    OneLines(kind + middle + (if breaking then "!" else "") + ": ", subject);
  }

  lemma OneLines(a: string, b: string)
    requires IsOneLine(a) && IsOneLine(b)
    ensures IsOneLine(a + b)
  {
  }
}
