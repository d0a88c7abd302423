// `bump_level` of scripts/desktop_release_version.py, told by the text of the message.
module CommitLevels {
  import opened Text
  import opened CommitMessage

  predicate IsHeader(kind: string, scope: string, subject: string) {
    kind != "" && (forall i :: 0 <= i < |kind| ==> IsLower(kind[i])) && ')' !in scope && '\n' !in scope && subject != ""
  }

  // A line is read as a header exactly if it is one by the convention, with or without a scope.
  lemma HeaderExactly(line: string, kind: string, breaking: bool)
    ensures ParseHeader(line) == Some(Header(kind, breaking))
            <==> exists scope, subject :: IsHeader(kind, scope, subject) && line == Render(kind, scope, breaking, subject)
  {
    if ParseHeader(line) == Some(Header(kind, breaking)) {
      var scope, subject := HeaderIsThere(line);
    }
    if scope, subject :| IsHeader(kind, scope, subject) && line == Render(kind, scope, breaking, subject) {
      HeaderRoundTrip(kind, scope, breaking, subject);
    }
  }

  lemma HeaderIsThere(line: string) returns (scope: string, subject: string)
    requires ParseHeader(line).Some?
    ensures var header := ParseHeader(line).value;
            IsHeader(header.kind, scope, subject) && line == Render(header.kind, scope, header.breaking, subject)
  {
    var kind, tail := KindIsThere(line);
    var afterScope;
    scope, afterScope := ScopeIsThere(tail);
    subject := SubjectIsThere(afterScope, ParseHeader(line).value.breaking);
    RenderIs(kind, scope, ParseHeader(line).value.breaking, subject);
  }

  // The parts of a header, the other way round.
  lemma RenderIs(kind: string, scope: string, breaking: bool, subject: string)
    ensures kind + ((if scope == "" then "" else "(" + scope + ")") + ((if breaking then "!" else "") + (": " + subject)))
            == Render(kind, scope, breaking, subject)
  {
    var inScope, mark := if scope == "" then "" else "(" + scope + ")", if breaking then "!" else "";
    Regroup(kind, inScope, mark, ": " + subject);
    Regroup(kind + inScope + mark, ": ", subject, "");
  }

  lemma KindIsThere(line: string) returns (kind: string, tail: string)
    requires ParseHeader(line).Some?
    ensures line == kind + tail && kind == ParseHeader(line).value.kind && kind != "" && DropScope(tail).Some?
    ensures forall i :: 0 <= i < |kind| ==> IsLower(kind[i])
    ensures var afterScope := DropScope(tail).value;
            && ParseHeader(line).value.breaking == StartsWith(afterScope, "!")
            && var rest := if StartsWith(afterScope, "!") then afterScope[1..] else afterScope;
               StartsWith(rest, ": ") && |rest| > 2
  {
    var n := LowerRun(line);
    kind, tail := line[..n], line[n..];
  }

  lemma Regroup(a: string, b: string, c: string, d: string)
    ensures a + (b + (c + d)) == a + b + c + d
    ensures a + b + c == a + (b + c)
  {
  }

  lemma ScopeIsThere(s: string) returns (scope: string, tail: string)
    requires DropScope(s).Some?
    ensures tail == DropScope(s).value && s == (if scope == "" then "" else "(" + scope + ")") + tail
    ensures ')' !in scope && '\n' !in scope
  {
    tail := DropScope(s).value;
    if StartsWith(s, "(") {
      var close := Find(s, ')');
      scope := s[1..close];
      assert s[..close] == "(" + scope;
      assert s == s[..close] + ")" + tail;
    } else {
      scope := "";
      assert s == "" + tail;
    }
  }

  lemma SubjectIsThere(tail: string, breaking: bool) returns (subject: string)
    requires breaking == StartsWith(tail, "!")
    requires var rest := if breaking then tail[1..] else tail; StartsWith(rest, ": ") && |rest| > 2
    ensures subject != "" && tail == (if breaking then "!" else "") + (": " + subject)
  {
    var rest := if breaking then tail[1..] else tail;
    subject := rest[2..];
    assert rest == ": " + subject;
  }

  lemma {:induction false} FirstLineSplits(message: string) returns (rest: string)
    ensures message == FirstLine(message) + rest && (rest == "" || EndsLine(rest[0]))
  {
    if message == "" || EndsLine(message[0]) {
      rest := message;
    } else {
      rest := FirstLineSplits(message[1..]);
      OneInFront(message, FirstLine(message[1..]), rest);
    }
  }

  lemma OneInFront(message: string, line: string, rest: string)
    requires message != "" && message[1..] == line + rest
    ensures message == [message[0]] + line + rest
  {
  }

  // The message opens with a header of that kind.
  ghost predicate Opens(message: string, kind: string, breaking: bool) {
    exists scope, subject, rest :: IsOpening(message, kind, scope, breaking, subject, rest)
  }

  predicate IsOpening(message: string, kind: string, scope: string, breaking: bool, subject: string, rest: string) {
    && IsHeader(kind, scope, subject) && message == Render(kind, scope, breaking, subject) + rest
    && IsOneLine(Render(kind, scope, breaking, subject)) && (rest == "" || EndsLine(rest[0]))
  }

  lemma OpensExactly(message: string, kind: string, breaking: bool)
    ensures ParseHeader(FirstLine(message)) == Some(Header(kind, breaking)) <==> Opens(message, kind, breaking)
  {
    var line := FirstLine(message);
    var rest := FirstLineSplits(message);
    HeaderExactly(line, kind, breaking);
    if scope, subject :| IsHeader(kind, scope, subject) && line == Render(kind, scope, breaking, subject) {
      assert IsOpening(message, kind, scope, breaking, subject, rest);
    }
    if scope, subject, rest' :| IsOpening(message, kind, scope, breaking, subject, rest') {
      FirstLineIs(Render(kind, scope, breaking, subject), rest');
    }
  }

  // A line of the message, wherever it stands, announces a break.
  ghost predicate Announces(message: string) {
    exists before, mark, after :: IsAnnouncement(message, before, mark, after)
  }

  predicate IsAnnouncement(message: string, before: string, mark: string, after: string) {
    && message == before + mark + after && (mark == "BREAKING CHANGE: " || mark == "BREAKING-CHANGE: ")
    && (before == "" || before[|before| - 1] == '\n')
  }

  lemma AnnouncesExactly(message: string)
    ensures AnnouncesBreak(message) <==> Announces(message)
  {
    AnnouncesSomewhere(message);
    if i :| 0 <= i <= |message| && AnnouncesAt(message, i) {
      AnnouncementIsThere(message, i);
    }
    if before, mark, after :| IsAnnouncement(message, before, mark, after) {
      AnnouncementIsRead(message, before, mark, after);
    }
  }

  lemma AnnouncementIsThere(message: string, i: nat)
    requires AnnouncesAt(message, i)
    ensures i + 17 <= |message| && IsAnnouncement(message, message[..i], message[i..i + 17], message[i + 17..])
  {
    assert message == message[..i] + message[i..i + 17] + message[i + 17..];
  }

  lemma AnnouncementIsRead(message: string, before: string, mark: string, after: string)
    requires IsAnnouncement(message, before, mark, after)
    ensures AnnouncesAt(message, |before|)
  {
    assert message[|before|..|before| + 17] == mark;
  }

  ghost predicate AsksForMajor(message: string) {
    Announces(message) || exists kind :: Opens(message, kind, true)
  }

  // The level of every message: 3 for an announced break or a marked header, 2 for a feature, 0 for what
  // never ships, and 1 for the rest, headers outside the convention among them.
  lemma LevelExactly(message: string)
    ensures BumpLevel(message) == 3 <==> AsksForMajor(message)
    ensures BumpLevel(message) == 2 <==> !AsksForMajor(message) && Opens(message, "feat", false)
    ensures BumpLevel(message) == 0 <==>
              !AsksForMajor(message) && exists kind :: kind in {"docs", "test", "ci", "style"} && Opens(message, kind, false)
  {
    AnnouncesExactly(message);
    forall kind, breaking
      ensures ParseHeader(FirstLine(message)) == Some(Header(kind, breaking)) <==> Opens(message, kind, breaking)
    {
      OpensExactly(message, kind, breaking);
    }
    var header := ParseHeader(FirstLine(message));
    if header.Some? { assert header == Some(Header(header.value.kind, header.value.breaking)); }
  }

  // A message that starts with no small letter asks for a patch, unless it announces a break: the subject of
  // a revert, say, whatever it quotes.
  lemma OtherSubjectsArePatches(message: string)
    requires message == "" || !IsLower(message[0])
    ensures BumpLevel(message) == if Announces(message) then 3 else 1
  {
    LevelExactly(message);
    forall kind, breaking ensures !Opens(message, kind, breaking) {
      StartsSmall(message, kind, breaking);
    }
  }

  lemma StartsSmall(message: string, kind: string, breaking: bool)
    ensures Opens(message, kind, breaking) ==> message != "" && IsLower(message[0])
  {
    if scope, subject, rest :| IsOpening(message, kind, scope, breaking, subject, rest) {
      assert message[0] == kind[0];
    }
  }
}
