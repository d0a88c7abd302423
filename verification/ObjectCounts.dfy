// count_script and parse_counts of scripts/selfhost_backup.py: the counts the storage container
// prints, and what is read back from them.
module ObjectCounts {
  import opened Text
  import SemVer

  datatype Entry = Entry(name: string, number: nat)

  // `rpartition(' ')` and the tests on both halves.
  function ReadLine(line: string): Option<Entry>
  {
    var i := LastSpace(line);
    if i == |line| then None
    else
      var name, number := line[..i], line[i + 1..];
      if name == "" || number == "" || !SemVer.AreAsciiDigits(number) then None
      else Some(Entry(name, SemVer.NumberOf(number)))
  }

  // The index of the last space, or |s| when there is none.
  function LastSpace(s: string): (i: nat)
    ensures i <= |s|
    ensures i < |s| ==> s[i] == ' ' && ' ' !in s[i + 1..]
    ensures i == |s| ==> ' ' !in s
  {
    if s == "" then 0
    else if s[|s| - 1] == ' ' then |s| - 1
    else
      var i := LastSpace(s[..|s| - 1]);
      assert s == s[..|s| - 1] + [s[|s| - 1]];
      if i == |s| - 1 then |s|
      else
        assert s[i + 1..] == s[..|s| - 1][i + 1..] + [s[|s| - 1]];
        i
  }

  function PrintLine(name: string, number: nat): string {
    name + " " + SemVer.Print(number)
  }

  lemma LastSpaceIs(s: string, i: nat)
    requires i < |s| && s[i] == ' ' && ' ' !in s[i + 1..]
    ensures LastSpace(s) == i
  {
    forall k | i < k < |s| ensures s[k] != ' ' {
      assert s[i + 1..][k - i - 1] == s[k];
    }
  }

  // Only the last space counts, so a name may hold spaces and digits of its own.
  lemma ReadOfPrint(name: string, number: nat)
    ensures ReadLine(PrintLine(name, number)) == if name == "" then None else Some(Entry(name, number))
  {
    var line, digits := PrintLine(name, number), SemVer.Print(number);
    SemVer.PrintIsNumber(number);
    assert line[|name|] == ' ' && line[|name| + 1..] == digits && line[..|name|] == name;
    LastSpaceIs(line, |name|);
  }

  predicate IsCountLine(line: string, entry: Entry, digits: string) {
    && line == entry.name + " " + digits && entry.name != "" && digits != ""
    && SemVer.AreAsciiDigits(digits) && SemVer.NumberOf(digits) == entry.number
  }

  // A line is read exactly if it is a name, a space and ASCII digits.
  lemma ReadExactly(line: string, entry: Entry)
    ensures ReadLine(line) == Some(entry) <==> exists digits :: IsCountLine(line, entry, digits)
  {
    var i := LastSpace(line);
    if ReadLine(line) == Some(entry) {
      assert line == line[..i] + " " + line[i + 1..];
      assert IsCountLine(line, entry, line[i + 1..]);
    }
    if digits :| IsCountLine(line, entry, digits) {
      assert line[|entry.name|] == ' ' && line[|entry.name| + 1..] == digits && line[..|entry.name|] == entry.name;
      NoSpaceInDigits(digits);
      LastSpaceIs(line, |entry.name|);
    }
  }

  lemma NoSpaceInDigits(digits: string)
    requires SemVer.AreAsciiDigits(digits)
    ensures ' ' !in digits
  {
  }

  // parse_counts before its last test: None where it raises.
  function Parsed(lines: seq<string>): Option<map<string, nat>> {
    if lines == [] then Some(map[])
    else
      var counts :- Parsed(lines[..|lines| - 1]);
      var entry :- ReadLine(lines[|lines| - 1]);
      if entry.name in counts then None else Some(counts[entry.name := entry.number])
  }

  lemma {:induction false} BadPrefixIsBad(lines: seq<string>, i: nat)
    requires i <= |lines| && Parsed(lines[..i]).None?
    ensures Parsed(lines).None?
  {
    if i == |lines| {
      assert lines[..i] == lines;
    } else {
      assert lines[..|lines| - 1][..i] == lines[..i];
      BadPrefixIsBad(lines[..|lines| - 1], i);
    }
  }

  ghost predicate IsEntryOf(lines: seq<string>, name: string, number: nat) {
    exists i :: 0 <= i < |lines| && ReadLine(lines[i]) == Some(Entry(name, number))
  }

  // Every line is one, and no two have the same name.
  ghost predicate AreCountLines(lines: seq<string>) {
    && (forall i :: 0 <= i < |lines| ==> ReadLine(lines[i]).Some?)
    && forall i, j :: 0 <= i < j < |lines| ==> ReadLine(lines[i]).value.name != ReadLine(lines[j]).value.name
  }

  predicate Has(counts: map<string, nat>, name: string, number: nat) {
    name in counts && counts[name] == number
  }

  ghost predicate HasEntriesOf(counts: map<string, nat>, lines: seq<string>) {
    forall name, number: nat :: Has(counts, name, number) <==> IsEntryOf(lines, name, number)
  }

  // The lines are accepted exactly if each is one and no two share a name, and then what they say is what is counted.
  lemma {:induction false} ParsedExactly(lines: seq<string>)
    ensures Parsed(lines).Some? <==> AreCountLines(lines)
    ensures Parsed(lines).Some? ==> HasEntriesOf(Parsed(lines).value, lines)
  {
    if lines != [] {
      var front, last := lines[..|lines| - 1], lines[|lines| - 1];
      assert lines == front + [last];
      ParsedExactly(front);
      LinesOneMore(front, last);
      if Parsed(front).Some? { ParsedOneMore(front, last, Parsed(front).value); }
    }
  }

  lemma ParsedOneMore(front: seq<string>, last: string, counts: map<string, nat>)
    requires Parsed(front) == Some(counts) && HasEntriesOf(counts, front)
    ensures Parsed(front + [last]).Some?
            <==> ReadLine(last).Some? && !exists number: nat :: IsEntryOf(front, ReadLine(last).value.name, number)
    ensures Parsed(front + [last]).Some? ==> HasEntriesOf(Parsed(front + [last]).value, front + [last])
  {
    if ReadLine(last).Some? {
      var entry := ReadLine(last).value;
      OneMoreLine(front, last, entry);
      if entry.name in counts {
        assert Has(counts, entry.name, counts[entry.name]);
      } else {
        forall number: nat ensures !IsEntryOf(front, entry.name, number) {
          assert !Has(counts, entry.name, number);
        }
        var more := counts[entry.name := entry.number];
        forall name, number: nat ensures Has(more, name, number) <==> IsEntryOf(front + [last], name, number) {
          EntryOneMore(front, last, name, number);
          assert Has(counts, name, number) <==> IsEntryOf(front, name, number);
        }
      }
    } else {
      assert (front + [last])[..|front|] == front;
    }
  }

  lemma EntryOneMore(front: seq<string>, last: string, name: string, number: nat)
    ensures IsEntryOf(front + [last], name, number)
            <==> IsEntryOf(front, name, number) || ReadLine(last) == Some(Entry(name, number))
  {
    var lines := front + [last];
    assert lines[|front|] == last;
    if i :| 0 <= i < |front| && ReadLine(front[i]) == Some(Entry(name, number)) {
      assert lines[i] == front[i];
    }
  }

  lemma LinesOneMore(front: seq<string>, last: string)
    ensures AreCountLines(front + [last])
            <==> && AreCountLines(front) && ReadLine(last).Some?
                 && !exists number: nat :: IsEntryOf(front, ReadLine(last).value.name, number)
  {
    var lines := front + [last];
    assert lines[|front|] == last && forall i :: 0 <= i < |front| ==> lines[i] == front[i];
    if AreCountLines(front) && ReadLine(last).Some? {
      var name := ReadLine(last).value.name;
      forall i | 0 <= i < |front| && ReadLine(front[i]).value.name == name
        ensures IsEntryOf(front, name, ReadLine(front[i]).value.number)
      {
        assert ReadLine(front[i]) == Some(Entry(name, ReadLine(front[i]).value.number));
      }
    }
  }

  // parse_counts
  method ParseCounts(lines: seq<string>, buckets: Option<set<string>>) returns (counts: Option<map<string, nat>>)
    ensures counts == match Parsed(lines)
                      case Some(found) => if buckets.Some? && found.Keys != buckets.value then None else Some(found)
                      case None => None
  {
    var found: map<string, nat> := map[];
    var i := 0;
    while i < |lines|
      invariant 0 <= i <= |lines|
      invariant Parsed(lines[..i]) == Some(found)
    {
      assert lines[..i + 1][..i] == lines[..i] && lines[..i + 1][i] == lines[i];
      var read := ReadLine(lines[i]);
      if read.None? || read.value.name in found {
        BadPrefixIsBad(lines, i + 1);
        return None;
      }
      found := found[read.value.name := read.value.number];
      i := i + 1;
    }
    assert lines[..i] == lines;
    if buckets.Some? && found.Keys != buckets.value {
      return None;
    }
    counts := Some(found);
  }

  predicate Distinct(names: seq<string>) {
    forall i, j :: 0 <= i < j < |names| ==> names[i] != names[j]
  }

  // What count_script prints; an absent bucket counts 0.
  function Size(sizes: map<string, nat>, name: string): nat {
    if name in sizes then sizes[name] else 0
  }

  function Printed(names: seq<string>, sizes: map<string, nat>): seq<string> {
    seq(|names|, i requires 0 <= i < |names| => PrintLine(names[i], Size(sizes, names[i])))
  }

  function Counted(names: seq<string>, sizes: map<string, nat>): map<string, nat> {
    map name | name in names :: Size(sizes, name)
  }

  lemma OneMoreLine(lines: seq<string>, line: string, entry: Entry)
    requires ReadLine(line) == Some(entry)
    ensures Parsed(lines + [line])
            == match Parsed(lines)
               case Some(counts) => if entry.name in counts then None else Some(counts[entry.name := entry.number])
               case None => None
  {
    assert (lines + [line])[..|lines|] == lines;
  }

  lemma OneMoreCounted(names: seq<string>, name: string, sizes: map<string, nat>)
    ensures Counted(names + [name], sizes) == Counted(names, sizes)[name := Size(sizes, name)]
    ensures Printed(names + [name], sizes) == Printed(names, sizes) + [PrintLine(name, Size(sizes, name))]
  {
  }

  lemma AnotherLine(names: seq<string>, name: string, sizes: map<string, nat>)
    requires name != ""
    requires Parsed(Printed(names, sizes)) == if Distinct(names) then Some(Counted(names, sizes)) else None
    ensures Parsed(Printed(names + [name], sizes))
            == if Distinct(names + [name]) then Some(Counted(names + [name], sizes)) else None
  {
    ReadOfPrint(name, Size(sizes, name));
    OneMoreLine(Printed(names, sizes), PrintLine(name, Size(sizes, name)), Entry(name, Size(sizes, name)));
    OneMoreCounted(names, name, sizes);
    LastIsDistinct(names, name);
  }

  // The counts are read back as they were, unless two keys are configured with the same bucket
  // name: then no count of the container is ever accepted.
  lemma {:induction false} PrintedIsParsed(names: seq<string>, sizes: map<string, nat>)
    requires "" !in names
    ensures Parsed(Printed(names, sizes)) == if Distinct(names) then Some(Counted(names, sizes)) else None
  {
    if names == [] {
      assert Printed(names, sizes) == [];
    } else {
      var front, last := names[..|names| - 1], names[|names| - 1];
      PrintedIsParsed(front, sizes);
      AnotherLine(front, last, sizes);
      assert names == front + [last];
    }
  }

  lemma LastIsDistinct(names: seq<string>, name: string)
    ensures Distinct(names + [name]) <==> Distinct(names) && name !in names
  {
    if Distinct(names + [name]) {
      forall i, j | 0 <= i < j < |names| ensures names[i] != names[j] {
        assert (names + [name])[i] != (names + [name])[j];
      }
      forall i | 0 <= i < |names| ensures names[i] != name {
        assert (names + [name])[i] != (names + [name])[|names|];
      }
    }
  }
}
