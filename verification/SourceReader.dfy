// `source_reader` of scripts/desktop_release_version.py: reading blobs from one `git cat-file --batch`.
module SourceReader {
  import opened Text
  import opened Bytes
  import SemVer

  const NEWLINE: Byte := 10
  const SPACE: Byte := 32
  const BLOB: bytes := Ascii("blob")
  const MISSING: bytes := Ascii("missing")

  predicate IsSpace(b: Byte) {
    b == SPACE || 9 <= b <= 13
  }

  // readline()
  function LineLength(stream: bytes): (n: nat)
    ensures n <= |stream|
  {
    var i := Find(stream, NEWLINE);
    if i < |stream| then i + 1 else i
  }

  // The number of bytes before the first one that is a space (or is not, if `spaces`).
  function Run(s: bytes, spaces: bool): (n: nat)
    ensures n <= |s|
    ensures forall i :: 0 <= i < n ==> (IsSpace(s[i]) <==> spaces)
    ensures n < |s| ==> (IsSpace(s[n]) <==> !spaces)
  {
    if s == [] || IsSpace(s[0]) != spaces then 0 else 1 + Run(s[1..], spaces)
  }

  // split()
  function Words(s: bytes): seq<bytes>
    decreases |s|
  {
    var rest := s[Run(s, true)..];
    if rest == [] then []
    else
      var n := Run(rest, false);
      [rest[..n]] + Words(rest[n..])
  }

  // int(); Git writes plain decimal digits.
  function Number(word: bytes): Option<nat> {
    var digits := AsText(word);
    if word != [] && SemVer.AreAsciiDigits(digits) then Some(SemVer.NumberOf(digits)) else None
  }

  // The size a response header announces; None if it announces no blob.
  function BlobSize(line: bytes): Option<nat> {
    var words := Words(line);
    if |words| != 3 || words[1] != BLOB then None else Number(words[2])
  }

  // One response: the blob, and what is left of the stream.
  function ReadFrame(stream: bytes): Option<(bytes, bytes)> {
    var n := LineLength(stream);
    var size :- BlobSize(stream[..n]);
    var rest := stream[n..];
    if |rest| <= size || rest[size] != NEWLINE then None
    else Some((rest[..size], rest[size + 1..]))
  }

  class Reader {
    var stream: bytes

    constructor (stream: bytes)
      ensures this.stream == stream
    {
      this.stream := stream;
    }

    method ReadLine() returns (line: bytes)
      modifies this
      ensures line == old(stream)[..LineLength(old(stream))] && stream == old(stream)[LineLength(old(stream))..]
    {
      var n := LineLength(stream);
      line := stream[..n];
      stream := stream[n..];
    }

    method Read(size: nat) returns (data: bytes)
      modifies this
      ensures var n := if size <= |old(stream)| then size else |old(stream)|;
              data == old(stream)[..n] && stream == old(stream)[n..]
    {
      var n := if size <= |stream| then size else |stream|;
      data := stream[..n];
      stream := stream[n..];
    }

    method ReadSource() returns (source: Option<bytes>)
      modifies this
      ensures match ReadFrame(old(stream))
              case None => source == None
              case Some(frame) => source == Some(frame.0) && stream == frame.1
    {
      var header := ReadLine();
      ghost var rest := stream;
      var size := BlobSize(header);
      if size.None? { return None; }
      var data := Read(size.value);
      assert |data| == size.value ==> stream == rest[size.value..];
      var end := Read(1);
      assert |data| == size.value ==> (end == [NEWLINE] <==> |rest| > size.value && rest[size.value] == NEWLINE);
      if |data| != size.value || end != [NEWLINE] { return None; }
      source := Some(data);
    }

    // A whole session, one request after the other.
    method ReadSources(count: nat) returns (sources: Option<seq<bytes>>)
      modifies this
      ensures match ReadFrames(old(stream), count)
              case None => sources == None
              case Some(frames) => sources == Some(frames.0) && stream == frames.1
    {
      var list := [];
      for i := 0 to count
        invariant ReadFrames(old(stream), i) == Some((list, stream))
      {
        FailureStays(old(stream), i + 1, count);
        var source := ReadSource();
        if source.None? { return None; }
        list := list + [source.value];
      }
      sources := Some(list);
    }
  }

  function ReadFrames(stream: bytes, count: nat): Option<(seq<bytes>, bytes)> {
    if count == 0 then Some(([], stream))
    else
      var before :- ReadFrames(stream, count - 1);
      var frame :- ReadFrame(before.1);
      Some((before.0 + [frame.0], frame.1))
  }

  lemma FailureStays(stream: bytes, i: nat, count: nat)
    requires i <= count
    ensures ReadFrames(stream, i).None? ==> ReadFrames(stream, count).None?
  {
    if i < count { FailureStays(stream, i, count - 1); }
  }

  // What Git answers

  predicate IsWord(w: bytes) {
    w != [] && forall i :: 0 <= i < |w| ==> !IsSpace(w[i])
  }

  function Header(oid: bytes, content: bytes): bytes {
    oid + [SPACE] + BLOB + [SPACE] + Ascii(SemVer.Print(|content|)) + [NEWLINE]
  }

  function Frame(oid: bytes, content: bytes): bytes {
    Header(oid, content) + content + [NEWLINE]
  }

  function Frames(oids: seq<bytes>, contents: seq<bytes>): bytes
    requires |oids| == |contents|
  {
    if contents == [] then []
    else
      var n := |contents| - 1;
      Frames(oids[..n], contents[..n]) + Frame(oids[n], contents[n])
  }

  lemma WordsOfWord(w: bytes, b: Byte, rest: bytes)
    requires IsWord(w) && IsSpace(b)
    ensures Words(w + [b] + rest) == [w] + Words([b] + rest)
    ensures Words([b] + rest) == Words(rest)
  {
    var s := w + [b] + rest;
    assert Run(s, true) == 0;
    assert s[0..] == s;
    RunIs(s, |w|);
    assert s[..|w|] == w && s[|w|..] == [b] + rest;
    SkipSpace(b, rest);
  }

  lemma RunIs(s: bytes, n: nat)
    requires n < |s| && IsSpace(s[n]) && forall i :: 0 <= i < n ==> !IsSpace(s[i])
    ensures Run(s, false) == n
  {
  }

  lemma SkipSpace(b: Byte, rest: bytes)
    requires IsSpace(b)
    ensures Words([b] + rest) == Words(rest)
  {
    var s := [b] + rest;
    assert s[1..] == rest;
    assert Run(s, true) == 1 + Run(rest, true);
    assert s[Run(s, true)..] == rest[Run(rest, true)..];
  }

  lemma TwoWords(a: bytes, b: bytes)
    requires IsWord(a) && IsWord(b)
    ensures Words(a + [SPACE] + b + [NEWLINE]) == [a, b]
  {
    assert a + [SPACE] + b + [NEWLINE] == a + [SPACE] + (b + [NEWLINE] + []);
    WordsOfWord(a, SPACE, b + [NEWLINE] + []);
    WordsOfWord(b, NEWLINE, []);
    assert Words([]) == [];
  }

  lemma ThreeWords(a: bytes, b: bytes, c: bytes)
    requires IsWord(a) && IsWord(b) && IsWord(c)
    ensures Words(a + [SPACE] + b + [SPACE] + c + [NEWLINE]) == [a, b, c]
  {
    var tail := b + [SPACE] + c + [NEWLINE];
    assert a + [SPACE] + b + [SPACE] + c + [NEWLINE] == a + [SPACE] + tail;
    WordsOfWord(a, SPACE, tail);
    TwoWords(b, c);
  }

  lemma SizeOfPrint(n: nat)
    ensures IsWord(Ascii(SemVer.Print(n))) && Number(Ascii(SemVer.Print(n))) == Some(n)
  {
    var digits := SemVer.Print(n);
    SemVer.PrintIsNumber(n);
    AsciiIsAsText(digits);
    assert forall i :: 0 <= i < |digits| ==> SemVer.IsAsciiDigit(digits[i]);
  }

  lemma HeaderSize(oid: bytes, content: bytes)
    requires IsWord(oid)
    ensures BlobSize(Header(oid, content)) == Some(|content|)
  {
    SizeOfPrint(|content|);
    ThreeWords(oid, BLOB, Ascii(SemVer.Print(|content|)));
  }

  lemma HeaderIsOneLine(oid: bytes, content: bytes)
    requires IsWord(oid)
    ensures NEWLINE !in Header(oid, content)[..|Header(oid, content)| - 1]
  {
    var number := Ascii(SemVer.Print(|content|));
    SizeOfPrint(|content|);
    assert Header(oid, content)[..|Header(oid, content)| - 1] == oid + [SPACE] + BLOB + [SPACE] + number;
    assert NEWLINE !in oid && NEWLINE !in BLOB && NEWLINE !in number;
  }

  // A response is read back as exactly its blob, whatever bytes the blob or the rest of the stream holds.
  lemma FrameRoundTrip(oid: bytes, content: bytes, rest: bytes)
    requires IsWord(oid)
    ensures ReadFrame(Frame(oid, content) + rest) == Some((content, rest))
  {
    var header := Header(oid, content);
    var stream := Frame(oid, content) + rest;
    HeaderSize(oid, content);
    HeaderIsOneLine(oid, content);
    var n := |header| - 1;
    assert stream == header + (content + [NEWLINE] + rest);
    assert stream[..n] == header[..n] && stream[n] == NEWLINE;
    FindIs(stream, NEWLINE, n);
    assert stream[..n + 1] == header;
    var left := stream[n + 1..];
    assert left == content + [NEWLINE] + rest;
    assert left[..|content|] == content && left[|content| + 1..] == rest;
  }

  lemma {:induction false} FramesRoundTrip(oids: seq<bytes>, contents: seq<bytes>, rest: bytes)
    requires |oids| == |contents| && forall o :: o in oids ==> IsWord(o)
    ensures ReadFrames(Frames(oids, contents) + rest, |contents|) == Some((contents, rest))
  {
    if contents == [] {
      assert Frames(oids, contents) + rest == rest;
    } else {
      var n := |contents| - 1;
      var last := Frame(oids[n], contents[n]);
      FramesRoundTrip(oids[..n], contents[..n], last + rest);
      FrameRoundTrip(oids[n], contents[n], rest);
      LastFrame(oids, contents, rest);
      OneMoreFrame(Frames(oids, contents) + rest, n, contents[..n], last + rest, contents[n], rest);
      assert contents[..n] + [contents[n]] == contents;
    }
  }

  lemma LastFrame(oids: seq<bytes>, contents: seq<bytes>, rest: bytes)
    requires |oids| == |contents| > 0
    ensures var n := |contents| - 1;
            Frames(oids, contents) + rest == Frames(oids[..n], contents[..n]) + (Frame(oids[n], contents[n]) + rest)
  {
  }

  lemma OneMoreFrame(stream: bytes, n: nat, before: seq<bytes>, left: bytes, content: bytes, rest: bytes)
    requires ReadFrames(stream, n) == Some((before, left)) && ReadFrame(left) == Some((content, rest))
    ensures ReadFrames(stream, n + 1) == Some((before + [content], rest))
  {
  }

  // Whatever is accepted was a whole response: a blob header, that many bytes, and a newline.
  lemma AcceptedIsFramed(stream: bytes)
    requires ReadFrame(stream).Some?
    ensures var (content, rest) := ReadFrame(stream).value;
            exists header :: stream == header + content + [NEWLINE] + rest && BlobSize(header) == Some(|content|)
  {
    var n := LineLength(stream);
    var (content, rest) := ReadFrame(stream).value;
    var left := stream[n..];
    assert left == content + [NEWLINE] + rest;
    assert stream == stream[..n] + content + [NEWLINE] + rest;
  }

  // An answer for a path that is not there is an error, not an empty file.
  lemma MissingIsRefused(name: bytes, rest: bytes)
    requires IsWord(name)
    ensures ReadFrame(name + [SPACE] + MISSING + [NEWLINE] + rest) == None
  {
    var line := name + [SPACE] + MISSING + [NEWLINE];
    TwoWords(name, MISSING);
    assert BlobSize(line) == None;
    MissingIsOneLine(name);
    LineIs(line, rest);
    assert ReadFrame(line + rest) == None;
  }

  lemma MissingIsOneLine(name: bytes)
    requires IsWord(name)
    ensures NEWLINE !in (name + [SPACE] + MISSING + [NEWLINE])[..|name| + 1 + |MISSING|]
  {
    assert (name + [SPACE] + MISSING + [NEWLINE])[..|name| + 1 + |MISSING|] == name + [SPACE] + MISSING;
  }

  lemma LineIs(line: bytes, rest: bytes)
    requires line != [] && line[|line| - 1] == NEWLINE && NEWLINE !in line[..|line| - 1]
    ensures LineLength(line + rest) == |line| && (line + rest)[..|line|] == line
  {
    var n := |line| - 1;
    assert (line + rest)[..n] == line[..n];
    FindIs(line + rest, NEWLINE, n);
  }
}
