// What scripts/scrub-e2e-token.py takes for an archive, an html report and an inline archive, and how data is
// put together again.
module ArchiveForms {
  import opened Text
  import opened Bytes
  import opened Base64
  import opened Replacement
  import opened ScrubToken
  import opened InlineArchives

  predicate IsDataCharacter(c: char) {
    'A' <= c <= 'Z' || 'a' <= c <= 'z' || '0' <= c <= '9' || c in {'+', '/', '='}
  }

  // As much encoded data as there is up to `rest`, and some.
  predicate IsWholeData(e: bytes, rest: bytes) {
    && e != [] && (forall i :: 0 <= i < |e| ==> IsDataCharacter(e[i] as char))
    && (rest == [] || !IsDataCharacter(rest[0] as char))
  }

  lemma DataCharacter(c: Byte)
    ensures IsBase64(c) <==> IsDataCharacter(c as char)
  {
  }

  lemma DataCharacters(e: bytes)
    ensures (forall i :: 0 <= i < |e| ==> IsBase64(e[i])) <==> (forall i :: 0 <= i < |e| ==> IsDataCharacter(e[i] as char))
  {
    forall i | 0 <= i < |e| ensures IsBase64(e[i]) <==> IsDataCharacter(e[i] as char) {
      DataCharacter(e[i]);
    }
  }

  // Archives and reports are told by two letters and by two endings.
  lemma KindsExactly(name: string, data: bytes)
    ensures IsZip(data) <==> exists rest: bytes :: data == Ascii("PK") + rest
    ensures IsHtml(name) <==> exists stem :: name == stem + ".html" || name == stem + ".htm"
  {
    if IsZip(data) { assert data == Ascii("PK") + data[2..]; }
    EndingExactly(name, ".html");
    EndingExactly(name, ".htm");
  }

  lemma EndingExactly(name: string, ending: string)
    ensures EndsWith(name, ending) <==> exists stem :: name == stem + ending
  {
    if EndsWith(name, ending) { assert name == name[..|name| - |ending|] + ending; }
  }

  // An inline archive is its marker and as much base64 as follows, at least one character.
  lemma BlobExactly(data: bytes, e: bytes, rest: bytes)
    requires data == Ascii("data:application/zip;base64,") + e + rest && IsWholeData(e, rest)
    ensures BlobLength(data) == |e|
  {
    DataCharacters(e);
    if rest != [] { DataCharacter(rest[0]); }
    RunStops(e, rest);
    assert data[|MARKER|..] == e + rest;
  }

  ghost predicate StartsArchive(data: bytes) {
    exists e: bytes, rest: bytes :: IsArchiveText(data, e, rest)
  }

  predicate IsArchiveText(data: bytes, e: bytes, rest: bytes) {
    data == Ascii("data:application/zip;base64,") + e + rest && IsWholeData(e, rest)
  }

  lemma BlobIsWhole(data: bytes)
    ensures BlobLength(data) > 0 <==> StartsArchive(data)
  {
    var n := BlobLength(data);
    if n > 0 {
      var e, rest := data[|MARKER|..|MARKER| + n], data[|MARKER| + n..];
      assert data[|MARKER|..] == e + rest;
      assert forall i :: 0 <= i < |e| ==> e[i] == data[|MARKER|..][i];
      DataCharacters(e);
      if rest != [] {
        assert rest[0] == data[|MARKER|..][n];
        DataCharacter(rest[0]);
      }
      assert IsArchiveText(data, e, rest);
    }
    if StartsArchive(data) {
      var e: bytes, rest: bytes :| IsArchiveText(data, e, rest);
      BlobExactly(data, e, rest);
    }
  }

  // No inline archive starts in the first n bytes.
  ghost predicate IsFree(data: bytes, n: nat) {
    forall i :: 0 <= i < n && i <= |data| ==> !StartsArchive(data[i..])
  }

  lemma FreeHasNoBlob(first: Byte, data: bytes, n: nat)
    requires IsFree([first] + data, n + 1) && n <= |data|
    ensures BlobLength([first] + data) == 0 && IsFree(data, n)
  {
    assert ([first] + data)[0..] == [first] + data;
    BlobIsWhole([first] + data);
    forall i | 0 <= i < n && i <= |data| ensures !StartsArchive(data[i..]) {
      assert ([first] + data)[i + 1..] == data[i..];
    }
  }

  lemma EmbedStep(codec: Codec, depth: nat, first: Byte, data: bytes, token: bytes)
    requires token != [] && BlobLength([first] + data) == 0
    ensures Embed(codec, depth, [first] + data, token) == Behind([first], Embed(codec, depth, data, token))
  {
    assert ([first] + data)[1..] == data;
  }

  function Behind(text: bytes, out: Option<bytes>): Option<bytes> {
    match out
    case Some(data) => Some(text + data)
    case None => None
  }

  lemma BehindTwice(first: bytes, text: bytes, out: Option<bytes>)
    ensures Behind(first, Behind(text, out)) == Behind(first + text, out)
    ensures Behind([], out) == out
  {
    if out.Some? { assert first + (text + out.value) == first + text + out.value && [] + out.value == out.value; }
  }

  lemma FirstOfThree(text: bytes, tail: bytes)
    requires text != []
    ensures text + tail == [text[0]] + (text[1..] + tail) && text == [text[0]] + text[1..]
  {
  }

  lemma {:induction false} FreeTextIsKept(codec: Codec, depth: nat, text: bytes, tail: bytes, token: bytes)
    requires token != [] && IsFree(text + tail, |text|)
    ensures Embed(codec, depth, text + tail, token) == Behind(text, Embed(codec, depth, tail, token))
  {
    if text == [] {
      BehindTwice([], [], Embed(codec, depth, tail, token));
      assert text + tail == tail;
    } else {
      FirstOfThree(text, tail);
      FreeHasNoBlob(text[0], text[1..] + tail, |text[1..]|);
      EmbedStep(codec, depth, text[0], text[1..] + tail, token);
      FreeTextIsKept(codec, depth, text[1..], tail, token);
      BehindTwice([text[0]], text[1..], Embed(codec, depth, tail, token));
    }
  }

  // The first inline archive of a report is decoded, scrubbed and encoded again between the text in front
  // of it, which is kept, and what becomes of the rest.
  lemma FirstArchive(codec: Codec, depth: nat, text: bytes, e: bytes, rest: bytes, token: bytes)
    requires token != [] && IsWholeData(e, rest)
    requires IsFree(text + (Ascii("data:application/zip;base64,") + e + rest), |text|)
    ensures Embed(codec, depth, text + (Ascii("data:application/zip;base64,") + e + rest), token)
            == match codec.decode(e)
               case None => None
               case Some(archive) =>
                 match ScrubZip(codec, depth, archive, token)
                 case None => None
                 case Some(clean) =>
                   match Embed(codec, depth, rest, token)
                   case None => None
                   case Some(out) => Some(text + (Ascii("data:application/zip;base64,") + Encode(clean) + out))
  {
    var tail := Ascii("data:application/zip;base64,") + e + rest;
    FreeTextIsKept(codec, depth, text, tail, token);
    BlobExactly(tail, e, rest);
    assert tail[|MARKER|..|MARKER| + |e|] == e && tail[|MARKER| + |e|..] == rest;
  }

  // The inline archives of a report are found in the same way, whatever becomes of them.
  lemma ArchivesAre(text: bytes, e: bytes, rest: bytes)
    requires IsWholeData(e, rest)
    requires IsFree(text + (Ascii("data:application/zip;base64,") + e + rest), |text|)
    ensures Blobs(text + (Ascii("data:application/zip;base64,") + e + rest)) == [e] + Blobs(rest)
  {
    var tail := Ascii("data:application/zip;base64,") + e + rest;
    SkipFreeText(text, tail);
    BlobExactly(tail, e, rest);
    assert tail[|MARKER|..|MARKER| + |e|] == e && tail[|MARKER| + |e|..] == rest;
  }

  lemma {:induction false} SkipFreeText(text: bytes, tail: bytes)
    requires IsFree(text + tail, |text|)
    ensures Blobs(text + tail) == Blobs(tail)
  {
    if text == [] {
      assert text + tail == tail;
    } else {
      FirstOfThree(text, tail);
      FreeHasNoBlob(text[0], text[1..] + tail, |text[1..]|);
      assert ([text[0]] + (text[1..] + tail))[1..] == text[1..] + tail;
      SkipFreeText(text[1..], tail);
    }
  }

  // A report without any is kept.
  lemma NoArchive(codec: Codec, depth: nat, text: bytes, token: bytes)
    requires token != [] && IsFree(text, |text|)
    ensures Embed(codec, depth, text, token) == Some(text) && Blobs(text) == []
  {
    assert text + [] == text;
    SkipFreeText(text, []);
    FreeTextIsKept(codec, depth, text, [], token);
  }

  // The first occurrence of the token becomes ten bytes, what is in front of it is kept, and what follows it is
  // gone through in the same way.
  lemma FirstOccurrence(front: bytes, token: bytes, rest: bytes)
    requires token != [] && forall i :: 0 <= i < |front| ==> !OccursAt(front + token, token, i)
    ensures Replace(front + (token + rest), token) == front + (Ascii("[scrubbed]") + Replace(rest, token))
  {
    NoHitFirstBehind(front, token, rest);
    PlaceholderIs();
  }

  lemma PlaceholderIs()
    ensures PLACEHOLDER == Ascii("[scrubbed]")
  {
    assert |PLACEHOLDER| == 10;
    assert Ascii("[scrubbed]")[1..9] == WORD;
  }

  // An entry is read by its name, so of several with one name the last is read for all of them.
  lemma {:induction false} LastOfName(dir: seq<Item>, i: nat)
    requires i < |dir| && forall j :: i < j < |dir| ==> dir[j].name != dir[i].name
    ensures LastBody(dir, dir[i].name) == dir[i].body
  {
    var n := |dir| - 1;
    if i < n {
      assert dir[..n][i] == dir[i];
      LastOfName(dir[..n], i);
    }
  }
}
