// A token that scripts/scrub-e2e-token.py has replaced everywhere, there again after the next.
module TokenComesBack {
  import opened Text
  import opened Bytes
  import opened Base64
  import opened Replacement
  import opened ScrubToken
  import opened InlineArchives
  import opened BlobOverlap
  import opened DeepScrub
  import opened ScrubGate

  const QUOTE: Byte := 34
  const SECOND: bytes := [45]

  // An archive of one entry `x`, and a report that inlines it between quotes.
  function Entry(body: bytes): seq<Item> {
    [Item("x", body)]
  }

  function Report(codec: Codec, body: bytes): bytes {
    [QUOTE] + (MARKER + Encode(codec.zip(Entry(body))) + [QUOTE])
  }

  lemma OneEntry(codec: Codec, depth: nat, name: string, body: bytes, token: bytes, out: bytes)
    requires Lawful(codec) && token != [] && depth > 0 && Scrub(codec, depth - 1, name, body, token) == Some(out)
    ensures ScrubZip(codec, depth, codec.zip([Item(name, body)]), token) == Some(codec.zip([Item(name, out)]))
  {
    var items := [Item(name, body)];
    AgreeingItems(items);
    assert Items(items) == items;
    assert items[..0] == [];
    assert ScrubItems(codec, depth - 1, [], token) == Some([]);
    assert [] + [Item(name, out)] == [Item(name, out)];
    assert ScrubItems(codec, depth - 1, items, token) == Some([Item(name, out)]);
  }

  lemma EntryIsScrubbed(codec: Codec, depth: nat, body: bytes, token: bytes)
    requires Lawful(codec) && token != [] && depth > 0 && !IsZip(body)
    ensures ScrubZip(codec, depth, codec.zip(Entry(body)), token) == Some(codec.zip(Entry(Replace(body, token))))
  {
    assert !IsHtml("x");
    OneEntry(codec, depth, "x", body, token, Replace(body, token));
  }

  lemma EncodingIsThere(codec: Codec, body: bytes)
    requires Lawful(codec)
    ensures Encode(codec.zip(Entry(body))) != []
  {
  }

  lemma ReportIsEmbedded(codec: Codec, depth: nat, body: bytes, token: bytes)
    requires Lawful(codec) && token != [] && depth > 0 && !IsZip(body)
    ensures Embed(codec, depth, Report(codec, body), token) == Some(Report(codec, Replace(body, token)))
  {
    var report := Report(codec, body);
    var e := Encode(codec.zip(Entry(body)));
    var inner := MARKER + e + [QUOTE];
    EncodingIsThere(codec, body);
    EntryIsScrubbed(codec, depth, body, token);
    BlobIsMeasured(e, [QUOTE]);
    assert inner[|MARKER|..|MARKER| + |e|] == e && inner[|MARKER| + |e|..] == [QUOTE];
    QuoteIsKept(codec, depth, token);
    if BlobLength(report) > 0 { MarkerBeginsWithD(report); }
    assert report[1..] == inner;
  }

  lemma QuoteIsKept(codec: Codec, depth: nat, token: bytes)
    requires token != []
    ensures Embed(codec, depth, [QUOTE], token) == Some([QUOTE])
  {
    MarkerStartsBase64();
    assert [QUOTE][1..] == [];
    assert Embed(codec, depth, [], token) == Some([]);
    assert BlobLength([QUOTE]) == 0 && [QUOTE] + [] == [QUOTE];
  }

  lemma InnerBytes(codec: Codec, body: bytes, k: nat)
    requires 0 < k < |Report(codec, body)| - 1
    ensures var b := Report(codec, body)[k];
            (IsBase64(b) || b in MARKER) && b != QUOTE
  {
    var e := Encode(codec.zip(Entry(body)));
    if k <= |MARKER| {
      assert Report(codec, body)[k] == MARKER[k - 1];
      NoQuoteInMarker(k - 1);
    } else {
      assert Report(codec, body)[k] == e[k - 1 - |MARKER|];
    }
  }

  lemma NoQuoteInMarker(k: nat)
    requires k < |MARKER|
    ensures MARKER[k] != QUOTE && MARKER[k] != SECOND[0]
  {
    var text := "data:application/zip;base64,";
    assert |MARKER| == |text|;
    assert text[k] != 34 as char && text[k] != '-' && text[k] < 128 as char;
    assert MARKER[k] == text[k] as int % 256;
  }

  // One report is in another only if it is the other.
  lemma QuotesFit(codec: Codec, body: bytes, other: bytes)
    requires Lawful(codec) && Contains(Report(codec, body), Report(codec, other))
    ensures body == other
  {
    var outer, inner := Report(codec, body), Report(codec, other);
    var i: nat :| i <= |outer| && OccursAt(outer, inner, i);
    QuotesAtEnds(outer, inner, i);
    forall k: nat | 0 < k < |outer| - 1 ensures outer[k] != QUOTE {
      InnerBytes(codec, body, k);
    }
    assert outer == inner;
    SameReports(codec, body, other);
  }

  lemma QuotesAtEnds(outer: bytes, inner: bytes, i: nat)
    requires OccursAt(outer, inner, i) && |inner| > 1 && inner[0] == QUOTE && inner[|inner| - 1] == QUOTE
    ensures outer[i] == QUOTE && outer[i + |inner| - 1] == QUOTE
  {
    var part := outer[i..i + |inner|];
    assert part[0] == outer[i] && part[|inner| - 1] == outer[i + |inner| - 1];
  }

  lemma SameReports(codec: Codec, body: bytes, other: bytes)
    requires Lawful(codec) && Report(codec, body) == Report(codec, other)
    ensures body == other
  {
    var a, b := Encode(codec.zip(Entry(body))), Encode(codec.zip(Entry(other)));
    assert Report(codec, body)[1 + |MARKER|..|Report(codec, body)| - 1] == a;
    assert Report(codec, other)[1 + |MARKER|..|Report(codec, other)| - 1] == b;
    assert codec.decode(a) == Some(codec.zip(Entry(body))) && codec.decode(b) == Some(codec.zip(Entry(other)));
    assert codec.unzip(codec.zip(Entry(body))) == Some(Entry(body));
    assert Entry(body)[0] == Entry(other)[0];
  }

  lemma NothingInside(codec: Codec, body: bytes)
    ensures !Contains(Report(codec, body), SECOND)
  {
    var report := Report(codec, body);
    forall i: nat ensures !OccursAt(report, SECOND, i) {
      if i < |report| {
        if 0 < i < |report| - 1 {
          InnerBytes(codec, body, i);
          if report[i] in MARKER { NoDash(report[i]); }
        }
        assert report[i] != SECOND[0];
        assert i + 1 <= |report| ==> report[i..i + 1][0] == report[i];
      }
    }
  }

  lemma NoDash(b: Byte)
    requires b in MARKER
    ensures b != SECOND[0]
  {
    var k :| 0 <= k < |MARKER| && MARKER[k] == b;
    NoQuoteInMarker(k);
  }

  lemma SecondIsReplaced()
    ensures Replace(SECOND, SECOND) == PLACEHOLDER && Foreign(SECOND) && !IsZip(SECOND) && !IsZip(PLACEHOLDER)
  {
    PlaceholderBytes(0);
    assert SECOND[..1] == SECOND && SECOND[1..] == [];
    assert Replace(SECOND, SECOND) == PLACEHOLDER + Replace([], SECOND);
    forall i | 0 <= i <= |WORD| ensures !OccursAt(WORD, SECOND, i) {
      assert i < |WORD| ==> WORD[i] == "scrubbed"[i] as int % 256 && "scrubbed"[i] != '-' && "scrubbed"[i] < 128 as char;
    }
  }

  // With the tokens in this order: a report that inlines an archive, `-` its only contents. The first token
  // is the same report with the placeholder for the `-`. It is nowhere in the file before the pass for the
  // second; that pass makes it the file.
  lemma EarlierTokenComesBack(codec: Codec, depth: nat)
    requires Lawful(codec) && depth > 0
    ensures var data, first := Report(codec, SECOND), Report(codec, PLACEHOLDER);
            && !Contains(data, first) && Foreign(first) && Foreign(SECOND) && |SECOND| < |first|
            && Scrub(codec, depth, "index.html", data, first) == Some(data)
            && Scrub(codec, depth, "index.html", data, SECOND) == Some(first)
  {
    var data, first := Report(codec, SECOND), Report(codec, PLACEHOLDER);
    SecondIsReplaced();
    if Contains(data, first) { QuotesFit(codec, SECOND, PLACEHOLDER); }
    ShortBody(codec, first);
    NothingToReplace(SECOND, first);
    ReportIsEmbedded(codec, depth, SECOND, first);
    NothingToReplace(data, first);
    ReportIsEmbedded(codec, depth, SECOND, SECOND);
    NothingInside(codec, PLACEHOLDER);
    NothingToReplace(first, SECOND);
    ReportIsForeign(codec, PLACEHOLDER);
    assert IsHtml("index.html");
  }

  lemma BothTokens(codec: Codec, depth: nat, name: string, data: bytes, first: bytes, second: bytes)
    requires first != [] && second != []
    ensures ScrubAll(codec, depth, name, data, [first, second]) ==
              match Scrub(codec, depth, name, data, first)
              case None => None
              case Some(between) => Scrub(codec, depth, name, between, second)
  {
    assert [first, second][..1] == [first] && [first][..0] == [];
    assert ScrubAll(codec, depth, name, data, []) == Some(data);
    assert ScrubAll(codec, depth, name, data, [first]) == Scrub(codec, depth, name, data, first);
  }

  // A report that is a file of its own is then refused.
  lemma EarlierTokenIsRefused(codec: Codec, depth: nat, files: map<string, bytes>)
    requires Lawful(codec) && depth > 0
    requires "index.html" in files && files["index.html"] == Report(codec, SECOND)
    ensures Usable([Report(codec, PLACEHOLDER), SECOND])
    ensures !Passes(codec, depth, files, "index.html", [Report(codec, PLACEHOLDER), SECOND])
  {
    var first := Report(codec, PLACEHOLDER);
    EarlierTokenComesBack(codec, depth);
    BothTokens(codec, depth, "index.html", files["index.html"], first, SECOND);
    assert OccursAt(first, first, 0);
    assert Leaked(first, [first, SECOND][0]);
  }

  // A report within an archive shows the token as well, where only the archive's own bytes are checked.
  lemma EarlierTokenComesBackInside(codec: Codec, depth: nat, name: string)
    requires Lawful(codec) && depth > 1
    ensures var data, first := Report(codec, SECOND), Report(codec, PLACEHOLDER);
            var out := codec.zip([Item("index.html", first)]);
            && first != [] && ScrubAll(codec, depth, name, codec.zip([Item("index.html", data)]), [first, SECOND]) == Some(out)
            && !AtLeaves(codec, depth, name, out, false, Lacks(first))
  {
    var data, first := Report(codec, SECOND), Report(codec, PLACEHOLDER);
    var items := [Item("index.html", first)];
    EarlierTokenComesBack(codec, depth - 1);
    OneEntry(codec, depth, "index.html", data, first, data);
    OneEntry(codec, depth, "index.html", data, SECOND, first);
    BothTokens(codec, depth, name, codec.zip([Item("index.html", data)]), first, SECOND);
    AgreeingItems(items);
    assert Items(items)[0] == items[0];
    assert OccursAt(first, first, 0);
    assert first[0] == QUOTE && !IsZip(first);
    assert !AtLeaves(codec, depth - 1, "index.html", first, false, Lacks(first));
  }

  lemma ShortBody(codec: Codec, first: bytes)
    requires first == Report(codec, PLACEHOLDER)
    ensures |first| > |MARKER| > 8 && !Contains(SECOND, first)
  {
    MarkerStartsBase64();
  }

  lemma ReportIsForeign(codec: Codec, body: bytes)
    ensures Foreign(Report(codec, body))
  {
    var report := Report(codec, body);
    MarkerStartsBase64();
    assert |WORD| == |"scrubbed"| == 8;
    forall k | 0 <= k < |report| ensures report[k] != OPEN && report[k] != CLOSE {
      if 0 < k < |report| - 1 {
        InnerBytes(codec, body, k);
        if report[k] in MARKER {
          var i :| 0 <= i < |MARKER| && MARKER[i] == report[k];
          MarkerBytes(i);
        }
      }
    }
  }
}
