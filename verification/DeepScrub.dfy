// scripts/scrub-e2e-token.py over whole files: what holds at every leaf, through archives within archives
// and archives inlined in html reports, after one pass, after all, and after a second run.
module DeepScrub {
  import opened Text
  import opened Bytes
  import opened Base64
  import opened Replacement
  import opened ScrubToken
  import opened InlineArchives
  import opened BlobOverlap
  import opened Respelling
  import opened Fences

  // What is asked of a leaf: of how much deeper the recursion may go, of whether the leaf is html, and of
  // its bytes.
  type Property = (nat, bool, bytes) -> bool

  // Everything can be read and every leaf is as asked; with `deep`, in inline archives too.
  ghost predicate AtLeaves(codec: Codec, depth: nat, name: string, data: bytes, deep: bool, P: Property)
    decreases depth, 1
  {
    if IsZip(data) then AtZipLeaves(codec, depth, data, deep, P)
    else
      && P(depth, IsHtml(name), data)
      && (deep && IsHtml(name) ==> forall i :: 0 <= i < |Blobs(data)| ==> AtBlobLeaves(codec, depth, Blobs(data)[i], deep, P))
  }

  ghost predicate AtBlobLeaves(codec: Codec, depth: nat, blob: bytes, deep: bool, P: Property)
    decreases depth, 0, 1
  {
    codec.decode(blob).Some? && AtZipLeaves(codec, depth, codec.decode(blob).value, deep, P)
  }

  ghost predicate AtZipLeaves(codec: Codec, depth: nat, data: bytes, deep: bool, P: Property)
    decreases depth, 0, 0
  {
    && depth > 0 && codec.unzip(data).Some?
    && var items := Items(codec.unzip(data).value);
       forall i :: 0 <= i < |items| ==> AtLeaves(codec, depth - 1, items[i].name, items[i].body, deep, P)
  }

  // The data is what `zip` and `b64encode` write, all the way down.
  ghost predicate Neat(codec: Codec, depth: nat, name: string, data: bytes, deep: bool)
    decreases depth, 1
  {
    if IsZip(data) then NeatZip(codec, depth, data, deep)
    else deep && IsHtml(name) ==>
           forall i :: 0 <= i < |Blobs(data)| ==> NeatBlob(codec, depth, Blobs(data)[i], deep)
  }

  ghost predicate NeatBlob(codec: Codec, depth: nat, blob: bytes, deep: bool)
    decreases depth, 0, 1
  {
    && codec.decode(blob).Some? && blob == Encode(codec.decode(blob).value)
    && NeatZip(codec, depth, codec.decode(blob).value, deep)
  }

  ghost predicate NeatZip(codec: Codec, depth: nat, data: bytes, deep: bool)
    decreases depth, 0, 0
  {
    && depth > 0 && codec.unzip(data).Some?
    && var items := codec.unzip(data).value;
       && Items(items) == items && data == codec.zip(items)
       && forall i :: 0 <= i < |items| ==> Neat(codec, depth - 1, items[i].name, items[i].body, deep)
  }

  // A file without its contents.
  datatype Shape = Leaf | Html(inlined: seq<Shape>) | Archive(entries: seq<(string, Shape)>) | Unreadable

  ghost function ShapeOf(codec: Codec, depth: nat, name: string, data: bytes, deep: bool): Shape
    decreases depth, 1
  {
    if IsZip(data) then ZipShape(codec, depth, data, deep)
    else if deep && IsHtml(name) then
      var blobs := Blobs(data);
      Html(seq(|blobs|, i requires 0 <= i < |blobs| => BlobShape(codec, depth, blobs[i], deep)))
    else Leaf
  }

  ghost function BlobShape(codec: Codec, depth: nat, blob: bytes, deep: bool): Shape
    decreases depth, 0, 1
  {
    if codec.decode(blob).None? then Unreadable else ZipShape(codec, depth, codec.decode(blob).value, deep)
  }

  ghost function ZipShape(codec: Codec, depth: nat, data: bytes, deep: bool): Shape
    decreases depth, 0, 0
  {
    if depth == 0 || codec.unzip(data).None? then Unreadable
    else
      var items := Items(codec.unzip(data).value);
      Archive(seq(|items|, i requires 0 <= i < |items| =>
        (items[i].name, ShapeOf(codec, depth - 1, items[i].name, items[i].body, deep))))
  }

  // The properties

  function TextOf(codec: Codec, depth: nat, html: bool, leaf: bytes, token: bytes): Option<bytes>
    requires token != []
  {
    if html then Embed(codec, depth, leaf, token) else Some(leaf)
  }

  ghost function Readable(): Property {
    (_: nat, _: bool, _: bytes) => true
  }

  ghost function Lacks(needle: bytes): Property {
    (_: nat, _: bool, leaf: bytes) => !Contains(leaf, needle)
  }

  ghost function LacksAll(needles: seq<bytes>): Property {
    (_: nat, _: bool, leaf: bytes) => forall i :: 0 <= i < |needles| ==> !Contains(leaf, needles[i])
  }

  ghost function PlainLacksAll(needles: seq<bytes>): Property {
    (_: nat, html: bool, leaf: bytes) => !html ==> forall i :: 0 <= i < |needles| ==> !Contains(leaf, needles[i])
  }

  // Asked of the leaf once the token is replaced.
  ghost function After(codec: Codec, token: bytes, P: Property): Property
    requires token != []
  {
    (depth: nat, html: bool, leaf: bytes) =>
      var text := TextOf(codec, depth, html, leaf, token);
      text.Some? ==> P(depth, html, Replace(text.value, token))
  }

  // No replaced occurrence of the token overlaps an inline archive.
  ghost function Spared(codec: Codec, token: bytes): Property
    requires token != []
  {
    (depth: nat, html: bool, leaf: bytes) =>
      html && Embed(codec, depth, leaf, token).Some? ==> !Overlaps(Embed(codec, depth, leaf, token).value, token)
  }

  // The pass for the token brings none of the needles about in an inline archive it encodes anew.
  ghost function NoneRespelled(codec: Codec, token: bytes, needles: seq<bytes>): Property
    requires token != []
  {
    (depth: nat, html: bool, leaf: bytes) =>
      html && Embed(codec, depth, leaf, token).Some? ==>
        RespellsNone(Embed(codec, depth, leaf, token).value, token, needles)
  }

  // None of the needles is left in an html report where the pass for the token replaces nothing.
  ghost function NoneSurvives(codec: Codec, token: bytes, needles: seq<bytes>): Property
    requires token != []
  {
    (depth: nat, html: bool, leaf: bytes) =>
      html && Embed(codec, depth, leaf, token).Some? ==>
        forall i :: 0 <= i < |needles| ==> !SomeSurvives(Embed(codec, depth, leaf, token).value, token, needles[i])
  }

  // None of the needles occurs inside an inline archive that the pass for the token encodes anew.
  ghost function NoneInside(codec: Codec, token: bytes, needles: seq<bytes>): Property
    requires token != []
  {
    (depth: nat, html: bool, leaf: bytes) =>
      html && Embed(codec, depth, leaf, token).Some? ==>
        HasNoneInside(Embed(codec, depth, leaf, token).value, needles)
  }

  // In html reports every inline archive stands between bytes that no token has.
  ghost function FencedFrom(tokens: seq<bytes>): Property {
    (_: nat, html: bool, leaf: bytes) => html ==> IsFencedFrom(leaf, tokens)
  }

  ghost predicate Entails(P: Property, Q: Property, R: Property) {
    forall depth: nat, html: bool, leaf: bytes :: P(depth, html, leaf) && Q(depth, html, leaf) ==> R(depth, html, leaf)
  }

  lemma {:induction false} LeafByLeaf(codec: Codec, depth: nat, name: string, data: bytes, deep: bool, P: Property, Q: Property,
                                      R: Property)
    requires AtLeaves(codec, depth, name, data, deep, P) && AtLeaves(codec, depth, name, data, deep, Q) && Entails(P, Q, R)
    ensures AtLeaves(codec, depth, name, data, deep, R)
    decreases depth, 1
  {
    if IsZip(data) {
      ZipLeafByLeaf(codec, depth, data, deep, P, Q, R);
    } else if deep && IsHtml(name) {
      forall i | 0 <= i < |Blobs(data)|
        ensures AtBlobLeaves(codec, depth, Blobs(data)[i], deep, R)
      {
        assert AtBlobLeaves(codec, depth, Blobs(data)[i], deep, P) && AtBlobLeaves(codec, depth, Blobs(data)[i], deep, Q);
        ZipLeafByLeaf(codec, depth, codec.decode(Blobs(data)[i]).value, deep, P, Q, R);
      }
    }
  }

  lemma {:induction false} ZipLeafByLeaf(codec: Codec, depth: nat, data: bytes, deep: bool, P: Property, Q: Property, R: Property)
    requires AtZipLeaves(codec, depth, data, deep, P) && AtZipLeaves(codec, depth, data, deep, Q) && Entails(P, Q, R)
    ensures AtZipLeaves(codec, depth, data, deep, R)
    decreases depth, 0
  {
    var items := Items(codec.unzip(data).value);
    forall i | 0 <= i < |items| ensures AtLeaves(codec, depth - 1, items[i].name, items[i].body, deep, R) {
      LeafByLeaf(codec, depth - 1, items[i].name, items[i].body, deep, P, Q, R);
    }
  }

  // When a pass succeeds

  lemma {:induction false} ItemsSucceedExactly(codec: Codec, depth: nat, items: seq<Item>, token: bytes)
    requires token != []
    ensures ScrubItems(codec, depth, items, token).Some? <==>
              forall i :: 0 <= i < |items| ==> Scrub(codec, depth, items[i].name, items[i].body, token).Some?
  {
    if items != [] {
      ItemsSucceedExactly(codec, depth, items[..|items| - 1], token);
    }
  }

  ghost predicate BlobScrubs(codec: Codec, depth: nat, blob: bytes, token: bytes)
    requires token != []
  {
    codec.decode(blob).Some? && ScrubZip(codec, depth, codec.decode(blob).value, token).Some?
  }

  ghost predicate AllScrub(codec: Codec, depth: nat, blobs: seq<bytes>, token: bytes)
    requires token != []
  {
    forall i :: 0 <= i < |blobs| ==> BlobScrubs(codec, depth, blobs[i], token)
  }

  lemma FirstAndRest(codec: Codec, depth: nat, blob: bytes, rest: seq<bytes>, token: bytes)
    requires token != []
    ensures AllScrub(codec, depth, [blob] + rest, token) <==> BlobScrubs(codec, depth, blob, token) && AllScrub(codec, depth, rest, token)
  {
    var all := [blob] + rest;
    assert all[0] == blob && forall i :: 0 <= i < |rest| ==> rest[i] == all[i + 1];
  }

  lemma {:induction false} EmbedSucceedsExactly(codec: Codec, depth: nat, data: bytes, token: bytes)
    requires token != []
    ensures Embed(codec, depth, data, token).Some? <==> AllScrub(codec, depth, Blobs(data), token)
    decreases |data|
  {
    if data != [] {
      var rest := data[Step(data)..];
      EmbedSucceedsExactly(codec, depth, rest, token);
      if BlobLength(data) > 0 {
        FirstAndRest(codec, depth, data[|MARKER|..|MARKER| + BlobLength(data)], Blobs(rest), token);
      }
    }
  }

  lemma {:induction false} BlobSucceedsExactly(codec: Codec, depth: nat, blob: bytes, token: bytes)
    requires token != []
    ensures BlobScrubs(codec, depth, blob, token) <==> AtBlobLeaves(codec, depth, blob, true, Readable())
    decreases depth, 1
  {
    if codec.decode(blob).Some? {
      ZipSucceedsExactly(codec, depth, codec.decode(blob).value, token);
    }
  }

  // A pass, for whatever token, fails exactly when something at some depth cannot be read.
  lemma {:induction false} ScrubSucceedsExactly(codec: Codec, depth: nat, name: string, data: bytes, token: bytes)
    requires token != []
    ensures Scrub(codec, depth, name, data, token).Some? <==> AtLeaves(codec, depth, name, data, true, Readable())
    decreases depth, 2
  {
    if IsZip(data) {
      ZipSucceedsExactly(codec, depth, data, token);
    } else if IsHtml(name) {
      EmbedSucceedsExactly(codec, depth, data, token);
      var blobs := Blobs(data);
      forall i | 0 <= i < |blobs|
        ensures BlobScrubs(codec, depth, blobs[i], token) <==> AtBlobLeaves(codec, depth, blobs[i], true, Readable())
      {
        BlobSucceedsExactly(codec, depth, blobs[i], token);
      }
    }
  }

  lemma {:induction false} ZipSucceedsExactly(codec: Codec, depth: nat, data: bytes, token: bytes)
    requires token != []
    ensures ScrubZip(codec, depth, data, token).Some? <==> AtZipLeaves(codec, depth, data, true, Readable())
    decreases depth, 0
  {
    if depth > 0 && codec.unzip(data).Some? {
      var items := Items(codec.unzip(data).value);
      ItemsSucceedExactly(codec, depth - 1, items, token);
      forall i | 0 <= i < |items|
        ensures Scrub(codec, depth - 1, items[i].name, items[i].body, token).Some? <==>
                  AtLeaves(codec, depth - 1, items[i].name, items[i].body, true, Readable())
      {
        ScrubSucceedsExactly(codec, depth - 1, items[i].name, items[i].body, token);
      }
    }
  }

  // One pass

  ghost predicate Follows(codec: Codec, depth: nat, name: string, data: bytes, out: bytes, deep: bool, token: bytes, P: Property)
    requires token != []
  {
    && Neat(codec, depth, name, out, deep)
    && ShapeOf(codec, depth, name, out, deep) == ShapeOf(codec, depth, name, data, deep)
    && (AtLeaves(codec, depth, name, out, deep, P) <==> AtLeaves(codec, depth, name, data, deep, After(codec, token, P)))
  }

  ghost predicate ZipFollows(codec: Codec, depth: nat, data: bytes, out: bytes, deep: bool, token: bytes, P: Property)
    requires token != []
  {
    && IsZip(out) && NeatZip(codec, depth, out, deep)
    && ZipShape(codec, depth, out, deep) == ZipShape(codec, depth, data, deep)
    && (AtZipLeaves(codec, depth, out, deep, P) <==> AtZipLeaves(codec, depth, data, deep, After(codec, token, P)))
  }

  ghost predicate ItemFollows(codec: Codec, depth: nat, item: Item, out: Item, deep: bool, token: bytes, P: Property)
    requires token != []
  {
    out.name == item.name && Follows(codec, depth, item.name, item.body, out.body, deep, token, P)
  }

  lemma ZipFromItems(codec: Codec, depth: nat, data: bytes, items: seq<Item>, out: seq<Item>, deep: bool, token: bytes, P: Property)
    requires token != [] && depth > 0 && codec.unzip(data).Some? && items == Items(codec.unzip(data).value)
    requires codec.unzip(codec.zip(out)) == Some(out) && Items(out) == out && IsZip(codec.zip(out)) && |out| == |items|
    requires forall i :: 0 <= i < |items| ==> ItemFollows(codec, depth - 1, items[i], out[i], deep, token, P)
    ensures ZipFollows(codec, depth, data, codec.zip(out), deep, token, P)
  {
    assert forall i :: 0 <= i < |items| ==> ItemFollows(codec, depth - 1, items[i], out[i], deep, token, P);
    assert ZipShape(codec, depth, codec.zip(out), deep).entries == ZipShape(codec, depth, data, deep).entries;
  }

  ghost predicate EntryPasses(codec: Codec, depth: nat, item: Item, out: Item, deep: bool, token: bytes)
    requires token != []
  {
    && out.name == item.name && Scrub(codec, depth, item.name, item.body, token) == Some(out.body)
    && (deep ==> AtLeaves(codec, depth, item.name, item.body, deep, Spared(codec, token)))
  }

  lemma ZipEntries(codec: Codec, depth: nat, data: bytes, deep: bool, token: bytes) returns (items: seq<Item>, out: seq<Item>)
    requires Lawful(codec) && token != [] && ScrubZip(codec, depth, data, token).Some?
    requires deep ==> AtZipLeaves(codec, depth, data, deep, Spared(codec, token))
    ensures depth > 0 && codec.unzip(data).Some? && items == Items(codec.unzip(data).value) && |out| == |items|
    ensures ScrubZip(codec, depth, data, token) == Some(codec.zip(out))
    ensures codec.unzip(codec.zip(out)) == Some(out) && Items(out) == out && IsZip(codec.zip(out))
    ensures forall i :: 0 <= i < |items| ==> EntryPasses(codec, depth - 1, items[i], out[i], deep, token)
  {
    ZipIsReread(codec, depth, data, token);
    items := Items(codec.unzip(data).value);
    out := ScrubItems(codec, depth - 1, items, token).value;
    EntriesPass(codec, depth - 1, items, deep, token);
  }

  lemma EntriesPass(codec: Codec, depth: nat, items: seq<Item>, deep: bool, token: bytes)
    requires token != [] && ScrubItems(codec, depth, items, token).Some?
    requires deep ==> forall i :: 0 <= i < |items| ==>
               AtLeaves(codec, depth, items[i].name, items[i].body, deep, Spared(codec, token))
    ensures var out := ScrubItems(codec, depth, items, token).value;
            |out| == |items| && forall i :: 0 <= i < |items| ==> EntryPasses(codec, depth, items[i], out[i], deep, token)
  {
    ItemsAreScrubbed(codec, depth, items, token);
  }

  lemma {:induction false} ZipPass(codec: Codec, depth: nat, data: bytes, deep: bool, token: bytes, P: Property)
    requires Lawful(codec) && token != [] && ScrubZip(codec, depth, data, token).Some?
    requires deep ==> AtZipLeaves(codec, depth, data, deep, Spared(codec, token))
    ensures ZipFollows(codec, depth, data, ScrubZip(codec, depth, data, token).value, deep, token, P)
    decreases depth, 0
  {
    var items, out := ZipEntries(codec, depth, data, deep, token);
    forall i | 0 <= i < |items| ensures ItemFollows(codec, depth - 1, items[i], out[i], deep, token, P) {
      ItemPass(codec, depth - 1, items[i], out[i], deep, token, P);
    }
    ZipFromItems(codec, depth, data, items, out, deep, token, P);
  }

  lemma {:induction false} ItemPass(codec: Codec, depth: nat, item: Item, out: Item, deep: bool, token: bytes, P: Property)
    requires Lawful(codec) && token != [] && EntryPasses(codec, depth, item, out, deep, token)
    ensures ItemFollows(codec, depth, item, out, deep, token, P)
    decreases depth, 4
  {
    Pass(codec, depth, item.name, item.body, deep, token, P);
  }

  lemma SameSignature(a: bytes, b: bytes)
    requires |a| >= 2 && |b| >= 2 && a[..2] == b[..2]
    ensures IsZip(a) == IsZip(b)
  {
    assert a[0] == a[..2][0] == b[0] && a[1] == a[..2][1] == b[1];
  }

  lemma TextStaysLeaf(codec: Codec, depth: nat, html: bool, data: bytes, token: bytes)
    requires token != [] && !IsZip(data) && TextOf(codec, depth, html, data, token).Some?
    ensures !IsZip(Replace(TextOf(codec, depth, html, data, token).value, token))
  {
    var text := TextOf(codec, depth, html, data, token).value;
    if html && |text| >= 2 {
      MarkerStartsBase64();
      FrontIsKept(codec, depth, data, token, 2);
      SameSignature(text, data);
    }
    LeafStaysLeaf(text, token);
  }

  ghost predicate BlobFollows(codec: Codec, depth: nat, blob: bytes, out: bytes, token: bytes, P: Property)
    requires token != []
  {
    && NeatBlob(codec, depth, out, true) && BlobShape(codec, depth, out, true) == BlobShape(codec, depth, blob, true)
    && (AtBlobLeaves(codec, depth, out, true, P) <==> AtBlobLeaves(codec, depth, blob, true, After(codec, token, P)))
  }

  lemma {:induction false} BlobPass(codec: Codec, depth: nat, blob: bytes, out: bytes, token: bytes, P: Property)
    requires Lawful(codec) && token != [] && Rewrites(codec, depth, blob, token, out)
    requires AtBlobLeaves(codec, depth, blob, true, Spared(codec, token))
    ensures BlobFollows(codec, depth, blob, out, token, P)
    decreases depth, 1
  {
    ZipPass(codec, depth, codec.decode(blob).value, true, token, P);
  }

  ghost predicate AllFollow(codec: Codec, depth: nat, blobs: seq<bytes>, out: seq<bytes>, token: bytes, P: Property)
    requires token != []
  {
    |out| == |blobs| && forall i :: 0 <= i < |out| ==> BlobFollows(codec, depth, blobs[i], out[i], token, P)
  }

  lemma HtmlIsNeat(codec: Codec, depth: nat, name: string, data: bytes, out: bytes, token: bytes, P: Property)
    requires token != [] && !IsZip(out) && IsHtml(name) && AllFollow(codec, depth, Blobs(data), Blobs(out), token, P)
    ensures Neat(codec, depth, name, out, true)
  {
    var blobs := Blobs(out);
    forall i | 0 <= i < |blobs| ensures NeatBlob(codec, depth, blobs[i], true) {
      assert BlobFollows(codec, depth, Blobs(data)[i], blobs[i], token, P);
    }
  }

  lemma AfterIs(codec: Codec, depth: nat, html: bool, leaf: bytes, token: bytes, P: Property)
    requires token != [] && TextOf(codec, depth, html, leaf, token).Some?
    ensures var text := TextOf(codec, depth, html, leaf, token).value;
            After(codec, token, P)(depth, html, leaf) <==> P(depth, html, Replace(text, token))
  {
  }

  lemma SameHtmlLeaves(codec: Codec, depth: nat, name: string, data: bytes, out: bytes, token: bytes, P: Property)
    requires token != [] && !IsZip(data) && !IsZip(out) && IsHtml(name)
    requires Embed(codec, depth, data, token).Some? && out == Replace(Embed(codec, depth, data, token).value, token)
    requires AllFollow(codec, depth, Blobs(data), Blobs(out), token, P)
    ensures AtLeaves(codec, depth, name, out, true, P) <==> AtLeaves(codec, depth, name, data, true, After(codec, token, P))
  {
    var Q := After(codec, token, P);
    AfterIs(codec, depth, true, data, token, P);
    var blobs, blobs' := Blobs(data), Blobs(out);
    forall i | 0 <= i < |blobs|
      ensures AtBlobLeaves(codec, depth, blobs'[i], true, P) <==> AtBlobLeaves(codec, depth, blobs[i], true, Q)
    {
      assert BlobFollows(codec, depth, blobs[i], blobs'[i], token, P);
    }
  }

  lemma SameHtmlShape(codec: Codec, depth: nat, name: string, data: bytes, out: bytes, token: bytes, P: Property)
    requires token != [] && !IsZip(data) && !IsZip(out) && IsHtml(name)
    requires AllFollow(codec, depth, Blobs(data), Blobs(out), token, P)
    ensures ShapeOf(codec, depth, name, out, true) == ShapeOf(codec, depth, name, data, true)
  {
    assert forall i :: 0 <= i < |Blobs(out)| ==> BlobFollows(codec, depth, Blobs(data)[i], Blobs(out)[i], token, P);
    assert ShapeOf(codec, depth, name, out, true).inlined == ShapeOf(codec, depth, name, data, true).inlined;
  }

  lemma {:induction false} HtmlPass(codec: Codec, depth: nat, name: string, data: bytes, token: bytes, P: Property)
    requires Lawful(codec) && token != [] && !IsZip(data) && IsHtml(name)
    requires Scrub(codec, depth, name, data, token).Some? && AtLeaves(codec, depth, name, data, true, Spared(codec, token))
    ensures Follows(codec, depth, name, data, Scrub(codec, depth, name, data, token).value, true, token, P)
    decreases depth, 2
  {
    var text := Embed(codec, depth, data, token).value;
    var out := Replace(text, token);
    ReplaceKeepsBlobs(text, token);
    EmbedRewritesBlobs(codec, depth, data, token);
    forall i | 0 <= i < |Blobs(out)| ensures BlobFollows(codec, depth, Blobs(data)[i], Blobs(out)[i], token, P) {
      assert Rewrites(codec, depth, Blobs(data)[i], token, Blobs(text)[i]);
      BlobPass(codec, depth, Blobs(data)[i], Blobs(out)[i], token, P);
    }
    TextStaysLeaf(codec, depth, true, data, token);
    HtmlIsNeat(codec, depth, name, data, out, token, P);
    SameHtmlShape(codec, depth, name, data, out, token, P);
    SameHtmlLeaves(codec, depth, name, data, out, token, P);
  }

  // A property holds at every leaf after a pass exactly if, before it, it holds at every leaf of what
  // replacing makes of it. The archives are written anew and keep their shape.
  lemma {:induction false} Pass(codec: Codec, depth: nat, name: string, data: bytes, deep: bool, token: bytes, P: Property)
    requires Lawful(codec) && token != [] && Scrub(codec, depth, name, data, token).Some?
    requires deep ==> AtLeaves(codec, depth, name, data, deep, Spared(codec, token))
    ensures Follows(codec, depth, name, data, Scrub(codec, depth, name, data, token).value, deep, token, P)
    decreases depth, 3
  {
    if IsZip(data) {
      ZipPass(codec, depth, data, deep, token, P);
    } else if deep && IsHtml(name) {
      HtmlPass(codec, depth, name, data, token, P);
    } else {
      TextStaysLeaf(codec, depth, IsHtml(name), data, token);
    }
  }
}
