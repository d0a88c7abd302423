// What scripts/scrub-e2e-token.py leaves of a file: no token at any depth, and nothing for a second run.
module ScrubbedFiles {
  import opened Text
  import opened Bytes
  import opened Base64
  import opened Replacement
  import opened ScrubToken
  import opened InlineArchives
  import opened BlobOverlap
  import opened Respelling
  import opened DeepScrub

  // One pass

  lemma ReplacedEverywhere(codec: Codec, token: bytes)
    requires Foreign(token)
    ensures Entails(Readable(), Readable(), After(codec, token, Lacks(token)))
  {
    forall depth: nat, html: bool, leaf: bytes ensures After(codec, token, Lacks(token))(depth, html, leaf) {
      var text := TextOf(codec, depth, html, leaf, token);
      if text.Some? { TokenIsGone(text.value, token); }
    }
  }

  lemma {:induction false} AlsoShallow(codec: Codec, depth: nat, name: string, data: bytes, P: Property)
    requires AtLeaves(codec, depth, name, data, true, P)
    ensures AtLeaves(codec, depth, name, data, false, P)
    decreases depth
  {
    if IsZip(data) {
      var items := Items(codec.unzip(data).value);
      forall i | 0 <= i < |items| ensures AtLeaves(codec, depth - 1, items[i].name, items[i].body, false, P) {
        AlsoShallow(codec, depth - 1, items[i].name, items[i].body, P);
      }
    }
  }

  // After a pass no leaf at any depth shows the token, whatever the html reports hold; if it overlaps none
  // of the archives inlined in them, no leaf of those does either.
  lemma PassIsClean(codec: Codec, depth: nat, name: string, data: bytes, deep: bool, token: bytes)
    requires Lawful(codec) && Foreign(token) && Scrub(codec, depth, name, data, token).Some?
    requires deep ==> AtLeaves(codec, depth, name, data, deep, Spared(codec, token))
    ensures var out := Scrub(codec, depth, name, data, token).value;
            && AtLeaves(codec, depth, name, out, deep, Lacks(token)) && Neat(codec, depth, name, out, deep)
            && ShapeOf(codec, depth, name, out, deep) == ShapeOf(codec, depth, name, data, deep)
  {
    ScrubSucceedsExactly(codec, depth, name, data, token);
    AlsoShallow(codec, depth, name, data, Readable());
    ReplacedEverywhere(codec, token);
    LeafByLeaf(codec, depth, name, data, deep, Readable(), Readable(), After(codec, token, Lacks(token)));
    Pass(codec, depth, name, data, deep, token, Lacks(token));
  }

  // Several needles, one pass

  lemma OneLacksAfter(codec: Codec, depth: nat, html: bool, leaf: bytes, token: bytes, needle: bytes, text: bytes)
    requires Lawful(codec) && token != [] && Foreign(needle) && TextOf(codec, depth, html, leaf, token) == Some(text)
    ensures !html && !Contains(leaf, needle) ==> !Contains(Replace(text, token), needle)
    ensures html && !Contains(leaf, needle) ==> (Contains(Replace(text, token), needle) <==> Respelled(text, token, needle))
    ensures Contains(Replace(text, token), needle) <==> SomeSurvives(text, token, needle)
  {
    OccursAfterExactly(text, token, needle);
    if !Contains(leaf, needle) {
      if html {
        EarlierReturnsExactly(codec, depth, leaf, token, needle);
      } else {
        OthersStayGone(leaf, token, needle);
      }
    }
  }

  lemma LeafLacksAfter(codec: Codec, depth: nat, html: bool, leaf: bytes, token: bytes, needles: seq<bytes>)
    requires Lawful(codec) && token != [] && AllForeign(needles)
    ensures LacksAll(needles)(depth, html, leaf) ==>
              (After(codec, token, LacksAll(needles))(depth, html, leaf) <==> NoneRespelled(codec, token, needles)(depth, html, leaf))
    ensures PlainLacksAll(needles)(depth, html, leaf) ==>
              (After(codec, token, LacksAll(needles))(depth, html, leaf) <==> NoneSurvives(codec, token, needles)(depth, html, leaf))
  {
    var found := TextOf(codec, depth, html, leaf, token);
    if found.Some? {
      var text := found.value;
      AfterIs(codec, depth, html, leaf, token, LacksAll(needles));
      forall i | 0 <= i < |needles|
        ensures !html && !Contains(leaf, needles[i]) ==> !Contains(Replace(text, token), needles[i])
        ensures html && !Contains(leaf, needles[i]) ==>
                  (Contains(Replace(text, token), needles[i]) <==> Respelled(text, token, needles[i]))
        ensures Contains(Replace(text, token), needles[i]) <==> SomeSurvives(text, token, needles[i])
      {
        OneLacksAfter(codec, depth, html, leaf, token, needles[i], text);
      }
    }
  }

  lemma SameAtLeaves(codec: Codec, depth: nat, name: string, data: bytes, deep: bool, P: Property, Q: Property, R: Property)
    requires AtLeaves(codec, depth, name, data, deep, P)
    requires forall d: nat, html: bool, leaf: bytes | P(d, html, leaf) :: Q(d, html, leaf) <==> R(d, html, leaf)
    ensures AtLeaves(codec, depth, name, data, deep, Q) <==> AtLeaves(codec, depth, name, data, deep, R)
  {
    if AtLeaves(codec, depth, name, data, deep, Q) { LeafByLeaf(codec, depth, name, data, deep, P, Q, R); }
    if AtLeaves(codec, depth, name, data, deep, R) { LeafByLeaf(codec, depth, name, data, deep, P, R, Q); }
  }

  // What was gone before a pass stays gone exactly if the pass does not bring it about in an inline
  // archive. This holds of the leaves outside inline archives whatever they hold, and of all leaves if the
  // token overlaps no inline archive.
  lemma EarlierStayGoneExactly(codec: Codec, depth: nat, name: string, data: bytes, deep: bool, token: bytes,
                               needles: seq<bytes>)
    requires Lawful(codec) && token != [] && AllForeign(needles) && Scrub(codec, depth, name, data, token).Some?
    requires deep ==> AtLeaves(codec, depth, name, data, deep, Spared(codec, token))
    requires AtLeaves(codec, depth, name, data, deep, LacksAll(needles))
    ensures AtLeaves(codec, depth, name, Scrub(codec, depth, name, data, token).value, deep, LacksAll(needles))
            <==> AtLeaves(codec, depth, name, data, deep, NoneRespelled(codec, token, needles))
  {
    var lacks, after, stays := LacksAll(needles), After(codec, token, LacksAll(needles)), NoneRespelled(codec, token, needles);
    forall d: nat, html: bool, leaf: bytes | lacks(d, html, leaf) ensures after(d, html, leaf) <==> stays(d, html, leaf) {
      LeafLacksAfter(codec, d, html, leaf, token, needles);
    }
    Pass(codec, depth, name, data, deep, token, lacks);
    SameAtLeaves(codec, depth, name, data, deep, lacks, after, stays);
  }

  // A pass over what is neat and lacks the token

  lemma {:induction false} UnchangedItems(codec: Codec, depth: nat, items: seq<Item>, token: bytes)
    requires token != []
    requires forall i :: 0 <= i < |items| ==> Scrub(codec, depth, items[i].name, items[i].body, token) == Some(items[i].body)
    ensures ScrubItems(codec, depth, items, token) == Some(items)
  {
    if items != [] {
      UnchangedItems(codec, depth, items[..|items| - 1], token);
      assert items == items[..|items| - 1] + [items[|items| - 1]];
    }
  }

  ghost predicate IsFixed(codec: Codec, depth: nat, blob: bytes, token: bytes)
    requires token != []
  {
    && codec.decode(blob).Some? && blob == Encode(codec.decode(blob).value)
    && ScrubZip(codec, depth, codec.decode(blob).value, token) == codec.decode(blob)
  }

  ghost predicate AllFixed(codec: Codec, depth: nat, blobs: seq<bytes>, token: bytes)
    requires token != []
  {
    forall i :: 0 <= i < |blobs| ==> IsFixed(codec, depth, blobs[i], token)
  }

  lemma FirstFixed(codec: Codec, depth: nat, blob: bytes, rest: seq<bytes>, token: bytes)
    requires token != [] && AllFixed(codec, depth, [blob] + rest, token)
    ensures IsFixed(codec, depth, blob, token) && AllFixed(codec, depth, rest, token)
  {
    var all := [blob] + rest;
    assert all[0] == blob && forall i :: 0 <= i < |rest| ==> rest[i] == all[i + 1];
  }

  lemma {:induction false} EmbedUnchanged(codec: Codec, depth: nat, data: bytes, token: bytes)
    requires token != [] && AllFixed(codec, depth, Blobs(data), token)
    ensures Embed(codec, depth, data, token) == Some(data)
    decreases |data|
  {
    if data != [] {
      var rest := data[Step(data)..];
      if BlobLength(data) > 0 {
        var blob := data[|MARKER|..Step(data)];
        FirstFixed(codec, depth, blob, Blobs(rest), token);
        EmbedUnchanged(codec, depth, rest, token);
        assert data == MARKER + blob + rest;
      } else {
        EmbedUnchanged(codec, depth, rest, token);
        assert data == [data[0]] + rest;
      }
    }
  }

  lemma {:induction false} NeatIsUnchanged(codec: Codec, depth: nat, name: string, data: bytes, token: bytes)
    requires token != [] && Neat(codec, depth, name, data, true) && AtLeaves(codec, depth, name, data, true, Lacks(token))
    ensures Scrub(codec, depth, name, data, token) == Some(data)
    decreases depth, 2
  {
    if IsZip(data) {
      NeatZipIsUnchanged(codec, depth, data, token);
    } else {
      NothingToReplace(data, token);
      if IsHtml(name) {
        var blobs := Blobs(data);
        forall i | 0 <= i < |blobs| ensures IsFixed(codec, depth, blobs[i], token) {
          NeatBlobIsFixed(codec, depth, blobs[i], token);
        }
        EmbedUnchanged(codec, depth, data, token);
      }
    }
  }

  lemma {:induction false} NeatBlobIsFixed(codec: Codec, depth: nat, blob: bytes, token: bytes)
    requires token != [] && NeatBlob(codec, depth, blob, true) && AtBlobLeaves(codec, depth, blob, true, Lacks(token))
    ensures IsFixed(codec, depth, blob, token)
    decreases depth, 1
  {
    NeatZipIsUnchanged(codec, depth, codec.decode(blob).value, token);
  }

  lemma {:induction false} NeatZipIsUnchanged(codec: Codec, depth: nat, data: bytes, token: bytes)
    requires token != [] && NeatZip(codec, depth, data, true) && AtZipLeaves(codec, depth, data, true, Lacks(token))
    ensures ScrubZip(codec, depth, data, token) == Some(data)
    decreases depth, 0
  {
    var items := codec.unzip(data).value;
    forall i | 0 <= i < |items|
      ensures Scrub(codec, depth - 1, items[i].name, items[i].body, token) == Some(items[i].body)
    {
      NeatIsUnchanged(codec, depth - 1, items[i].name, items[i].body, token);
    }
    UnchangedItems(codec, depth - 1, items, token);
  }

  // All tokens

  ghost predicate AllForeign(tokens: seq<bytes>) {
    forall i :: 0 <= i < |tokens| ==> Foreign(tokens[i])
  }

  function Earlier(tokens: seq<bytes>): seq<bytes>
    requires tokens != []
  {
    tokens[..|tokens| - 1]
  }

  function Last(tokens: seq<bytes>): bytes
    requires tokens != []
  {
    tokens[|tokens| - 1]
  }

  // No pass of the run overlaps an inline archive.
  ghost predicate SparedRun(codec: Codec, depth: nat, name: string, data: bytes, tokens: seq<bytes>)
    requires AllForeign(tokens)
  {
    tokens != [] ==>
      && SparedRun(codec, depth, name, data, Earlier(tokens))
      && var before := ScrubAll(codec, depth, name, data, Earlier(tokens));
         before.Some? ==> AtLeaves(codec, depth, name, before.value, true, Spared(codec, Last(tokens)))
  }

  lemma ReadableBefore(codec: Codec, depth: nat, name: string, data: bytes, deep: bool, token: bytes)
    requires token != [] && Scrub(codec, depth, name, data, token).Some?
    ensures AtLeaves(codec, depth, name, data, deep, Readable())
  {
    ScrubSucceedsExactly(codec, depth, name, data, token);
    AlsoShallow(codec, depth, name, data, Readable());
  }

  lemma PlainLeafLacksAfter(codec: Codec, depth: nat, html: bool, leaf: bytes, tokens: seq<bytes>)
    requires AllForeign(tokens) && tokens != [] && PlainLacksAll(Earlier(tokens))(depth, html, leaf)
    ensures After(codec, Last(tokens), PlainLacksAll(tokens))(depth, html, leaf)
  {
    if !html {
      AfterIs(codec, depth, html, leaf, Last(tokens), PlainLacksAll(tokens));
      TokenIsGone(leaf, Last(tokens));
      forall i | 0 <= i < |tokens| ensures !Contains(Replace(leaf, Last(tokens)), tokens[i]) {
        if i < |tokens| - 1 {
          assert tokens[i] == Earlier(tokens)[i];
          OthersStayGone(leaf, Last(tokens), tokens[i]);
        }
      }
    }
  }

  // Whatever the data: a run that succeeds leaves none of its tokens at any leaf but html reports, and its
  // last token nowhere, and it keeps the shape of the file. Inline archives are left out of this, unless no
  // pass overlaps one.
  lemma {:induction false} PlainLeavesAreClean(codec: Codec, depth: nat, name: string, data: bytes, deep: bool, tokens: seq<bytes>)
    requires Lawful(codec) && AllForeign(tokens) && tokens != [] && ScrubAll(codec, depth, name, data, tokens).Some?
    requires deep ==> SparedRun(codec, depth, name, data, tokens)
    ensures var out := ScrubAll(codec, depth, name, data, tokens).value;
            && AtLeaves(codec, depth, name, out, deep, PlainLacksAll(tokens))
            && AtLeaves(codec, depth, name, out, deep, Lacks(Last(tokens)))
            && Neat(codec, depth, name, out, deep)
            && ShapeOf(codec, depth, name, out, deep) == ShapeOf(codec, depth, name, data, deep)
  {
    var earlier, token := Earlier(tokens), Last(tokens);
    var before := ScrubAll(codec, depth, name, data, earlier).value;
    if earlier == [] {
      ReadableBefore(codec, depth, name, before, deep, token);
      LeafByLeaf(codec, depth, name, before, deep, Readable(), Readable(), PlainLacksAll(earlier));
    } else {
      PlainLeavesAreClean(codec, depth, name, data, deep, earlier);
    }
    PlainAfterPass(codec, depth, name, before, deep, tokens);
    PassIsClean(codec, depth, name, before, deep, token);
  }

  lemma PlainAfterPass(codec: Codec, depth: nat, name: string, before: bytes, deep: bool, tokens: seq<bytes>)
    requires Lawful(codec) && AllForeign(tokens) && tokens != [] && Scrub(codec, depth, name, before, Last(tokens)).Some?
    requires deep ==> AtLeaves(codec, depth, name, before, deep, Spared(codec, Last(tokens)))
    requires AtLeaves(codec, depth, name, before, deep, PlainLacksAll(Earlier(tokens)))
    ensures AtLeaves(codec, depth, name, Scrub(codec, depth, name, before, Last(tokens)).value, deep, PlainLacksAll(tokens))
  {
    var earlier, after := PlainLacksAll(Earlier(tokens)), After(codec, Last(tokens), PlainLacksAll(tokens));
    forall d: nat, html: bool, leaf: bytes | earlier(d, html, leaf) ensures after(d, html, leaf) {
      PlainLeafLacksAfter(codec, d, html, leaf, tokens);
    }
    LeafByLeaf(codec, depth, name, before, deep, earlier, earlier, after);
    Pass(codec, depth, name, before, deep, Last(tokens), PlainLacksAll(tokens));
  }

  lemma AllButLast(codec: Codec, depth: nat, name: string, data: bytes, deep: bool, tokens: seq<bytes>)
    requires tokens != [] && AtLeaves(codec, depth, name, data, deep, Lacks(Last(tokens)))
    ensures AtLeaves(codec, depth, name, data, deep, LacksAll(tokens))
            <==> AtLeaves(codec, depth, name, data, deep, LacksAll(Earlier(tokens)))
  {
    var earlier := Earlier(tokens);
    forall d: nat, html: bool, leaf: bytes | Lacks(Last(tokens))(d, html, leaf)
      ensures LacksAll(tokens)(d, html, leaf) <==> LacksAll(earlier)(d, html, leaf)
    {
      assert forall i :: 0 <= i < |earlier| ==> earlier[i] == tokens[i];
    }
    SameAtLeaves(codec, depth, name, data, deep, Lacks(Last(tokens)), LacksAll(tokens), LacksAll(earlier));
  }

  // After a run that succeeds all tokens are gone from every leaf exactly if, in the html reports, the last
  // pass leaves none of the earlier ones where it replaces nothing.
  lemma AllTokensAreGoneExactly(codec: Codec, depth: nat, name: string, data: bytes, deep: bool, tokens: seq<bytes>)
    requires Lawful(codec) && AllForeign(tokens) && tokens != [] && ScrubAll(codec, depth, name, data, tokens).Some?
    requires deep ==> SparedRun(codec, depth, name, data, tokens)
    ensures var before := ScrubAll(codec, depth, name, data, Earlier(tokens)).value;
            AtLeaves(codec, depth, name, ScrubAll(codec, depth, name, data, tokens).value, deep, LacksAll(tokens))
            <==> AtLeaves(codec, depth, name, before, deep, NoneSurvives(codec, Last(tokens), Earlier(tokens)))
  {
    var earlier, token := Earlier(tokens), Last(tokens);
    var before := ScrubAll(codec, depth, name, data, earlier).value;
    if earlier == [] {
      ReadableBefore(codec, depth, name, before, deep, token);
      LeafByLeaf(codec, depth, name, before, deep, Readable(), Readable(), PlainLacksAll(earlier));
    } else {
      PlainLeavesAreClean(codec, depth, name, data, deep, earlier);
    }
    PlainLeavesAreClean(codec, depth, name, data, deep, tokens);
    AllButLast(codec, depth, name, ScrubAll(codec, depth, name, data, tokens).value, deep, tokens);
    SurvivorsDecide(codec, depth, name, before, deep, token, earlier);
  }

  lemma SurvivorsDecide(codec: Codec, depth: nat, name: string, before: bytes, deep: bool, token: bytes, needles: seq<bytes>)
    requires Lawful(codec) && token != [] && AllForeign(needles) && Scrub(codec, depth, name, before, token).Some?
    requires deep ==> AtLeaves(codec, depth, name, before, deep, Spared(codec, token))
    requires AtLeaves(codec, depth, name, before, deep, PlainLacksAll(needles))
    ensures AtLeaves(codec, depth, name, Scrub(codec, depth, name, before, token).value, deep, LacksAll(needles))
            <==> AtLeaves(codec, depth, name, before, deep, NoneSurvives(codec, token, needles))
  {
    var plain, after, none := PlainLacksAll(needles), After(codec, token, LacksAll(needles)), NoneSurvives(codec, token, needles);
    forall d: nat, html: bool, leaf: bytes | plain(d, html, leaf) ensures after(d, html, leaf) <==> none(d, html, leaf) {
      LeafLacksAfter(codec, d, html, leaf, token, needles);
    }
    Pass(codec, depth, name, before, deep, token, LacksAll(needles));
    SameAtLeaves(codec, depth, name, before, deep, plain, after, none);
  }

  // The script's two tokens: both are gone exactly if the second pass does not bring the first about.
  lemma TwoTokensExactly(codec: Codec, depth: nat, name: string, data: bytes, deep: bool, first: bytes, second: bytes)
    requires Lawful(codec) && Foreign(first) && Foreign(second) && Scrub(codec, depth, name, data, first).Some?
    requires deep ==> AtLeaves(codec, depth, name, data, deep, Spared(codec, first))
    requires var between := Scrub(codec, depth, name, data, first).value;
             && Scrub(codec, depth, name, between, second).Some?
             && (deep ==> AtLeaves(codec, depth, name, between, deep, Spared(codec, second)))
    ensures var between := Scrub(codec, depth, name, data, first).value;
            AtLeaves(codec, depth, name, Scrub(codec, depth, name, between, second).value, deep, LacksAll([first, second]))
            <==> AtLeaves(codec, depth, name, between, deep, NoneRespelled(codec, second, [first]))
  {
    var between := Scrub(codec, depth, name, data, first).value;
    PassIsClean(codec, depth, name, data, deep, first);
    assert [first][0] == first;
    LeafByLeaf(codec, depth, name, between, deep, Lacks(first), Lacks(first), LacksAll([first]));
    EarlierStayGoneExactly(codec, depth, name, between, deep, second, [first]);
    PassIsClean(codec, depth, name, between, deep, second);
    assert Earlier([first, second]) == [first] && Last([first, second]) == second;
    AllButLast(codec, depth, name, Scrub(codec, depth, name, between, second).value, deep, [first, second]);
  }

  // No pass of the run overlaps an inline archive or brings an earlier token about in one.
  ghost predicate Undisturbed(codec: Codec, depth: nat, name: string, data: bytes, tokens: seq<bytes>)
    requires AllForeign(tokens)
  {
    tokens != [] ==>
      && Undisturbed(codec, depth, name, data, Earlier(tokens))
      && var before := ScrubAll(codec, depth, name, data, Earlier(tokens));
         before.Some? ==>
           && AtLeaves(codec, depth, name, before.value, true, Spared(codec, Last(tokens)))
           && AtLeaves(codec, depth, name, before.value, true, NoneRespelled(codec, Last(tokens), Earlier(tokens)))
  }

  lemma OnePassMore(codec: Codec, depth: nat, name: string, before: bytes, tokens: seq<bytes>) returns (out: bytes)
    requires Lawful(codec) && AllForeign(tokens) && tokens != []
    requires AtLeaves(codec, depth, name, before, true, LacksAll(Earlier(tokens)))
    requires AtLeaves(codec, depth, name, before, true, Spared(codec, Last(tokens)))
    requires AtLeaves(codec, depth, name, before, true, NoneRespelled(codec, Last(tokens), Earlier(tokens)))
    ensures Scrub(codec, depth, name, before, Last(tokens)) == Some(out)
    ensures AtLeaves(codec, depth, name, out, true, LacksAll(tokens)) && Neat(codec, depth, name, out, true)
    ensures ShapeOf(codec, depth, name, out, true) == ShapeOf(codec, depth, name, before, true)
  {
    var token, earlier := Last(tokens), Earlier(tokens);
    LeafByLeaf(codec, depth, name, before, true, LacksAll(earlier), LacksAll(earlier), Readable());
    ScrubSucceedsExactly(codec, depth, name, before, token);
    out := Scrub(codec, depth, name, before, token).value;
    PassIsClean(codec, depth, name, before, true, token);
    EarlierStayGoneExactly(codec, depth, name, before, true, token, earlier);
    AllButLast(codec, depth, name, out, true, tokens);
  }

  // An undisturbed run succeeds exactly if the file is readable, and leaves no token at any depth, inline
  // archives included, in a file of the same shape.
  lemma {:induction false} AllTokensAreGone(codec: Codec, depth: nat, name: string, data: bytes, tokens: seq<bytes>)
    requires Lawful(codec) && AllForeign(tokens) && Undisturbed(codec, depth, name, data, tokens)
    requires AtLeaves(codec, depth, name, data, true, Readable())
    ensures ScrubAll(codec, depth, name, data, tokens).Some?
    ensures var out := ScrubAll(codec, depth, name, data, tokens).value;
            && AtLeaves(codec, depth, name, out, true, LacksAll(tokens))
            && ShapeOf(codec, depth, name, out, true) == ShapeOf(codec, depth, name, data, true)
            && (tokens != [] ==> Neat(codec, depth, name, out, true))
  {
    if tokens == [] {
      LeafByLeaf(codec, depth, name, data, true, Readable(), Readable(), LacksAll(tokens));
    } else {
      AllTokensAreGone(codec, depth, name, data, Earlier(tokens));
      var before := ScrubAll(codec, depth, name, data, Earlier(tokens)).value;
      var _ := OnePassMore(codec, depth, name, before, tokens);
    }
  }

  // A second run over the result changes nothing.
  lemma SecondRunChangesNothing(codec: Codec, depth: nat, name: string, data: bytes, tokens: seq<bytes>)
    requires Lawful(codec) && AllForeign(tokens) && Undisturbed(codec, depth, name, data, tokens)
    requires AtLeaves(codec, depth, name, data, true, Readable())
    ensures var out := ScrubAll(codec, depth, name, data, tokens);
            out.Some? && ScrubAll(codec, depth, name, out.value, tokens) == out
  {
    AllTokensAreGone(codec, depth, name, data, tokens);
    var out := ScrubAll(codec, depth, name, data, tokens).value;
    if tokens != [] { NeatStaysPut(codec, depth, name, out, tokens); }
  }

  lemma {:induction false} NeatStaysPut(codec: Codec, depth: nat, name: string, data: bytes, tokens: seq<bytes>)
    requires AllForeign(tokens) && Neat(codec, depth, name, data, true)
    requires AtLeaves(codec, depth, name, data, true, LacksAll(tokens))
    ensures ScrubAll(codec, depth, name, data, tokens) == Some(data)
  {
    if tokens != [] {
      var lacks, earlier, token := LacksAll(tokens), Earlier(tokens), Last(tokens);
      assert forall i :: 0 <= i < |earlier| ==> earlier[i] == tokens[i];
      LeafByLeaf(codec, depth, name, data, true, lacks, lacks, LacksAll(earlier));
      LeafByLeaf(codec, depth, name, data, true, lacks, lacks, Lacks(token));
      NeatStaysPut(codec, depth, name, data, earlier);
      NeatIsUnchanged(codec, depth, name, data, token);
    }
  }
}
