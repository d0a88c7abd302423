// Runs of scripts/scrub-e2e-token.py over reports whose inline archives stand between bytes no token has,
// such as quotes: when nothing disturbs them.
module FencedReports {
  import opened Text
  import opened Bytes
  import opened Replacement
  import opened ScrubToken
  import opened InlineArchives
  import opened BlobOverlap
  import opened Respelling
  import opened Fences
  import opened DeepScrub
  import opened ScrubbedFiles

  // In no pass does its own or an earlier token occur inside an inline archive encoded anew.
  ghost predicate NeverInside(codec: Codec, depth: nat, name: string, data: bytes, tokens: seq<bytes>)
    requires AllForeign(tokens)
  {
    tokens != [] ==>
      && NeverInside(codec, depth, name, data, Earlier(tokens))
      && var before := ScrubAll(codec, depth, name, data, Earlier(tokens));
         before.Some? ==> AtLeaves(codec, depth, name, before.value, true, NoneInside(codec, Last(tokens), tokens))
  }

  ghost function Both(P: Property, Q: Property): Property {
    (depth: nat, html: bool, leaf: bytes) => P(depth, html, leaf) && Q(depth, html, leaf)
  }

  lemma EmbedKeepsFences(codec: Codec, depth: nat, leaf: bytes, token: bytes, all: seq<bytes>, text: bytes)
    requires Lawful(codec) && token != [] && Embed(codec, depth, leaf, token) == Some(text) && IsFencedFrom(leaf, all)
    ensures IsFencedFrom(text, all)
  {
    forall i | 0 <= i < |all| ensures Fenced(text, all[i], true) {
      FencesThroughEmbed(codec, depth, leaf, token, all[i], true);
    }
  }

  lemma ReplaceKeepsFences(text: bytes, token: bytes, all: seq<bytes>)
    requires token != [] && AllForeign(all) && IsFencedFrom(text, all) && !Overlaps(text, token)
    ensures IsFencedFrom(Replace(text, token), all)
  {
    forall i | 0 <= i < |all| ensures Fenced(Replace(text, token), all[i], true) {
      FencesThroughReplace(text, token, all[i], true);
    }
  }

  // A token overlaps an inline archive, or brings an earlier one about, exactly if one of them is inside.
  lemma InsideExactly(text: bytes, tokens: seq<bytes>)
    requires AllForeign(tokens) && tokens != [] && IsFencedFrom(text, tokens)
    ensures HasNoneInside(text, tokens)
            <==> !Overlaps(text, Last(tokens)) && RespellsNone(text, Last(tokens), Earlier(tokens))
  {
    var earlier, token := Earlier(tokens), Last(tokens);
    var n := |earlier|;
    assert forall i :: 0 <= i < n ==> earlier[i] == tokens[i];
    assert tokens[n] == token;
    FencedOverlapsExactly(text, token, true);
    if !Overlaps(text, token) {
      forall i | 0 <= i < n ensures Respelled(text, token, earlier[i]) <==> IsInside(text, tokens[i]) {
        FencedRespelledExactly(text, token, tokens[i], true);
      }
      InsideUpTo(text, tokens, earlier, token);
    }
  }

  lemma InsideUpTo(text: bytes, tokens: seq<bytes>, earlier: seq<bytes>, token: bytes)
    requires token != [] && |tokens| == |earlier| + 1 && !IsInside(text, tokens[|earlier|])
    requires forall i :: 0 <= i < |earlier| ==> (Respelled(text, token, earlier[i]) <==> IsInside(text, tokens[i]))
    ensures HasNoneInside(text, tokens) <==> RespellsNone(text, token, earlier)
  {
    if HasNoneInside(text, tokens) {
      forall i | 0 <= i < |earlier| ensures !Respelled(text, token, earlier[i]) {
        assert !IsInside(text, tokens[i]);
      }
    }
    if RespellsNone(text, token, earlier) {
      forall i | 0 <= i < |tokens| ensures !IsInside(text, tokens[i]) {
        assert i < |earlier| ==> !Respelled(text, token, earlier[i]);
      }
    }
  }

  lemma AfterHtml(codec: Codec, depth: nat, leaf: bytes, token: bytes, P: Property, text: bytes)
    requires token != [] && Embed(codec, depth, leaf, token) == Some(text)
    ensures After(codec, token, P)(depth, true, leaf) <==> P(depth, true, Replace(text, token))
    ensures Spared(codec, token)(depth, true, leaf) <==> !Overlaps(text, token)
  {
    AfterIs(codec, depth, true, leaf, token, P);
  }

  lemma UnreadHtml(codec: Codec, depth: nat, leaf: bytes, token: bytes, needles: seq<bytes>, P: Property)
    requires token != [] && Embed(codec, depth, leaf, token).None?
    ensures After(codec, token, P)(depth, true, leaf) && NoneInside(codec, token, needles)(depth, true, leaf)
  {
    assert TextOf(codec, depth, true, leaf, token).None?;
  }

  lemma AtHtml(codec: Codec, depth: nat, leaf: bytes, token: bytes, needles: seq<bytes>, text: bytes)
    requires token != [] && Embed(codec, depth, leaf, token) == Some(text)
    ensures NoneRespelled(codec, token, needles)(depth, true, leaf) <==> RespellsNone(text, token, needles)
    ensures NoneInside(codec, token, needles)(depth, true, leaf) <==> HasNoneInside(text, needles)
  {
  }

  // At a fenced html report: `all` the tokens, `tokens` those so far.
  lemma FencedHtml(codec: Codec, depth: nat, leaf: bytes, all: seq<bytes>, tokens: seq<bytes>)
    requires Lawful(codec) && AllForeign(all) && tokens != [] && tokens <= all && FencedFrom(all)(depth, true, leaf)
    ensures NoneInside(codec, Last(tokens), tokens)(depth, true, leaf)
            <==> Spared(codec, Last(tokens))(depth, true, leaf) && NoneRespelled(codec, Last(tokens), Earlier(tokens))(depth, true, leaf)
    ensures Spared(codec, Last(tokens))(depth, true, leaf) ==> After(codec, Last(tokens), FencedFrom(all))(depth, true, leaf)
  {
    var token := Last(tokens);
    var found := Embed(codec, depth, leaf, token);
    assert forall i :: 0 <= i < |tokens| ==> tokens[i] == all[i];
    if found.Some? {
      var text := found.value;
      EmbedKeepsFences(codec, depth, leaf, token, all, text);
      InsideExactly(text, tokens);
      AfterHtml(codec, depth, leaf, token, FencedFrom(all), text);
      AtHtml(codec, depth, leaf, token, tokens, text);
      AtHtml(codec, depth, leaf, token, Earlier(tokens), text);
      if !Overlaps(text, token) { ReplaceKeepsFences(text, token, all); }
    } else {
      UnreadHtml(codec, depth, leaf, token, tokens, FencedFrom(all));
    }
  }

  lemma FencedLeaves(codec: Codec, all: seq<bytes>, tokens: seq<bytes>)
    requires Lawful(codec) && AllForeign(all) && tokens != [] && tokens <= all
    ensures var token, fenced := Last(tokens), FencedFrom(all);
            var spared, none := Spared(codec, token), NoneRespelled(codec, token, Earlier(tokens));
            var outside := NoneInside(codec, token, tokens);
            && Entails(fenced, outside, spared) && Entails(fenced, outside, none)
            && Entails(Both(fenced, spared), none, outside) && Entails(fenced, spared, After(codec, token, fenced))
  {
    forall depth: nat, html: bool, leaf: bytes | FencedFrom(all)(depth, html, leaf) && html
      ensures NoneInside(codec, Last(tokens), tokens)(depth, html, leaf)
              <==> Spared(codec, Last(tokens))(depth, html, leaf) && NoneRespelled(codec, Last(tokens), Earlier(tokens))(depth, html, leaf)
      ensures Spared(codec, Last(tokens))(depth, html, leaf) ==> After(codec, Last(tokens), FencedFrom(all))(depth, html, leaf)
    {
      FencedHtml(codec, depth, leaf, all, tokens);
    }
  }

  lemma FencedPassExactly(codec: Codec, depth: nat, name: string, before: bytes, all: seq<bytes>, tokens: seq<bytes>)
    requires Lawful(codec) && AllForeign(all) && tokens != [] && tokens <= all
    requires AtLeaves(codec, depth, name, before, true, FencedFrom(all))
    ensures AtLeaves(codec, depth, name, before, true, NoneInside(codec, Last(tokens), tokens))
            <==> && AtLeaves(codec, depth, name, before, true, Spared(codec, Last(tokens)))
                 && AtLeaves(codec, depth, name, before, true, NoneRespelled(codec, Last(tokens), Earlier(tokens)))
  {
    var token, fenced := Last(tokens), FencedFrom(all);
    var spared, none := Spared(codec, token), NoneRespelled(codec, token, Earlier(tokens));
    var outside := NoneInside(codec, token, tokens);
    FencedLeaves(codec, all, tokens);
    if AtLeaves(codec, depth, name, before, true, outside) {
      LeafByLeaf(codec, depth, name, before, true, fenced, outside, spared);
      LeafByLeaf(codec, depth, name, before, true, fenced, outside, none);
    }
    if AtLeaves(codec, depth, name, before, true, spared) && AtLeaves(codec, depth, name, before, true, none) {
      LeafByLeaf(codec, depth, name, before, true, fenced, spared, Both(fenced, spared));
      LeafByLeaf(codec, depth, name, before, true, Both(fenced, spared), none, outside);
    }
  }

  lemma FencedStays(codec: Codec, depth: nat, name: string, before: bytes, all: seq<bytes>, tokens: seq<bytes>)
    requires Lawful(codec) && AllForeign(all) && tokens != [] && tokens <= all
    requires AtLeaves(codec, depth, name, before, true, FencedFrom(all)) && Scrub(codec, depth, name, before, Last(tokens)).Some?
    requires AtLeaves(codec, depth, name, before, true, Spared(codec, Last(tokens)))
    ensures AtLeaves(codec, depth, name, Scrub(codec, depth, name, before, Last(tokens)).value, true, FencedFrom(all))
  {
    var token, fenced := Last(tokens), FencedFrom(all);
    FencedLeaves(codec, all, tokens);
    LeafByLeaf(codec, depth, name, before, true, fenced, Spared(codec, token), After(codec, token, fenced));
    Pass(codec, depth, name, before, true, token, fenced);
  }

  lemma {:induction false} FencedRun(codec: Codec, depth: nat, name: string, data: bytes, all: seq<bytes>, tokens: seq<bytes>)
    requires Lawful(codec) && AllForeign(all) && tokens <= all
    requires AtLeaves(codec, depth, name, data, true, FencedFrom(all))
    ensures Undisturbed(codec, depth, name, data, tokens) <==> NeverInside(codec, depth, name, data, tokens)
    ensures Undisturbed(codec, depth, name, data, tokens) && ScrubAll(codec, depth, name, data, tokens).Some? ==>
              AtLeaves(codec, depth, name, ScrubAll(codec, depth, name, data, tokens).value, true, FencedFrom(all))
    decreases |tokens|
  {
    if tokens != [] {
      FencedRun(codec, depth, name, data, all, Earlier(tokens));
      var before := ScrubAll(codec, depth, name, data, Earlier(tokens));
      if Undisturbed(codec, depth, name, data, Earlier(tokens)) && before.Some? {
        FencedPassExactly(codec, depth, name, before.value, all, tokens);
        if Undisturbed(codec, depth, name, data, tokens) && Scrub(codec, depth, name, before.value, Last(tokens)).Some? {
          FencedStays(codec, depth, name, before.value, all, tokens);
        }
      }
    }
  }

  // Where the inline archives stand between bytes no token has, a run is disturbed exactly if in some pass
  // its own token or an earlier one occurs inside an inline archive encoded anew.
  lemma FencedRunExactly(codec: Codec, depth: nat, name: string, data: bytes, tokens: seq<bytes>)
    requires Lawful(codec) && AllForeign(tokens)
    requires AtLeaves(codec, depth, name, data, true, FencedFrom(tokens))
    ensures Undisturbed(codec, depth, name, data, tokens) <==> NeverInside(codec, depth, name, data, tokens)
  {
    FencedRun(codec, depth, name, data, tokens, tokens);
  }

  // Told from the report and the tokens alone

  // Nothing is inlined, or every token has a byte no inline archive has.
  ghost function SealedFrom(tokens: seq<bytes>): Property {
    (_: nat, html: bool, leaf: bytes) =>
      html ==> IsSealedFrom(leaf, tokens)
  }

  ghost predicate IsSealedFrom(text: bytes, tokens: seq<bytes>) {
    Blobs(text) == [] || (IsFencedFrom(text, tokens) && forall i :: 0 <= i < |tokens| ==> HasOther(tokens[i]))
  }

  lemma {:induction false} NothingInlinedIsFenced(text: bytes, token: bytes, before: bool)
    requires Blobs(text) == []
    ensures Fenced(text, token, before)
    decreases |text|
  {
    if text != [] {
      NothingInlinedIsFenced(text[1..], token, text[0] !in token);
    }
  }

  lemma SealedTextIsFenced(text: bytes, tokens: seq<bytes>)
    requires IsSealedFrom(text, tokens)
    ensures IsFencedFrom(text, tokens)
  {
    if Blobs(text) == [] {
      forall i | 0 <= i < |tokens| ensures Fenced(text, tokens[i], true) {
        NothingInlinedIsFenced(text, tokens[i], true);
      }
    }
  }

  lemma SealedIsFenced(tokens: seq<bytes>)
    ensures Entails(SealedFrom(tokens), SealedFrom(tokens), FencedFrom(tokens))
  {
    forall leaf: bytes | IsSealedFrom(leaf, tokens) ensures IsFencedFrom(leaf, tokens) {
      SealedTextIsFenced(leaf, tokens);
    }
  }

  lemma SealedHasNoneInside(codec: Codec, depth: nat, leaf: bytes, all: seq<bytes>, token: bytes, needles: seq<bytes>, text: bytes)
    requires Lawful(codec) && token != [] && needles <= all && IsSealedFrom(leaf, all)
    requires Embed(codec, depth, leaf, token) == Some(text)
    ensures HasNoneInside(text, needles)
  {
    EmbedRewritesBlobs(codec, depth, leaf, token);
    forall i | 0 <= i < |needles| ensures !IsInside(text, needles[i]) {
      assert needles[i] == all[i];
      if Blobs(leaf) == [] { NothingInlinedIsOutside(text, needles[i]); } else { OtherByteIsOutside(text, needles[i]); }
    }
  }

  lemma StaysSealed(codec: Codec, depth: nat, leaf: bytes, all: seq<bytes>, token: bytes, text: bytes)
    requires Lawful(codec) && AllForeign(all) && token != [] && IsSealedFrom(leaf, all)
    requires Embed(codec, depth, leaf, token) == Some(text) && !Overlaps(text, token)
    ensures IsSealedFrom(Replace(text, token), all)
  {
    EmbedRewritesBlobs(codec, depth, leaf, token);
    ReplaceKeepsBlobs(text, token);
    if Blobs(leaf) != [] {
      EmbedKeepsFences(codec, depth, leaf, token, all, text);
      ReplaceKeepsFences(text, token, all);
    }
  }

  lemma SealedIsSpared(codec: Codec, depth: nat, leaf: bytes, all: seq<bytes>, tokens: seq<bytes>, text: bytes)
    requires Lawful(codec) && AllForeign(all) && tokens != [] && tokens <= all && IsSealedFrom(leaf, all)
    requires Embed(codec, depth, leaf, Last(tokens)) == Some(text) && HasNoneInside(text, tokens)
    ensures !Overlaps(text, Last(tokens))
  {
    SealedTextIsFenced(leaf, all);
    EmbedKeepsFences(codec, depth, leaf, Last(tokens), all, text);
    assert forall i :: 0 <= i < |tokens| ==> tokens[i] == all[i];
    InsideExactly(text, tokens);
  }

  lemma SealedHtml(codec: Codec, depth: nat, leaf: bytes, all: seq<bytes>, tokens: seq<bytes>)
    requires Lawful(codec) && AllForeign(all) && tokens != [] && tokens <= all && SealedFrom(all)(depth, true, leaf)
    ensures NoneInside(codec, Last(tokens), tokens)(depth, true, leaf)
    ensures After(codec, Last(tokens), SealedFrom(all))(depth, true, leaf)
  {
    var token := Last(tokens);
    var found := Embed(codec, depth, leaf, token);
    if found.Some? {
      var text := found.value;
      SealedHasNoneInside(codec, depth, leaf, all, token, tokens, text);
      SealedIsSpared(codec, depth, leaf, all, tokens, text);
      StaysSealed(codec, depth, leaf, all, token, text);
      AtHtml(codec, depth, leaf, token, tokens, text);
      AfterHtml(codec, depth, leaf, token, SealedFrom(all), text);
    } else {
      UnreadHtml(codec, depth, leaf, token, tokens, SealedFrom(all));
    }
  }

  lemma SealedLeaves(codec: Codec, all: seq<bytes>, tokens: seq<bytes>)
    requires Lawful(codec) && AllForeign(all) && tokens != [] && tokens <= all
    ensures var token, sealed := Last(tokens), SealedFrom(all);
            Entails(sealed, sealed, NoneInside(codec, token, tokens)) && Entails(sealed, sealed, After(codec, token, sealed))
  {
    forall depth: nat, html: bool, leaf: bytes | SealedFrom(all)(depth, html, leaf) && html
      ensures NoneInside(codec, Last(tokens), tokens)(depth, html, leaf)
      ensures After(codec, Last(tokens), SealedFrom(all))(depth, html, leaf)
    {
      SealedHtml(codec, depth, leaf, all, tokens);
    }
  }

  lemma {:induction false} SealedRun(codec: Codec, depth: nat, name: string, data: bytes, all: seq<bytes>, tokens: seq<bytes>)
    requires Lawful(codec) && AllForeign(all) && tokens <= all
    requires AtLeaves(codec, depth, name, data, true, SealedFrom(all))
    ensures NeverInside(codec, depth, name, data, tokens)
    ensures ScrubAll(codec, depth, name, data, tokens).Some? ==>
              AtLeaves(codec, depth, name, ScrubAll(codec, depth, name, data, tokens).value, true, SealedFrom(all))
    decreases |tokens|
  {
    if tokens != [] {
      SealedRun(codec, depth, name, data, all, Earlier(tokens));
      var before := ScrubAll(codec, depth, name, data, Earlier(tokens));
      if before.Some? { SealedPass(codec, depth, name, before.value, all, tokens); }
    }
  }

  lemma SealedPass(codec: Codec, depth: nat, name: string, before: bytes, all: seq<bytes>, tokens: seq<bytes>)
    requires Lawful(codec) && AllForeign(all) && tokens != [] && tokens <= all
    requires AtLeaves(codec, depth, name, before, true, SealedFrom(all))
    ensures AtLeaves(codec, depth, name, before, true, NoneInside(codec, Last(tokens), tokens))
    ensures var out := Scrub(codec, depth, name, before, Last(tokens));
            out.Some? ==> AtLeaves(codec, depth, name, out.value, true, SealedFrom(all))
  {
    var token, sealed := Last(tokens), SealedFrom(all);
    SealedLeaves(codec, all, tokens);
    SealedIsFenced(all);
    LeafByLeaf(codec, depth, name, before, true, sealed, sealed, FencedFrom(all));
    LeafByLeaf(codec, depth, name, before, true, sealed, sealed, NoneInside(codec, token, tokens));
    FencedPassExactly(codec, depth, name, before, all, tokens);
    LeafByLeaf(codec, depth, name, before, true, sealed, sealed, After(codec, token, sealed));
    if Scrub(codec, depth, name, before, token).Some? { Pass(codec, depth, name, before, true, token, sealed); }
  }

  // A run is undisturbed if no html leaf inlines anything, or the inline archives stand between bytes no
  // token has and each token has a byte that they do not have.
  lemma SealedIsUndisturbed(codec: Codec, depth: nat, name: string, data: bytes, tokens: seq<bytes>)
    requires Lawful(codec) && AllForeign(tokens)
    requires AtLeaves(codec, depth, name, data, true, SealedFrom(tokens))
    ensures Undisturbed(codec, depth, name, data, tokens) && AtLeaves(codec, depth, name, data, true, Readable())
  {
    var sealed := SealedFrom(tokens);
    SealedIsFenced(tokens);
    LeafByLeaf(codec, depth, name, data, true, sealed, sealed, FencedFrom(tokens));
    LeafByLeaf(codec, depth, name, data, true, sealed, sealed, Readable());
    SealedRun(codec, depth, name, data, tokens, tokens);
    FencedRunExactly(codec, depth, name, data, tokens);
  }
}
