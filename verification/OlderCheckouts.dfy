// What a run at a commit can hand over once a later commit carries a published version.
module OlderCheckouts {
  import opened Text
  import opened Git
  import opened SemVer
  import opened ReleasePipeline
  import opened ReleaseSelection
  import opened ReleaseOrder

  ghost predicate IsNewer(s: State, head: Sha, u: Version) {
    Claimed(s, u) && head < s.tags[u]
  }

  // Only if a version above the newer release sits at the commit or before it.
  lemma NeedsHigherBefore(s: State, head: Sha, u: Version, base: Version, v: Version, reclaim: Option<Sha>)
    requires head < |s.repo| && IsNewer(s, head, u) && Offers(s, head, base, v, reclaim)
    ensures exists m :: IsTop(s, head, m) && Less(u, m) && s.tags[m] <= head
  {
    assert InView(s, u, head);
    if OffersOwn(s, head, v, reclaim) {
      assert Less(u, v);
    } else {
      var m :| OffersNext(s, head, m, v, reclaim);
      AncestorIsOlder(s.repo, s.tags[m], head);
      assert Less(u, m);
    }
  }

  // A draft or reservation at the commit, above everything in view.
  ghost predicate HoldsTopDraft(s: State, head: Sha, v: Version) {
    IsTop(s, head, v) && !Claimed(s, v) && s.tags[v] == head
  }

  // While the published versions are in order, an older checkout hands over exactly what it has
  // itself reserved and not published, and that only if it is above everything published.
  lemma OlderCheckoutExactly(s: State, head: Sha, u: Version, base: Version, v: Version, reclaim: Option<Sha>)
    requires Base(s) && ClaimsInOrder(s) && head < |s.repo| && IsNewer(s, head, u) && NoOtherMajor(s)
    ensures Offers(s, head, base, v, reclaim) <==> HoldsTopDraft(s, head, v) && reclaim == None
  {
    if Offers(s, head, base, v, reclaim) {
      NeedsHigherBefore(s, head, u, base, v, reclaim);
      var m :| IsTop(s, head, m) && Less(u, m) && s.tags[m] <= head;
      OffersAtTop(s, head, base, m, v, reclaim);
      TopIsNoClaim(s, head, u, m);
    }
    if HoldsTopDraft(s, head, v) {
      OffersAtTop(s, head, base, v, v, reclaim);
    }
  }

  lemma TopIsNoClaim(s: State, head: Sha, u: Version, m: Version)
    requires ClaimsInOrder(s) && IsNewer(s, head, u) && IsTop(s, head, m) && Less(u, m) && s.tags[m] <= head
    ensures !Claimed(s, m)
    ensures IsAncestor(s.repo, s.tags[m], head) ==> s.tags[m] == head
  {
  }
}
