// What the release scripts ask of Git: a commit graph, the trees its commits own,
// and the questions `merge-base --is-ancestor`, `rev-list --first-parent`, `ls-tree`
// and `diff --no-renames` answer about them.
module Git {
  import opened Text

  type Sha = nat
  type Path = string
  type Tree = map<Path, string>

  datatype Commit = Commit(parents: seq<Sha>, tree: Tree, message: string)

  // Commits in the order they were made, so a parent always comes before its child.
  predicate ParentsAreOlder(commits: seq<Commit>) {
    forall c :: 0 <= c < |commits| ==> forall p :: p in commits[c].parents ==> p < c
  }

  type Repo = commits: seq<Commit> | ParentsAreOlder(commits) witness []

  function FirstParent(repo: Repo, c: Sha): (p: Sha)
    requires c < |repo| && repo[c].parents != []
    ensures p < c
  {
    var p := repo[c].parents[0];
    assert p in repo[c].parents;
    p
  }

  // `git merge-base --is-ancestor a b`: reflexive reachability along parents.
  predicate IsAncestor(repo: Repo, a: Sha, b: Sha)
    decreases b
  {
    a == b || (b < |repo| && exists p :: p in repo[b].parents && IsAncestor(repo, a, p))
  }

  lemma AncestorIsOlder(repo: Repo, a: Sha, b: Sha)
    requires IsAncestor(repo, a, b)
    ensures a <= b
    decreases b
  {
    if a != b {
      var p :| p in repo[b].parents && IsAncestor(repo, a, p);
      AncestorIsOlder(repo, a, p);
    }
  }

  lemma NewerIsNoAncestor(repo: Repo, newer: Sha, older: Sha)
    requires older < newer
    ensures !IsAncestor(repo, newer, older)
  {
    if IsAncestor(repo, newer, older) {
      AncestorIsOlder(repo, newer, older);
    }
  }

  // Commits made later change nothing about the ancestry of earlier ones.
  lemma AncestryOfOldCommits(repo: Repo, later: Repo, a: Sha, b: Sha)
    requires repo <= later && b < |repo|
    ensures IsAncestor(repo, a, b) == IsAncestor(later, a, b)
    decreases b
  {
    if a != b {
      forall p | p in repo[b].parents
        ensures IsAncestor(repo, a, p) == IsAncestor(later, a, p)
      {
        AncestryOfOldCommits(repo, later, a, p);
      }
    }
  }

  // `base` is met when walking from `head` along first parents.
  predicate OnFirstParentLine(repo: Repo, base: Sha, head: Sha)
    requires head < |repo|
    decreases head
  {
    base == head || (repo[head].parents != [] && OnFirstParentLine(repo, base, FirstParent(repo, head)))
  }

  lemma FirstParentLineIsAncestry(repo: Repo, base: Sha, head: Sha)
    requires head < |repo| && OnFirstParentLine(repo, base, head)
    ensures IsAncestor(repo, base, head)
    decreases head
  {
    if base != head {
      FirstParentLineIsAncestry(repo, base, FirstParent(repo, head));
    }
  }

  lemma FirstParentLineTransitive(repo: Repo, a: Sha, b: Sha, c: Sha)
    requires c < |repo| && b < |repo| && OnFirstParentLine(repo, a, b) && OnFirstParentLine(repo, b, c)
    ensures OnFirstParentLine(repo, a, c)
    decreases c
  {
    if b != c {
      FirstParentLineTransitive(repo, a, b, FirstParent(repo, c));
    }
  }

  // Two commits met on the same first-parent walk are on each other's walk.
  lemma FirstParentLineIsLinear(repo: Repo, a: Sha, b: Sha, head: Sha)
    requires head < |repo| && a <= b && b < |repo|
    requires OnFirstParentLine(repo, a, head) && OnFirstParentLine(repo, b, head)
    ensures OnFirstParentLine(repo, a, b)
    decreases head
  {
    if b != head {
      if a == head {
        FirstParentLineIsAncestry(repo, b, head);
        AncestorIsOlder(repo, b, head);
      } else {
        FirstParentLineIsLinear(repo, a, b, FirstParent(repo, head));
      }
    }
  }

  // `git rev-list --first-parent base..head`.
  function FirstParentRange(repo: Repo, base: Sha, head: Sha): seq<Sha>
    requires head < |repo|
    decreases head
  {
    if IsAncestor(repo, head, base) then []
    else if repo[head].parents == [] then [head]
    else [head] + FirstParentRange(repo, base, FirstParent(repo, head))
  }

  lemma RangeIsInRepo(repo: Repo, base: Sha, head: Sha)
    requires head < |repo|
    ensures forall c :: c in FirstParentRange(repo, base, head) ==> c <= head
    decreases head
  {
    if !IsAncestor(repo, head, base) && repo[head].parents != [] {
      RangeIsInRepo(repo, base, FirstParent(repo, head));
    }
  }

  lemma RangeStep(repo: Repo, base: Sha, head: Sha)
    requires head < |repo| && base != head && OnFirstParentLine(repo, base, head)
    ensures base < head
    ensures FirstParentRange(repo, base, head) == [head] + FirstParentRange(repo, base, FirstParent(repo, head))
  {
    FirstParentLineIsAncestry(repo, base, head);
    AncestorIsOlder(repo, base, head);
    NewerIsNoAncestor(repo, head, base);
  }

  // The walk from c down to a passes b, and splits there.
  lemma {:induction false} RangeSplits(repo: Repo, a: Sha, b: Sha, c: Sha)
    requires c < |repo| && b < |repo|
    requires OnFirstParentLine(repo, a, b) && OnFirstParentLine(repo, b, c)
    ensures FirstParentRange(repo, a, c) == FirstParentRange(repo, b, c) + FirstParentRange(repo, a, b)
    decreases c
  {
    if b == c {
      assert FirstParentRange(repo, b, c) == [];
    } else {
      FirstParentLineTransitive(repo, a, b, c);
      RangeStep(repo, b, c);
      FirstParentLineIsAncestry(repo, a, b);
      AncestorIsOlder(repo, a, b);
      RangeStep(repo, a, c);
      RangeSplits(repo, a, b, FirstParent(repo, c));
    }
  }

  lemma RangeOfOldCommits(repo: Repo, later: Repo, base: Sha, head: Sha)
    requires repo <= later && head < |repo| && base < |repo|
    ensures FirstParentRange(repo, base, head) == FirstParentRange(later, base, head)
    ensures OnFirstParentLine(repo, base, head) == OnFirstParentLine(later, base, head)
    decreases head
  {
    AncestryOfOldCommits(repo, later, head, base);
    if repo[head].parents != [] {
      RangeOfOldCommits(repo, later, base, FirstParent(repo, head));
    }
  }

  // `git diff --name-only --no-renames`.
  function Diff(a: Tree, b: Tree): set<Path> {
    set p | p in a.Keys + b.Keys && (p !in a || p !in b || a[p] != b[p])
  }

  lemma NoDiffIsSameTree(a: Tree, b: Tree)
    requires Diff(a, b) == {}
    ensures a == b
  {
    assert forall p :: p in a.Keys + b.Keys ==> p !in Diff(a, b);
    assert a.Keys == b.Keys;
  }

  ghost predicate IsLeast(least: Path, paths: set<Path>) {
    least in paths && forall p :: p in paths ==> p == least || Below(least, p)
  }

  // `git ls-tree -r --name-only`: every path once, in order.
  ghost function Listing(paths: set<Path>): (l: seq<Path>)
    ensures forall p :: p in l <==> p in paths
  {
    if paths == {} then []
    else
      LeastExists(paths);
      var least :| IsLeast(least, paths);
      [least] + Listing(paths - {least})
  }

  lemma LeastExists(paths: set<Path>)
    requires paths != {}
    ensures exists least :: IsLeast(least, paths)
  {
    var some :| some in paths;
    var rest := paths - {some};
    if rest == {} {
      assert forall p :: p in paths ==> p == some || p in rest;
      assert IsLeast(some, paths);
    } else {
      LeastExists(rest);
      var least :| IsLeast(least, rest);
      LeastOfBoth(some, least, paths);
    }
  }

  lemma LeastOfBoth(some: Path, least: Path, paths: set<Path>)
    requires some in paths && IsLeast(least, paths - {some})
    ensures IsLeast(some, paths) || IsLeast(least, paths)
  {
    BelowTotal(some, least);
    if Below(some, least) {
      forall p | p in paths ensures p == some || Below(some, p) {
        if p != some && p != least {
          assert p in paths - {some};
          BelowTransitive(some, least, p);
        }
      }
    } else {
      assert forall p :: p in paths ==> p == some || p in paths - {some};
    }
  }
}
