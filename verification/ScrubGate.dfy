// `leaked` and `main` of scripts/scrub-e2e-token.py: the gate, which fails closed.
module ScrubGate {
  import opened Text
  import opened Bytes
  import opened Base64
  import opened ScrubToken
  import opened DeepScrub
  import opened ScrubbedFiles

  predicate IsUnreserved(b: Byte) {
    || 65 <= b <= 90 || 97 <= b <= 122 || 48 <= b <= 57
    || b == '_' as int || b == '.' as int || b == '-' as int || b == '~' as int
  }

  function Hex(v: int): Byte
    requires 0 <= v < 16
  {
    if v < 10 then 48 + v else 55 + v
  }

  // urllib.parse.quote(..., safe="")
  function Quote(token: bytes): (q: bytes)
    ensures |token| <= |q|
  {
    if token == [] then []
    else
      (if IsUnreserved(token[0]) then [token[0]] else ['%' as int, Hex(token[0] / 16), Hex(token[0] % 16)])
      + Quote(token[1..])
  }

  // Some form of the token shows in the data.
  predicate Leaked(data: bytes, token: bytes) {
    || Contains(data, token) || Contains(data, Quote(token))
    || exists shift :: 0 <= shift < 3 && Contains(data, Form(token, shift))
  }

  lemma ContainsTransitive(a: bytes, b: bytes, c: bytes)
    requires Contains(a, b) && Contains(b, c)
    ensures Contains(a, c)
  {
    var i :| 0 <= i <= |a| && OccursAt(a, b, i);
    var j :| 0 <= j <= |b| && OccursAt(b, c, j);
    forall k | 0 <= k < |c| ensures a[i + j + k] == c[k] {
      assert a[i..i + |b|][j + k] == b[j + k] && b[j..j + |c|][k] == c[k];
    }
    assert a[i + j..i + j + |c|] == c;
    assert OccursAt(a, c, i + j);
  }

  // Data that passes holds no base64 of anything the token is part of, at any alignment.
  lemma PassedHoldsNoEncoding(data: bytes, token: bytes, before: bytes, after: bytes)
    requires !Leaked(data, token)
    ensures !Contains(data, token) && !Contains(data, Encode(before + token + after))
  {
    EncodedTokenIsDetected(before, token, after);
    if Contains(data, Encode(before + token + after)) {
      ContainsTransitive(data, Encode(before + token + after), Form(token, |before| % 3));
    }
  }

  // A token is too short for the check exactly when nothing at all passes it.
  lemma ShortTokensNeverPass(token: bytes)
    requires token != []
    ensures |token| <= 6 <==> forall data: bytes :: Leaked(data, token)
  {
    if |token| <= 6 {
      forall data: bytes ensures Leaked(data, token) {
        ShortFormIsEmpty(token, 0);
        EmptyOccurs(data);
      }
    } else {
      forall shift: nat | shift < 3 ensures !Contains([], Form(token, shift)) {
        ShortFormIsEmpty(token, shift);
      }
      assert !Leaked([], token);
    }
  }

  // Path.suffix; a file that is called nothing but `.png` has none.
  predicate HasSuffix(name: string, suffix: string) {
    EndsWith(name, suffix) && |suffix| < |name| && name[|name| - |suffix| - 1] != '/'
  }

  predicate IsMedia(name: string) {
    HasSuffix(name, ".webm") || HasSuffix(name, ".png") || HasSuffix(name, ".jpg") || HasSuffix(name, ".mp4")
  }

  // The name of a media file: a directory or none, a stem, and one of four endings.
  ghost predicate IsMediaName(name: string) {
    exists dir, stem, ending :: IsNamed(name, dir, stem, ending) && ending in {".webm", ".png", ".jpg", ".mp4"}
  }

  predicate IsNamed(name: string, dir: string, stem: string, ending: string) {
    name == dir + stem + ending && (dir == "" || dir[|dir| - 1] == '/') && stem != "" && '/' !in stem
  }

  // The last part of a path that does not end in a slash.
  lemma {:induction false} LastPart(path: string) returns (dir: string, stem: string)
    requires path != "" && path[|path| - 1] != '/'
    ensures path == dir + stem && (dir == "" || dir[|dir| - 1] == '/') && stem != "" && '/' !in stem
    decreases |path|
  {
    var last := path[|path| - 1..];
    if |path| == 1 || path[|path| - 2] == '/' {
      dir, stem := path[..|path| - 1], last;
    } else {
      var s;
      dir, s := LastPart(path[..|path| - 1]);
      stem := s + last;
    }
    assert path == path[..|path| - 1] + last;
  }

  lemma SuffixExactly(name: string, ending: string)
    requires ending != ""
    ensures HasSuffix(name, ending) <==> exists dir, stem :: IsNamed(name, dir, stem, ending)
  {
    if HasSuffix(name, ending) {
      var path := name[..|name| - |ending|];
      var dir, stem := LastPart(path);
      assert IsNamed(name, dir, stem, ending);
    }
    if dir, stem :| IsNamed(name, dir, stem, ending) {
      assert name[|name| - |ending|..] == ending;
      assert name[|dir| + |stem| - 1] == stem[|stem| - 1];
    }
  }

  lemma MediaExactly(name: string)
    ensures IsMedia(name) <==> IsMediaName(name)
  {
    SuffixExactly(name, ".webm");
    SuffixExactly(name, ".png");
    SuffixExactly(name, ".jpg");
    SuffixExactly(name, ".mp4");
  }

  predicate Usable(tokens: seq<bytes>) {
    forall i :: 0 <= i < |tokens| ==> tokens[i] != []
  }

  predicate AnyLeak(data: bytes, tokens: seq<bytes>) {
    exists i :: 0 <= i < |tokens| && Leaked(data, tokens[i])
  }

  // The test output being scrubbed, by file name.
  class Output {
    var files: map<string, bytes>

    constructor (files: map<string, bytes>)
      ensures this.files == files
    {
      this.files := files;
    }

    // All tokens on one file. An exception anywhere leaves the file as it was and is a failure.
    method ScrubFile(codec: Codec, depth: nat, name: string, tokens: seq<bytes>) returns (ok: bool)
      requires Usable(tokens)
      modifies this
      ensures var cleaned := if name in old(files) then ScrubAll(codec, depth, name, old(files)[name], tokens) else None;
              && files == (if cleaned.Some? then old(files)[name := cleaned.value] else old(files))
              && ok == (cleaned.Some? && !AnyLeak(cleaned.value, tokens))
      ensures IsLawfulRun(codec, tokens) ==>
                KeepsShapes(codec, depth, old(files), files) && (ok ==> IsClean(codec, depth, files, name, tokens))
    {
      if name !in files { return false; }
      var cleaned := files[name];
      for i := 0 to |tokens|
        invariant files == old(files)
        invariant ScrubAll(codec, depth, name, old(files)[name], tokens[..i]) == Some(cleaned)
      {
        assert tokens[..i + 1][..i] == tokens[..i];
        FailureStays(codec, depth, name, files[name], tokens, i + 1);
        var next := ScrubBytes(codec, depth, name, cleaned, tokens[i]);
        if next.None? { return false; }
        cleaned := next.value;
      }
      assert tokens[..|tokens|] == tokens;
      if cleaned != files[name] {
        files := files[name := cleaned];
      }
      ok := !AnyLeak(cleaned, tokens);
      if IsLawfulRun(codec, tokens) { ScrubbedIsClean(codec, depth, old(files), files, name, tokens); }
    }

    // Exit code 0 means that every file but the media files was scrubbed and shows no form of any
    // token; with no file named twice, it is exactly that.
    method Run(codec: Codec, depth: nat, names: seq<string>, tokens: seq<bytes>) returns (code: int)
      requires Usable(tokens)
      modifies this
      ensures code == 0 || code == 1
      ensures tokens == [] ==> code == 0 && files == old(files)
      ensures forall name :: name !in names || IsMediaName(name) ==> SameAt(old(files), files, name)
      ensures code == 0 && tokens != [] ==>
                forall name :: name in names ==> IsMediaName(name) || ShowsNothing(files, name, tokens)
      // Then no leaf at any depth of archives shows any token, unless it is an html report, and none shows
      // the last; whatever the code, no file changes its shape.
      ensures IsLawfulRun(codec, tokens) ==>
                && KeepsShapes(codec, depth, old(files), files)
                && (code == 0 ==> forall name :: name in names ==> IsMediaName(name) || IsClean(codec, depth, files, name, tokens))
      ensures Distinct(names) && tokens != [] ==>
                && (code == 0 <==> forall i :: 0 <= i < |names| && !IsMediaName(names[i]) ==>
                                     Passes(codec, depth, old(files), names[i], tokens))
                && (forall i :: 0 <= i < |names| && !IsMediaName(names[i])
                                && Passes(codec, depth, old(files), names[i], tokens) ==>
                      IsScrubbed(codec, depth, old(files), files, names[i], tokens))
    {
      if tokens == [] { return 0; }
      var failures := 0;
      NothingScanned(codec, depth, files, names, tokens);
      for i := 0 to |names|
        invariant failures >= 0
        invariant Scanned(codec, depth, old(files), files, names, i, tokens, failures == 0)
      {
        if IsMedia(names[i]) {
          MediaScanned(codec, depth, old(files), files, names, i, tokens, failures == 0);
          continue;
        }
        ghost var before := files;
        var ok := ScrubFile(codec, depth, names[i], tokens);
        FileScanned(codec, depth, old(files), before, files, names, i, tokens, failures == 0, ok);
        if !ok { failures := failures + 1; }
      }
      code := if failures > 0 then 1 else 0;
      ScannedByName(codec, depth, old(files), files, names, tokens, failures == 0);
    }
  }

  // What `main` has done to the first i files, `good` if none of them failed.
  ghost predicate Scanned(codec: Codec, depth: nat, was: map<string, bytes>, files: map<string, bytes>, names: seq<string>,
                          i: nat, tokens: seq<bytes>, good: bool)
    requires Usable(tokens) && tokens != [] && i <= |names|
  {
    && (forall name :: name !in names || IsMedia(name) ==> SameAt(was, files, name))
    && (IsLawfulRun(codec, tokens) ==> KeepsShapes(codec, depth, was, files))
    && (good ==> AreGood(codec, depth, files, names, i, tokens))
    && (Distinct(names) ==>
          && SameFrom(was, files, names, i)
          && (good <==> AllPass(codec, depth, was, names, i, tokens))
          && AreScrubbed(codec, depth, was, files, names, i, tokens))
  }

  // What `main` has done to all files, with the media files told by their names.
  lemma ScannedByName(codec: Codec, depth: nat, was: map<string, bytes>, files: map<string, bytes>, names: seq<string>,
                      tokens: seq<bytes>, good: bool)
    requires Usable(tokens) && tokens != [] && Scanned(codec, depth, was, files, names, |names|, tokens, good)
    ensures forall name :: name !in names || IsMediaName(name) ==> SameAt(was, files, name)
    ensures good ==> forall name :: name in names ==> IsMediaName(name) || IsGood(codec, depth, files, name, tokens)
    ensures Distinct(names) ==>
              && (good <==> forall i :: 0 <= i < |names| && !IsMediaName(names[i]) ==> Passes(codec, depth, was, names[i], tokens))
              && (forall i :: 0 <= i < |names| && !IsMediaName(names[i]) && Passes(codec, depth, was, names[i], tokens) ==>
                    IsScrubbed(codec, depth, was, files, names[i], tokens))
  {
    forall name ensures IsMedia(name) <==> IsMediaName(name) {
      MediaExactly(name);
    }
  }

  ghost predicate AreGood(codec: Codec, depth: nat, files: map<string, bytes>, names: seq<string>, i: nat, tokens: seq<bytes>)
    requires Usable(tokens) && tokens != [] && i <= |names|
  {
    forall j :: 0 <= j < i ==> IsMedia(names[j]) || IsGood(codec, depth, files, names[j], tokens)
  }

  predicate SameFrom(was: map<string, bytes>, files: map<string, bytes>, names: seq<string>, i: nat) {
    forall j :: i <= j < |names| ==> SameAt(was, files, names[j])
  }

  predicate AllPass(codec: Codec, depth: nat, was: map<string, bytes>, names: seq<string>, i: nat, tokens: seq<bytes>)
    requires Usable(tokens) && i <= |names|
  {
    forall j :: 0 <= j < i && !IsMedia(names[j]) ==> Passes(codec, depth, was, names[j], tokens)
  }

  predicate AreScrubbed(codec: Codec, depth: nat, was: map<string, bytes>, files: map<string, bytes>, names: seq<string>, i: nat,
                        tokens: seq<bytes>)
    requires Usable(tokens) && i <= |names|
  {
    forall j :: 0 <= j < i && !IsMedia(names[j]) && Passes(codec, depth, was, names[j], tokens) ==>
      IsScrubbed(codec, depth, was, files, names[j], tokens)
  }

  ghost predicate IsGood(codec: Codec, depth: nat, files: map<string, bytes>, name: string, tokens: seq<bytes>)
    requires Usable(tokens) && tokens != []
  {
    ShowsNothing(files, name, tokens) && (IsLawfulRun(codec, tokens) ==> IsClean(codec, depth, files, name, tokens))
  }

  lemma NothingScanned(codec: Codec, depth: nat, files: map<string, bytes>, names: seq<string>, tokens: seq<bytes>)
    requires Usable(tokens) && tokens != []
    ensures Scanned(codec, depth, files, files, names, 0, tokens, true)
  {
  }

  lemma MediaIsGood(codec: Codec, depth: nat, files: map<string, bytes>, names: seq<string>, i: nat, tokens: seq<bytes>)
    requires Usable(tokens) && tokens != [] && i < |names| && IsMedia(names[i])
    requires AreGood(codec, depth, files, names, i, tokens)
    ensures AreGood(codec, depth, files, names, i + 1, tokens)
  {
  }

  lemma MediaPasses(codec: Codec, depth: nat, was: map<string, bytes>, names: seq<string>, i: nat, tokens: seq<bytes>)
    requires Usable(tokens) && i < |names| && IsMedia(names[i])
    ensures AllPass(codec, depth, was, names, i + 1, tokens) <==> AllPass(codec, depth, was, names, i, tokens)
  {
  }

  lemma MediaIsLeft(codec: Codec, depth: nat, was: map<string, bytes>, files: map<string, bytes>, names: seq<string>, i: nat,
                    tokens: seq<bytes>)
    requires Usable(tokens) && i < |names| && IsMedia(names[i]) && AreScrubbed(codec, depth, was, files, names, i, tokens)
    ensures AreScrubbed(codec, depth, was, files, names, i + 1, tokens)
  {
  }

  lemma MediaScanned(codec: Codec, depth: nat, was: map<string, bytes>, files: map<string, bytes>, names: seq<string>,
                     i: nat, tokens: seq<bytes>, good: bool)
    requires Usable(tokens) && tokens != [] && i < |names| && IsMedia(names[i])
    requires Scanned(codec, depth, was, files, names, i, tokens, good)
    ensures Scanned(codec, depth, was, files, names, i + 1, tokens, good)
  {
    if good { MediaIsGood(codec, depth, files, names, i, tokens); }
    if Distinct(names) {
      MediaPasses(codec, depth, was, names, i, tokens);
      MediaIsLeft(codec, depth, was, files, names, i, tokens);
    }
  }

  // What ScrubFile does to one file.
  ghost predicate IsFileScrub(codec: Codec, depth: nat, files: map<string, bytes>, files': map<string, bytes>, name: string,
                              tokens: seq<bytes>, ok: bool)
    requires Usable(tokens) && tokens != []
  {
    && (var cleaned := if name in files then ScrubAll(codec, depth, name, files[name], tokens) else None;
        && files' == (if cleaned.Some? then files[name := cleaned.value] else files)
        && ok == (cleaned.Some? && !AnyLeak(cleaned.value, tokens)))
    && (IsLawfulRun(codec, tokens) ==>
          KeepsShapes(codec, depth, files, files') && (ok ==> IsClean(codec, depth, files', name, tokens)))
  }

  lemma ScrubbedOne(codec: Codec, depth: nat, files: map<string, bytes>, files': map<string, bytes>, name: string,
                    tokens: seq<bytes>, ok: bool)
    requires Usable(tokens) && tokens != [] && IsFileScrub(codec, depth, files, files', name, tokens, ok)
    ensures ok <==> Passes(codec, depth, files, name, tokens)
    ensures ok ==> IsGood(codec, depth, files', name, tokens) && IsScrubbed(codec, depth, files, files', name, tokens)
    ensures forall other :: other != name ==> SameAt(files, files', other)
  {
  }

  lemma StaysGood(codec: Codec, depth: nat, files: map<string, bytes>, files': map<string, bytes>, name: string, tokens: seq<bytes>)
    requires Usable(tokens) && tokens != [] && SameAt(files, files', name) && IsGood(codec, depth, files, name, tokens)
    ensures IsGood(codec, depth, files', name, tokens)
  {
  }

  lemma OneMoreGood(codec: Codec, depth: nat, files: map<string, bytes>, files': map<string, bytes>, names: seq<string>, i: nat,
                    tokens: seq<bytes>)
    requires Usable(tokens) && tokens != [] && i < |names| && AreGood(codec, depth, files, names, i, tokens)
    requires IsGood(codec, depth, files', names[i], tokens)
    requires forall other :: other != names[i] ==> SameAt(files, files', other)
    ensures AreGood(codec, depth, files', names, i + 1, tokens)
  {
    forall j | 0 <= j < i + 1 ensures IsMedia(names[j]) || IsGood(codec, depth, files', names[j], tokens) {
      if names[j] != names[i] && !IsMedia(names[j]) { StaysGood(codec, depth, files, files', names[j], tokens); }
    }
  }

  lemma SameScrub(codec: Codec, depth: nat, was: map<string, bytes>, files: map<string, bytes>, files': map<string, bytes>,
                  name: string, tokens: seq<bytes>)
    requires Usable(tokens) && SameAt(was, files, name)
    ensures Passes(codec, depth, was, name, tokens) <==> Passes(codec, depth, files, name, tokens)
    ensures IsScrubbed(codec, depth, files, files', name, tokens) ==> IsScrubbed(codec, depth, was, files', name, tokens)
  {
  }

  lemma OneMorePasses(codec: Codec, depth: nat, was: map<string, bytes>, names: seq<string>, i: nat, tokens: seq<bytes>)
    requires Usable(tokens) && i < |names| && !IsMedia(names[i])
    ensures AllPass(codec, depth, was, names, i + 1, tokens)
            <==> AllPass(codec, depth, was, names, i, tokens) && Passes(codec, depth, was, names[i], tokens)
  {
  }

  lemma OneMoreScrubbed(codec: Codec, depth: nat, was: map<string, bytes>, files: map<string, bytes>, files': map<string, bytes>,
                        names: seq<string>, i: nat, tokens: seq<bytes>)
    requires Usable(tokens) && i < |names| && Distinct(names) && AreScrubbed(codec, depth, was, files, names, i, tokens)
    requires Passes(codec, depth, was, names[i], tokens) ==> IsScrubbed(codec, depth, was, files', names[i], tokens)
    requires forall other :: other != names[i] ==> SameAt(files, files', other)
    ensures AreScrubbed(codec, depth, was, files', names, i + 1, tokens)
  {
    forall j | 0 <= j < i + 1 && !IsMedia(names[j]) && Passes(codec, depth, was, names[j], tokens)
      ensures IsScrubbed(codec, depth, was, files', names[j], tokens)
    {
      if j < i { assert IsScrubbed(codec, depth, was, files, names[j], tokens) && SameAt(files, files', names[j]); }
    }
  }

  lemma SameLater(was: map<string, bytes>, files: map<string, bytes>, files': map<string, bytes>, names: seq<string>, i: nat)
    requires i < |names| && Distinct(names) && SameFrom(was, files, names, i)
    requires forall other :: other != names[i] ==> SameAt(files, files', other)
    ensures SameFrom(was, files', names, i + 1)
  {
    forall j | i + 1 <= j < |names| ensures SameAt(was, files', names[j]) {
      assert SameAt(was, files, names[j]) && SameAt(files, files', names[j]);
    }
  }

  lemma FileScanned(codec: Codec, depth: nat, was: map<string, bytes>, files: map<string, bytes>, files': map<string, bytes>,
                    names: seq<string>, i: nat, tokens: seq<bytes>, good: bool, ok: bool)
    requires Usable(tokens) && tokens != [] && i < |names| && !IsMedia(names[i])
    requires Scanned(codec, depth, was, files, names, i, tokens, good)
    requires IsFileScrub(codec, depth, files, files', names[i], tokens, ok)
    ensures Scanned(codec, depth, was, files', names, i + 1, tokens, good && ok)
  {
    ScrubbedOne(codec, depth, files, files', names[i], tokens, ok);
    if good && ok { OneMoreGood(codec, depth, files, files', names, i, tokens); }
    if Distinct(names) {
      SameScrub(codec, depth, was, files, files', names[i], tokens);
      SameLater(was, files, files', names, i);
      OneMorePasses(codec, depth, was, names, i, tokens);
      OneMoreScrubbed(codec, depth, was, files, files', names, i, tokens);
    }
  }

  ghost predicate IsLawfulRun(codec: Codec, tokens: seq<bytes>) {
    Lawful(codec) && AllForeign(tokens) && tokens != []
  }

  ghost predicate KeepsShapes(codec: Codec, depth: nat, files: map<string, bytes>, files': map<string, bytes>) {
    && files'.Keys == files.Keys
    && forall name :: name in files ==>
         ShapeOf(codec, depth, name, files'[name], false) == ShapeOf(codec, depth, name, files[name], false)
  }

  // At no leaf of the file, at whatever depth of archives, does a token show; in html reports, not the last.
  ghost predicate IsClean(codec: Codec, depth: nat, files: map<string, bytes>, name: string, tokens: seq<bytes>)
    requires tokens != []
  {
    && name in files
    && AtLeaves(codec, depth, name, files[name], false, PlainLacksAll(tokens))
    && AtLeaves(codec, depth, name, files[name], false, Lacks(Last(tokens)))
  }

  lemma ScrubbedIsClean(codec: Codec, depth: nat, files: map<string, bytes>, files': map<string, bytes>, name: string,
                        tokens: seq<bytes>)
    requires IsLawfulRun(codec, tokens) && name in files
    requires ScrubAll(codec, depth, name, files[name], tokens).Some?
    requires files' == files[name := ScrubAll(codec, depth, name, files[name], tokens).value]
    ensures KeepsShapes(codec, depth, files, files') && IsClean(codec, depth, files', name, tokens)
  {
    PlainLeavesAreClean(codec, depth, name, files[name], false, tokens);
  }

  // A file that is no archive shows no token at all once it passes.
  lemma PassedLeafIsClean(codec: Codec, depth: nat, name: string, data: bytes, tokens: seq<bytes>)
    requires !IsZip(data) && !AnyLeak(data, tokens)
    ensures AtLeaves(codec, depth, name, data, false, LacksAll(tokens))
  {
    forall i | 0 <= i < |tokens| ensures !Contains(data, tokens[i]) {
      assert !Leaked(data, tokens[i]);
    }
  }

  predicate SameAt(files: map<string, bytes>, files': map<string, bytes>, name: string) {
    (name in files <==> name in files') && (name in files ==> files[name] == files'[name])
  }

  predicate ShowsNothing(files: map<string, bytes>, name: string, tokens: seq<bytes>)
    requires Usable(tokens)
  {
    name in files && !AnyLeak(files[name], tokens)
  }

  predicate IsScrubbed(codec: Codec, depth: nat, files: map<string, bytes>, files': map<string, bytes>, name: string,
                       tokens: seq<bytes>)
    requires Usable(tokens)
  {
    name in files && name in files' && ScrubAll(codec, depth, name, files[name], tokens) == Some(files'[name])
  }

  predicate Distinct(names: seq<string>) {
    forall i, j :: 0 <= i < j < |names| ==> names[i] != names[j]
  }

  // A file that is there, scrubs without an exception, and shows nothing afterwards.
  predicate Passes(codec: Codec, depth: nat, files: map<string, bytes>, name: string, tokens: seq<bytes>)
    requires Usable(tokens)
  {
    name in files
    && match ScrubAll(codec, depth, name, files[name], tokens)
       case Some(cleaned) => !AnyLeak(cleaned, tokens)
       case None => false
  }

  lemma FailureStays(codec: Codec, depth: nat, name: string, data: bytes, tokens: seq<bytes>, i: nat)
    requires Usable(tokens) && i <= |tokens|
    ensures ScrubAll(codec, depth, name, data, tokens[..i]).None? ==> ScrubAll(codec, depth, name, data, tokens).None?
    decreases |tokens| - i
  {
    if i < |tokens| {
      assert tokens[..i + 1][..i] == tokens[..i];
      FailureStays(codec, depth, name, data, tokens, i + 1);
    } else {
      assert tokens[..i] == tokens;
    }
  }
}
