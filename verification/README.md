# Verified models of the release, scrubbing, workflow and backup tooling

This project models the parts of the Bike4Mind repository that decide things on their own: which
desktop version a commit gets and when it is published, whether a change touches the desktop app at
all, whether test output is free of secrets, which workflow lines are scripts, when a queue message may
be redelivered, and whether a restored self-host stack is the one that was backed up. Everything is
proved by Dafny for all inputs, all reachable states or all runs; `dafny verify dfyconfig.toml` checks
the whole project.

## Desktop releases

`Git` is a commit graph: commits with parents and a tree of paths. `Dependencies` and
`DesktopAffected` model `scripts/desktop_affected.py`. Both worklists of `dependency_inputs` are
methods proved to compute exactly the least closed set of their graph (`Closure`), in whatever order
they pop. The consequence the release workflow relies on is that "not affected" is an equivalence
relation on trees, and so a cumulative difference always shows up in one of the commits. The walks over
commits find an affected one exactly if the range is affected up to some commit of it.

What "affected" means is said in terms of the two trees alone. `WorkspaceChains` tells the roots by chains
of dependencies between the packages, `LockfileChains` the resolved packages by chains of lockfile entries,
`AffectedExactly` what two lockfiles and root manifests must agree on, and `ChangedPaths` the paths that
count; together they are an equivalence (`ChangedPaths.UnaffectedExactly`).

`ReleaseVersion` models `select_version`, `split_orphans`, `with_reservations` and `bump_level`
(`CommitMessage`), each loop as a method proved against a function, and `SemVer` the tag grammar.
`ReleaseProperties` says what one selection promises, `CommitLevels` and `SelectedVersion` what every
message asks for and what is selected from it, on main and for a preview, and `PreviousRelease` which
release it follows. `ReleasePipeline` turns this into a state
machine: commits are pushed, runs select, publish jobs discard, reserve, draft and publish and may
stop after any of these, be attempted again, and releases may be marked prerelease or returned to draft.
`ReleaseSelection` says for every reachable state what a run there hands over, exactly
(`ReleaseSelection.HandsOverExactly`), with the retained tag `desktop-v1.0.0` among the tags.
The theorems about order start `Settled`: published versions rise along one ancestor chain, no job is open
and no version is held that was never out. Over all executions:

* a tagged version keeps its commit exactly as long as no attempt reclaims it
  (`PublishedVersions.KeepsCommitExactly`), and a published one does so unless it is returned to draft
  first (`PublishedVersions.PublishedNeverMoves`), in which case it can move
  (`OrderExactly.RedraftedVersionMoves`);
* published versions stay in order exactly for certain policies: runs start in commit order and only the
  newest run's job is attempted (`RunsInOrder`); or no release is withdrawn or returned to draft, and,
  if nothing has been released yet, all runs read one baseline (`StaleReruns`); and in both cases no
  release marked prerelease is returned to draft. For every other combination of these freedoms there is
  an execution that ends out of order (`OrderPolicies`, `OrderExactly.OrderExactly`);
* a run repeated on its commit after its job broke off selects the same version again, from any
  reachable state, and reclaims the same if it broke off before the reservation (`CrashRecovery`);
* while published versions are in order, what an older checkout hands over after a newer release is
  exactly the draft it holds itself above everything in view (`OlderCheckouts`); with the policies of
  `StaleReruns` that is nothing (`StaleReruns.OlderCheckoutNeverPublishes`).

What the proofs found:

* `\d` in `VERSION` matches digits of other scripts, so a tag is the tag of the version it reads as
  exactly if it is ASCII (`SemVer.PrintOfParse`, `SemVer.ForeignDigitsSlipThrough`).
* After a crash, selecting again on the same commit gives the same version and reclaims nothing. It
  also says publish, except when the only trace of the reservation is a source tag of
  `WITHDRAWN_SOURCE_RELEASES`: that is then taken for released (`CrashRecovery.CrashRecovery`).
* `apps/desktop/README.md` says that an older checkout cannot publish after a newer release, and names
  both ways of taking a release back as safe before a rerun. After either, an older checkout that
  holds a higher draft does publish it (`OrderExactly.EarlierRunBreaks`), and so does a late attempt of an
  earlier job (`OrderExactly.LateAttemptBreaks`); a release returned to draft is published again, on
  another commit and under the same version (`OrderExactly.RedraftedVersionMoves`).
* An affected range always has an affected commit, but an unaffected range may have some as well: a
  change and its revert cancel (`DesktopAffected.RevertedCommitsCancel`). It has one exactly if it is
  affected up to some commit of it (`DesktopAffected.CommitsShowExactly`), so the cumulative test and the
  walks agree exactly on ranges affected as a whole or up to none of their commits
  (`DesktopAffected.CumulativeTestAgreesExactly`).
* A release marked prerelease and then returned to draft is published again beside the one that replaced
  it on the same commit (`OrderExactly.RevivedReleaseBreaks`).

`SourceReader` is the reader of `git cat-file --batch` over an arbitrary byte stream, and `SharedNotes`
the import scan behind the release notes.

## Secrets in test output

`ScrubToken`, `ScrubGate`, `Base64` and `Replacement` model `scripts/scrub-e2e-token.py`; the other modules
say what it leaves of a file. A pass succeeds exactly if every archive at every depth, inlined or not,
can be read (`DeepScrub.ScrubSucceedsExactly`). A token that cannot lie across a placeholder is gone after
its replacement, and every other one comes back in some data (`Replacement.ComesBackExactly`); without
brackets these are the parts of the word `scrubbed` (`Replacement.BracketFreeComesBackExactly`). The results
about several tokens are for tokens without brackets that are no such part.

Whatever the data, a run that succeeds leaves none of its tokens at any leaf of any archive at any depth
that is not html, and its last token at no leaf, and keeps the shape of the file
(`ScrubbedFiles.PlainLeavesAreClean`). Exit code 0 promises this of every file, and of a file that is no
archive that it shows no token at all (`ScrubGate.Output.Run`, `ScrubGate.PassedLeafIsClean`). In html reports
an earlier token is left exactly if the last pass leaves it where it replaces nothing
(`ScrubbedFiles.AllTokensAreGoneExactly`).

Archives inlined in html reports are treated to all depths as well (`DeepScrub.AtLeaves`):

* they come through a replacement exactly if no replaced occurrence of the token overlaps one, in texts
  where none begins within another (`BlobOverlap.BlobsComeThroughExactly`); one direction needs no such
  condition, and the other fails without it (`BlobOverlap.AnotherTakesItsPlace`);
* a token replaced earlier is back after a later pass exactly if it has come about in, or on the edge
  of, an inline archive that pass encoded anew (`ScrubbedFiles.EarlierStayGoneExactly`), which can
  happen for every codec (`TokenComesBack.EarlierTokenComesBack`). A report that is a file of its own is
  then refused (`TokenComesBack.EarlierTokenIsRefused`); of a report within an archive only the archive's own
  bytes are checked (`TokenComesBack.EarlierTokenComesBackInside`);
* a run in which no token overlaps an inline archive and none comes about in one leaves no token
  anywhere, keeps the shape of the file, and changes nothing when repeated
  (`ScrubbedFiles.AllTokensAreGone`, `ScrubbedFiles.SecondRunChangesNothing`);
* where the inline archives stand between bytes no token has, such as quotes, a run is such a run exactly
  if in no pass its own or an earlier token occurs inside an inline archive encoded anew
  (`FencedReports.FencedRunExactly`). That holds in particular if each token has a byte no inline archive
  has, such as `-`, and if nothing is inlined (`FencedReports.SealedIsUndisturbed`). A token of hexadecimal
  digits has no such byte, and whether it turns up depends on the compressed bytes.

The gate passes over exactly the files whose names end in one of four endings (`ScrubGate.MediaExactly`). It
detects the token in the base64 of anything it is part of, at any alignment, and in the one percent-encoding
that RFC 3986 calls normal (`PercentEncoding.QuoteExactly`), though in no other
(`PercentEncoding.OtherSpellingsPass`); tokens of six bytes or fewer never pass, because one of their forms is
empty. `ArchiveForms` says what an archive, a report and an inline archive are, byte by byte.

## Workflow scripts

`RunBodies` and `WorkflowSteps` model the scanners of `scripts/check-no-run-interpolation.py` line by
line and prove them against descriptions that mention no scanner state: which lines open a block, which
lie inside a body, where a value ends. The description has exactly one solution. `LinePatterns` tells each line
pattern by the lines it takes, and `ScriptText` what is yielded by the text of the workflow.

## Queues

`JobQueue` is an SQS queue, its Lambda and the handler's lease as a timed transition system, and
`SingleRecord` a handler that reads only the first record of a batch. The numbers are those of
`infra/queues.ts` and `infra/constants.ts`. Each safety property is proved to hold exactly for certain
settings. At most one worker holds the lease exactly if invocations are killed and the timeout does not
exceed the lease. The 6-minute visibility timeout is needed for something else, that a running step is not
redelivered, and there it must also cover the time between a receive and the start of the invocation.
`JobFates` says what becomes of every message and of the lease over whole runs.

## Backup and restore

`SelfhostBackup` models `restore` and its commands as a class with databases and buckets, `ObjectCounts` the
counts it reads back, and `RestoreExactness` what a reported success means. A restore into a fresh
project is accepted exactly if the stack then holds the backup, even if the mirror silently passes over
objects; a refused one changes nothing. A restore with `--yes` is accepted exactly if in every bucket the
mirror passes over as many copies of absent objects as removals, and it leaves the stack holding the
backup exactly if it passes over none that matters; then it makes good whatever an earlier one left behind. `BackupWindow` shows why the dump is taken with its oplog and before the objects.

What the proofs found:

* Two bucket keys with the same bucket name can be backed up, but no restore is ever accepted: the count
  output then has a line twice, which `parse_counts` refuses (`RestoreExactness.BackupThenRestore`).
* With `--yes` the final counts can balance if the mirror passes over as many copies as removals
  (`RestoreExactness.CountsCanBalance`).
* The manifest sees a missing file but not a changed one (`RestoreExactness.DamageIsSeenExactly`), as
  `SELF_HOST.md` says.

## Model

| member | source | states |
|---|---|---|
| Closure.DrainedWorklist | scripts/desktop_affected.py:46-61 | a worklist that has run dry and never left the reachable nodes has visited exactly the least closed set |
| Closure.ReachIsWalks | scripts/desktop_affected.py:94-103 | the least closed set is the set of nodes some walk from a seed leads to |
| Closure.ReachIsLocal | scripts/desktop_affected.py:94-103 | graphs that agree on what one of them reaches reach the same |
| Dependencies.MembersHaveDistinctFolders | scripts/desktop_affected.py:41-45 | packages listed under different names have different folders, so marking folders as visited is as good as marking names |
| Dependencies.FollowWorkspace | scripts/desktop_affected.py:46-63 | the workspace loop ends on every graph with the folders of exactly the packages reachable from the desktop manifest, or fails where an unresolved workspace version or a missing desktop manifest makes it raise |
| Dependencies.FollowLockfile | scripts/desktop_affected.py:78-103 | the lockfile loop ends on every graph with exactly the resolved packages reachable from the importers, and fails exactly if one of them cannot be resolved |
| Dependencies.EnqueueGroups | scripts/desktop_affected.py:81-89 | what one importer or snapshot adds to the queue, and when its groups make it raise |
| Dependencies.ResolvedIsLocal | scripts/desktop_affected.py:94-111 | two lockfiles that agree on the closure of one resolve to the same packages |
| DesktopAffected.ReadInputs | scripts/desktop_affected.py:39-118 | reading a revision gives its dependency inputs, or fails wherever one of its documents, sections or importers is missing or malformed |
| DesktopAffected.ProjectionIsLocal | scripts/desktop_affected.py:104-111 | lockfiles that agree on the importers, the closure of one, and the settings have the same projection |
| DesktopAffected.ImportersNameTheRoots | scripts/desktop_affected.py:72-75 | the projected importers are keyed by exactly the workspace roots and '.', so equal projections have equal roots |
| WorkspaceChains.PackageExactly | scripts/desktop_affected.py:41-45 | a name stands for a folder exactly if its `package.json`, two levels down under one of the three directories, declares the name, or has it for its path, and no later one in code-point order does |
| WorkspaceChains.MembersReadExactly | scripts/desktop_affected.py:41-45 | the manifests are read exactly if each of them is a JSON object |
| WorkspaceChains.RootsExactly | scripts/desktop_affected.py:46-61 | the roots are exactly the folders of packages that a chain of dependencies, in any of the four groups, leads to from the desktop package |
| WorkspaceChains.RootsReadExactly | scripts/desktop_affected.py:46-63 | the walk succeeds exactly if the desktop package is the one in `apps/desktop` and on no chain a package records a `workspace:` or `link:` version of a package that is not there |
| LockfileChains.EntryExactly | scripts/desktop_affected.py:81-89 | an entry `name` with a version adds `name@version` to the queue, an `npm:` version what follows the colon, and a `link:` or `workspace:` version nothing |
| LockfileChains.ResolvedExactly | scripts/desktop_affected.py:94-103 | the packages are followed to the end exactly if each that a chain of entries leads to from an importer can be resolved and read, and then those are the resolved ones |
| AffectedExactly.LockReadsExactly | scripts/desktop_affected.py:66-103 | a lockfile is projected exactly if it has format 9.0, its three sections and the importers, and every entry on every chain from an importer has a version and can be resolved |
| AffectedExactly.SameProjectionExactly | scripts/desktop_affected.py:104-111 | two lockfiles are projected alike exactly if they agree on the importers of the roots, the tools of the root, the three settings, and the snapshot and package entry of every key a chain leads to |
| AffectedExactly.SameToolingExactly | scripts/desktop_affected.py:112-118 | two root manifests are taken for alike exactly if they agree on four settings, three scripts and the tools of three groups |
| ChangedPaths.UnaffectedExactly | scripts/desktop_affected.py:121-158 | two trees are not affected exactly if they are equal, or both can be read, from the same folders, their lockfiles and root manifests agree on those things, and no changed path but markdown lies in a folder of a needed package, is a listed input or a patch a workspace config names |
| ChangedPaths.SourceChangeIsAffected | scripts/desktop_affected.py:134-141 | a changed path that is no markdown in the folder of a package a chain leads to on either side makes the pair affected |
| ChangedPaths.ListedChangeIsAffected | scripts/desktop_affected.py:142-157 | so does a changed listed input, and a changed patch that the workspace config of either side names |
| ChangedPaths.PackageChangeIsAffected | scripts/desktop_affected.py:104-111 | so does another snapshot or package entry of a key that a chain of lockfile entries leads to |
| DesktopAffected.TestAffected | scripts/desktop_affected.py:121-158 | the early-return test answers true exactly if an input cannot be read, a changed path counts, or the lock or tooling projections differ |
| DesktopAffected.AnyCounts | scripts/desktop_affected.py:135-157 | the loop over changed paths finds one that counts exactly if there is one |
| DesktopAffected.UnaffectedIsSameOrQuiet | scripts/desktop_affected.py:121-158 | two trees are unaffected exactly if they are equal or have equal inputs and no changed path that counts |
| DesktopAffected.UnaffectedIsTransitive | scripts/desktop_affected.py:134-158 | unaffected steps compose, although each test looks at the roots and the workspace config of its own two sides |
| DesktopAffected.UnaffectedIsEquivalence | scripts/desktop_affected.py:121-158 | "not affected" is an equivalence relation on trees |
| DesktopAffected.SomeCommitIsAffected | scripts/desktop_affected.py:161-163 | if a range along the first-parent line is affected, one of its commits is |
| DesktopAffected.CommitsShowExactly | scripts/desktop_affected.py:161-163 | along the first-parent line some commit of a range is affected exactly if the range up to some commit of it is |
| DesktopAffected.CumulativeTestAgreesExactly | scripts/desktop_release_version.py:251-256 | the cumulative skip test agrees with the walks over the commits exactly if the range is affected or no part of it from its base is |
| DesktopAffected.RevertedCommitsCancel | scripts/desktop_affected.py:161-163 | the converse fails: an affected commit may lie in an unaffected range |
| CommitMessage.LevelOfCommit | scripts/desktop_release_version.py:23-32 | a conventional commit asks for 3 exactly if its header is marked or a line of its body announces a break, and otherwise for what its kind says |
| CommitMessage.HeaderRoundTrip | scripts/desktop_release_version.py:25-25 | every header written by the convention, with or without scope and exclamation mark, is read back as its kind and its breaking mark |
| CommitLevels.HeaderExactly | scripts/desktop_release_version.py:25-25 | a line is read as a header of some kind and mark exactly if it is written by the convention |
| CommitLevels.LevelExactly | scripts/desktop_release_version.py:23-32 | the level of every message: 3 exactly if a line announces a break or the header is marked, 2 exactly for an unmarked feature, 0 exactly for the four kinds that do not ship, and so 1 for the rest |
| CommitLevels.OtherSubjectsArePatches | scripts/desktop_release_version.py:23-32 | a message that starts with no small letter, such as the subject of a revert, asks for a patch unless a line announces a break |
| SemVer.ParseOfPrint | scripts/desktop_release_version.py:13-13 | the tag of every version reads as that version |
| SemVer.PrintOfParse | scripts/desktop_release_version.py:13-13 | a tag that reads as a version is the tag of that version exactly if it is ASCII |
| SemVer.ForeignDigitsSlipThrough | scripts/desktop_release_version.py:13-13 | a concrete tag with a digit of another script that reads as 0.1.13 and is not its tag |
| SemVer.MajorZero | scripts/desktop_release_version.py:160-175 | a version has major 0 exactly if its text starts with `0.` |
| ReleaseVersion.SplitOrphans | scripts/desktop_release_version.py:160-175 | the loop keeps exactly the releases that are no orphans, in order, maps each orphan's tag to its commit, and fails exactly if a possible orphan's target does not resolve |
| ReleaseVersion.WithReservations | scripts/desktop_release_version.py:240-248 | the list is extended by a reservation for every version tag without a release, in order, or fails where a tag does not resolve |
| ReleaseVersion.ReservationsAre | scripts/desktop_release_version.py:240-248 | there is a reservation for exactly the version tags no release has, at the commit of the tag, counted as released if the tag is a withdrawn one |
| ReleaseVersion.HighestLevel | scripts/desktop_release_version.py:213-221 | the loop finds the highest level of the affected commits, and fails exactly if one of them has no message |
| ReleaseVersion.SkipOccupied | scripts/desktop_release_version.py:226-230 | the skip loop ends at the first free patch |
| ReleaseVersion.FirstFreeIsFirst | scripts/desktop_release_version.py:226-230 | that patch is free, and every patch below it from the start is taken |
| ReleaseVersion.SelectVersion | scripts/desktop_release_version.py:178-237 | the imperative selection, with its errors in the order of the code, is the function the properties are proved of |
| SelectedVersion.SelectionExactly | scripts/desktop_release_version.py:178-237 | whatever is selected, on main or for a preview: the baseline if there is nothing to follow, and otherwise what the most demanding new commit asks for after the highest release, at the first free patch, with the title in place of the message of a preview's own commit and its two numbers in the suffix; a preview is always published and reclaims nothing |
| SelectedVersion.ArgumentsExactly | scripts/desktop_release_version.py:180-181 | the baseline is refused exactly if it is no version of major 0, and a preview goes wrong over its numbers only if one is no number without a leading zero, and never goes through then |
| PreviousRelease.PreviousExactly | scripts/desktop_release_version.py:194-207 | for every list and every run, the previous revision is none exactly if no release may be followed, and otherwise the tag of the highest, or the commit of a draft, on an ancestor of the head |
| PreviousRelease.PreviousInPipeline | scripts/desktop_release_version.py:194-207 | in every state a run on main follows the highest version in view, by its tag if it is released and by its commit if it is a draft or reservation, and nothing exactly if nothing is in view |
| ReleaseProperties.OccupiedByVersion | scripts/desktop_release_version.py:226-230 | looking versions up by their tag strings finds exactly the versions that are taken, if and only if every taken tag that reads as a version has its ASCII twin beside it |
| ReleaseProperties.FreshVersion | scripts/desktop_release_version.py:208-237 | a mainline run not on its own release publishes exactly if some commit has a level above 0; its version is then above every kept candidate, held by no kept tag, at the first free patch, and reclaims exactly what an orphan holds |
| ReleaseProperties.PendingDraftExactly | scripts/desktop_release_version.py:195-207 | the pending-draft error is raised exactly if the best candidate is a draft under a withdrawn source tag on a strict ancestor |
| ReleasePipeline.MainListsTheState | scripts/desktop_release_version.py:258-281 | the list main builds from distribution releases and source tags, among them tags that read as no version, is one entry for each version held |
| ReleasePipeline.OtherMajorStops | scripts/desktop_release_version.py:188-194 | a tag of another major stops every run with the major-release error, exactly unless it is the retained one or marked prerelease |
| ReleaseSelection.HandsOverExactly | scripts/desktop_release_version.py:178-237 | in every consistent state a run on a commit hands over a version, with a commit to reclaim, exactly if the baseline is a beta version and the commit carries the highest version in view, or nothing is in view and it is the baseline, or it is the first free version above the highest in view and some commit since asks for one |
| ReleaseOrder.BaseHolds | scripts/desktop_release_version.py:160-248 | in every state of every execution tags and releases fit together, open jobs hand over beta versions at their commits, and none reclaims a withdrawn source tag |
| PublishedVersions.MovesExactly | apps/desktop/scripts/reserve-source-tag.py:1-34 | a step moves the tag of a version exactly if it is an attempt of a job that reclaims that version and gets past its reservation |
| PublishedVersions.KeepsCommitExactly | apps/desktop/scripts/reserve-source-tag.py:1-34 | through a whole execution a tagged version keeps its commit exactly if no attempt reclaims it |
| PublishedVersions.OutExactly | apps/desktop/scripts/publish-release.sh:11-35 | in every execution a version is out exactly if it was at the start, or an attempt that may take it got through, and it was not returned to draft since |
| PublishedVersions.PublishedNeverMoves | apps/desktop/scripts/discard-orphaned-draft.py:1-26 | through every execution a published version keeps its commit and stays out, unless it is returned to draft |
| ReleaseOrder.AttemptIsLocal | apps/desktop/scripts/discard-orphaned-draft.py:1-26 | however far an attempt gets, it changes one version only, keeps what is claimed where it is, and claims only for its own commit |
| RunsInOrder.PublishedStaysInOrder | scripts/desktop_release_version.py:160-248 | from a settled start and with runs in commit order and only the newest job attempted, published versions rise strictly along one ancestor chain in every reachable state, whatever breaks off and whichever published release is withdrawn or returned to draft |
| CrashRecovery.SelectedAgain | scripts/desktop_release_version.py:195-205 | where a version sits on the commit itself and nothing in view is higher, exactly that version is handed over, again and again and reclaiming nothing, unless a source tag on the withdrawn list is its only trace |
| CrashRecovery.CrashRecovery | scripts/desktop_release_version.py:160-175 | from every reachable state, after a run and an attempt that stopped anywhere past the reservation, the same run hands over the same version again, or nothing in that one case |
| CrashRecovery.CrashBeforeReservation | scripts/desktop_release_version.py:160-175 | after an attempt that stopped before the reservation the same run hands over the same version and the same commit to reclaim |
| StaleReruns.PublishedStaysInOrder | scripts/desktop_release_version.py:178-237 | from a settled start the order holds for any order of runs and any late attempt of any job, as long as no release is withdrawn or returned to draft and the first release comes from one baseline |
| StaleReruns.OlderCheckoutNeverPublishes | apps/desktop/README.md:368-368 | in such executions a run on a commit before that of a published version hands over nothing |
| OlderCheckouts.NeedsHigherBefore | scripts/desktop_release_version.py:202-204 | in any state, a run before the commit of a published version hands something over only if a higher version sits on its commit or an earlier one |
| OlderCheckouts.OlderCheckoutExactly | apps/desktop/README.md:368-368 | while published versions are in order, it hands over a version exactly if the commit itself holds that version, unpublished and above everything in view, and reclaims nothing |
| OrderExactly.OrderExactly | scripts/desktop_release_version.py:178-237 | for every combination of withdrawing, returning published or withdrawn releases to draft, running earlier commits, attempting late, starting without a release and changing baselines: all its executions stay in order if and only if nothing withdrawn returns to draft, and either runs and jobs keep their order, or nothing is taken back and the first version is settled |
| OrderExactly.RevivedReleaseBreaks | apps/desktop/README.md:484-485 | a withdrawn release returned to draft is published again on the commit of the one that replaced it, with nothing else out of the ordinary |
| OrderExactly.LateAttemptBreaks | apps/desktop/README.md:484-485 | a release taken back in either way and a late attempt of the earlier job end out of order |
| OrderExactly.EarlierRunBreaks | apps/desktop/README.md:484-485 | so do a release taken back and a run on an earlier commit that holds a draft, with no late attempt at all |
| OrderExactly.LateBaselineBreaks | scripts/desktop_release_version.py:208-210 | without a release, two runs with different baselines and a late attempt end out of order |
| OrderExactly.EarlierBaselineBreaks | scripts/desktop_release_version.py:208-210 | without a release, two baselines and a run on an earlier commit end out of order |
| OrderExactly.RedraftedVersionMoves | scripts/test_desktop_release_version.py:99-105 | a published release returned to draft is reclaimed and published again on a later commit under the same version |
| SharedNotes.SharedNoteInputs | scripts/desktop_release_version.py:79-108 | the scan ends with exactly the files reachable by imports |
| SharedNotes.SharedIsImported | scripts/desktop_release_version.py:79-108 | a file is listed exactly if a chain of imports leads to it |
| SourceReader.Reader.ReadSource | scripts/desktop_release_version.py:40-50 | one read returns the blob and leaves the stream at the next response, or fails exactly where the response is no whole blob |
| SourceReader.Reader.ReadSources | scripts/desktop_release_version.py:35-58 | a session reads the responses one after the other |
| SourceReader.FramesRoundTrip | scripts/desktop_release_version.py:40-50 | any sequence of blobs with arbitrary bytes is read back from its responses, leaving the rest of the stream |
| SourceReader.AcceptedIsFramed | scripts/desktop_release_version.py:43-49 | what is accepted was a blob header, that many bytes and a newline |
| SourceReader.MissingIsRefused | scripts/desktop_release_version.py:43-45 | the answer for a missing path is refused |
| Base64.DecodeOfEncode | scripts/scrub-e2e-token.py:40-44 | base64 (section 4 of RFC 4648) decodes to what was encoded |
| Base64.EncodedTokenIsDetected | scripts/scrub-e2e-token.py:48-52 | the base64 of any bytes that contain the token contains the token's form for that alignment |
| Replacement.TokenIsGone | scripts/scrub-e2e-token.py:45-45 | after replacement a token without brackets that is no part of the placeholder's word does not occur |
| Replacement.OthersStayGone | scripts/scrub-e2e-token.py:45-45 | replacing one token brings back no other such token |
| Replacement.OccursAfterExactly | scripts/scrub-e2e-token.py:45-45 | such a string is in the result exactly if it is in the data somewhere that no replaced occurrence of the token overlaps |
| Replacement.ComesBackExactly | scripts/scrub-e2e-token.py:45-45 | a token occurs in some data it has been replaced in exactly if it can lie across a placeholder: from within one on, or from before one where what it begins with does not make it come sooner |
| Replacement.BracketFreeComesBackExactly | scripts/scrub-e2e-token.py:21-21 | of the tokens without brackets exactly the parts of the placeholder's word come back |
| Replacement.BracketsComeBack | scripts/scrub-e2e-token.py:21-21 | each bracket comes back, and two opening ones in a row never do |
| ScrubToken.ScrubZipBytes | scripts/scrub-e2e-token.py:26-33 | every entry is scrubbed under its name, in order, and any entry that fails fails the archive |
| ScrubToken.ScrubBytes | scripts/scrub-e2e-token.py:36-45 | archives are scrubbed entry by entry, html by its inline archives first, everything else by replacement |
| ArchiveForms.KindsExactly | scripts/scrub-e2e-token.py:36-39 | archives are the data that starts with `PK`, reports the names that end in `.html` or `.htm` |
| ArchiveForms.FirstArchive | scripts/scrub-e2e-token.py:23-45 | the first inline archive of a report, its marker and all the base64 that follows, is decoded, scrubbed and encoded again between the text in front of it and what becomes of the rest |
| ArchiveForms.ArchivesAre | scripts/scrub-e2e-token.py:39-44 | the inline archives of a report are that first one and those of the rest |
| ArchiveForms.NoArchive | scripts/scrub-e2e-token.py:39-44 | a report in which none begins has none and is left as it is |
| ArchiveForms.FirstOccurrence | scripts/scrub-e2e-token.py:45-45 | the first occurrence of a token becomes `[scrubbed]`, what is in front of it is kept, and the rest is gone through in the same way |
| ArchiveForms.LastOfName | scripts/scrub-e2e-token.py:27-28 | of several entries of one name the last is read |
| InlineArchives.EmbedRewritesBlobs | scripts/scrub-e2e-token.py:39-44 | the inline archives of the result are those of the report, each decoded, scrubbed and encoded again |
| BlobOverlap.ReplaceKeepsBlobs | scripts/scrub-e2e-token.py:45-45 | the replacement after that leaves all inline archives as they are if no replaced occurrence of the token overlaps one |
| BlobOverlap.BlobsComeThroughExactly | scripts/scrub-e2e-token.py:45-45 | in a text where no inline archive begins within another, they come through exactly if no replaced occurrence overlaps one |
| BlobOverlap.AnotherTakesItsPlace | scripts/scrub-e2e-token.py:22-22 | without that, a token can destroy an inline archive and uncover another that reads the same |
| Respelling.EarlierReturnsExactly | scripts/scrub-e2e-token.py:39-45 | a token an html text lacks is there after a pass for another exactly if, with the inline archives encoded anew, it occurs overlapping one where nothing is replaced |
| DeepScrub.ScrubSucceedsExactly | scripts/scrub-e2e-token.py:26-45 | a pass, for whatever token, fails exactly if an archive at some depth, inlined or not, cannot be read |
| DeepScrub.Pass | scripts/scrub-e2e-token.py:26-45 | any property holds at every leaf at every depth after a pass exactly if it holds of what embedding and replacing make of every leaf; the result is written anew throughout and keeps its shape |
| ScrubbedFiles.PassIsClean | scripts/scrub-e2e-token.py:26-45 | for all data a pass leaves no leaf at any depth that shows its token, nor any leaf of an inline archive if the token overlaps none of those |
| ScrubbedFiles.EarlierStayGoneExactly | scripts/scrub-e2e-token.py:72-75 | tokens gone at all leaves stay gone through a pass for another exactly if that pass brings none about in an inline archive; for the leaves outside inline archives whatever these hold |
| ScrubbedFiles.PlainLeavesAreClean | scripts/scrub-e2e-token.py:64-75 | for all data, a run that succeeds leaves none of its tokens at any leaf that is not html at any depth, its last token at no leaf, and the shape as it was; in inline archives too if no pass overlaps one |
| ScrubbedFiles.AllTokensAreGoneExactly | scripts/scrub-e2e-token.py:64-75 | for all data, after a run that succeeds every leaf lacks all tokens exactly if in the html reports the last pass leaves no earlier one where it replaces nothing |
| ScrubbedFiles.AllTokensAreGone | scripts/scrub-e2e-token.py:64-75 | a run over a readable file in which no token overlaps an inline archive or comes about in one succeeds and leaves none of its tokens at any leaf at any depth, html reports and their inline archives included, in a file of the same shape |
| ScrubbedFiles.SecondRunChangesNothing | scripts/scrub-e2e-token.py:64-75 | a second such run over the result is the identity |
| ScrubbedFiles.TwoTokensExactly | scripts/scrub-e2e-token.py:56-75 | of the two tokens of the script both are gone exactly if the second pass does not bring the first about; for the leaves outside inline archives whatever these hold |
| Fences.FencedOverlapsExactly | scripts/scrub-e2e-token.py:39-45 | where inline archives stand between bytes a token does not have, the token overlaps one when it is replaced exactly if it occurs inside one |
| FencedReports.FencedRunExactly | scripts/scrub-e2e-token.py:39-45 | where inline archives stand between bytes no token has, at every depth, a run is undisturbed exactly if in no pass its own or an earlier token occurs inside an inline archive encoded anew |
| FencedReports.SealedIsUndisturbed | scripts/scrub-e2e-token.py:39-45 | it is undisturbed if no html leaf inlines an archive, or these are fenced so and each token has a byte they do not have |
| TokenComesBack.EarlierTokenComesBack | scripts/scrub-e2e-token.py:72-75 | for every codec, two tokens in the order of the script and a report lacking the first that the pass for the second turns into the first |
| TokenComesBack.EarlierTokenIsRefused | scripts/scrub-e2e-token.py:76-77 | as a file of its own that report is refused |
| TokenComesBack.EarlierTokenComesBackInside | scripts/scrub-e2e-token.py:26-33 | within an archive that report shows the first token as well, at a leaf |
| ScrubGate.PassedHoldsNoEncoding | scripts/scrub-e2e-token.py:48-52 | data that passes contains neither the token nor the base64 of anything the token is part of |
| ScrubGate.ShortTokensNeverPass | scripts/scrub-e2e-token.py:48-52 | a token has at most six bytes exactly if no data passes the check for it |
| PercentEncoding.UnquoteOfQuote | scripts/scrub-e2e-token.py:49-49 | every token is read back from the percent-encoded form the check looks for |
| PercentEncoding.QuoteExactly | scripts/scrub-e2e-token.py:49-49 | that form is the one percent-encoding of the token in which unreserved bytes stand for themselves and all others are triplets with capital digits |
| PercentEncoding.PassedHoldsNoPercentEncoding | scripts/scrub-e2e-token.py:48-52 | data that passes holds no such percent-encoding of the token |
| PercentEncoding.OtherSpellingsPass | scripts/scrub-e2e-token.py:48-52 | other spellings do pass: a token of more than six unreserved bytes with every byte as a triplet |
| ScrubGate.MediaExactly | scripts/scrub-e2e-token.py:22-22 | a file is passed over exactly if its base name is a stem and one of four endings |
| ScrubGate.PassedLeafIsClean | scripts/scrub-e2e-token.py:76-77 | a file that is no archive and passes shows no token |
| ScrubGate.Output.ScrubFile | scripts/scrub-e2e-token.py:69-79 | a file is replaced by its scrubbed contents or, on any failure, left alone; it is good exactly if it scrubs and then shows nothing |
| ScrubGate.Output.Run | scripts/scrub-e2e-token.py:55-82 | exit code 0 means that every file but the media files shows no form of any token, and that at every depth of archives no leaf but html reports shows any token and none the last; no file ever changes its shape; for distinct files, code 0 is exactly that all of them scrub and pass |
| RunBodies.ScalarBody | scripts/check-no-run-interpolation.py:86-99 | the text of a value is its inline part and the maximal following run of blank or deeper lines |
| RunBodies.ScanRuns | scripts/check-no-run-interpolation.py:59-83 | bodies are disjoint and in order, each is a whole value, and every `run:` key in an open block is yielded or lies in an earlier body |
| RunBodies.ScanIsUnique | scripts/check-no-run-interpolation.py:59-83 | only one list of bodies satisfies that description |
| LinePatterns.RunExactly | scripts/check-no-run-interpolation.py:39-39 | a line is read as a `run:` key exactly if it is spaces, perhaps a dash and spaces, the key, spaces and a value that starts visibly, and then with that indentation and value |
| LinePatterns.KeyExactly | scripts/check-no-run-interpolation.py:40-44 | the same for a key without a dash |
| LinePatterns.ScriptExactly | scripts/check-no-run-interpolation.py:40-40 | so for `script:`, with any value |
| LinePatterns.StepsExactly | scripts/check-no-run-interpolation.py:44-44 | and for `steps:`, with nothing behind it but space |
| LinePatterns.ItemExactly | scripts/check-no-run-interpolation.py:41-41 | a list item is spaces, a dash and a space |
| LinePatterns.UseExactly | scripts/check-no-run-interpolation.py:43-43 | a line uses the action exactly if it is a `uses:` key, with or without a dash, quotes and capital letters, whose value starts with its name and `@` |
| LinePatterns.BlockExactly | scripts/check-no-run-interpolation.py:45-45 | a value announces a block exactly if it is a bar or `>`, at most one sign, and digits, with space behind |
| LinePatterns.IndentExactly | scripts/check-no-run-interpolation.py:55-56 | the indentation of a line is the length of its leading spaces, and it is blank exactly if it is nothing else |
| ScriptText.InStepsExactly | scripts/check-no-run-interpolation.py:49-56 | a line stays in a block exactly if it is deeper than the key or a list item as deep |
| ScriptText.BodyExactly | scripts/check-no-run-interpolation.py:59-99 | the yielded bodies are exactly those whose lines, split at newlines, are the inline value unless it announces a block, and the lines below up to the first that is neither blank nor deeper |
| ScriptText.ScriptIsYielded | scripts/check-no-run-interpolation.py:59-83 | every `run:` line in an open block and in no earlier body is yielded so, and an inline value that starts with no block indicator stands at the front of its body |
| ScriptText.InputExactly | scripts/check-no-run-interpolation.py:129-140 | the bodies of a step are exactly the values of its `script:` keys deeper than its item, in a step with a line that uses the action |
| WorkflowSteps.CutBlock | scripts/check-no-run-interpolation.py:110-126 | a block ends at the first line that leaves it and is cut, from its first item to its end, at exactly the items of the first item's indentation |
| WorkflowSteps.Steps | scripts/check-no-run-interpolation.py:102-126 | every `steps:` key opens a block or lies in an earlier one, and the steps of all blocks are yielded in order |
| WorkflowSteps.BlocksAreSteps | scripts/check-no-run-interpolation.py:102-126 | steps are non-empty, disjoint, in order, and each starts on a list item |
| StepUniqueness.StepListIsUnique | scripts/check-no-run-interpolation.py:102-126 | only one list of steps satisfies that description |
| WorkflowSteps.StepBodies | scripts/check-no-run-interpolation.py:132-140 | of a github-script step, exactly the `script:` inputs deeper than its item are yielded, in order |
| WorkflowSteps.GithubScriptBodies | scripts/check-no-run-interpolation.py:129-140 | this holds for every step, and no body reaches into another step |
| JobQueue.OneWorkerExactly | infra/queues.ts:1168-1211 | at most one worker is ever on a job exactly if invocations are killed and the timeout does not exceed the lease |
| JobQueue.NoRedeliveryExactly | infra/queues.ts:1168-1211 | a running step is never redelivered exactly if invocations are killed and start lag and timeout stay below the visibility timeout |
| JobQueue.GenerationExactly | infra/queues.ts:1177-1211 | both hold for the generation queue exactly if invocations start within a minute, duplicates and sweeps included |
| JobQueue.SelfHostedIsNot | infra/queues.ts:1173-1175 | neither holds without the hard kill |
| JobQueue.ReceivesAreSpaced | infra/queues.ts:127-145 | the k-th receive of a message comes no earlier than k - 1 visibility timeouts after its first, and there are at most `retry` |
| JobFates.NothingIsLost | infra/queues.ts:127-145 | in every run a message sent is on the queue exactly until it is acknowledged or dead-lettered, and a dead-lettered one stays so |
| JobFates.LeaseExactly | infra/queues.ts:1168-1211 | in every run the job is leased exactly as the last worker to take the lease left it: none but that worker gives it up, and only when it commits |
| JobQueue.OutlivesClaimsExactly | infra/queues.ts:136-144 | some receive of every dead-lettered message comes past the staleness point exactly if retry - 1 visibility timeouts reach it |
| JobQueue.RevokeOutlivesClaims | infra/queues.ts:136-144 | seven receives 12 minutes apart reach past the 60-minute staleness point |
| SingleRecord.MessagesAreConserved | infra/constants.ts:17-30 | in every reachable state each message is in exactly one place and received at most `retry` times, and with batches of one none is deleted unread |
| SingleRecord.NothingIsLostExactly | infra/constants.ts:17-30 | no run loses a message exactly if batches hold one record |
| SingleRecord.DefaultBatchLoses | infra/constants.ts:21-24 | the default batch size of 10 loses messages whatever the retries |
| ObjectCounts.ParseCounts | scripts/selfhost_backup.py:148-157 | the loop reads every line as a name and a count, and fails exactly at a malformed or repeated line or a wrong set of names |
| ObjectCounts.PrintedIsParsed | scripts/selfhost_backup.py:130-157 | printed counts are read back as they were if the bucket names are distinct, and refused if they are not |
| ObjectCounts.ReadExactly | scripts/selfhost_backup.py:151-154 | a line is read exactly if it is a name, a space and ASCII digits, with spaces allowed in the name |
| ObjectCounts.ParsedExactly | scripts/selfhost_backup.py:148-157 | lines are accepted exactly if each is one and no two share a name, and then the counts are what they say |
| SelfhostBackup.Stack.TargetCounts | scripts/selfhost_backup.py:295-298 | the counts of the configured buckets, 0 for an absent one |
| SelfhostBackup.Stack.DropUserDatabases | scripts/selfhost_backup.py:107-108 | exactly the system databases are left |
| SelfhostBackup.Stack.MongoRestore | scripts/selfhost_backup.py:90-94 | without `--drop` it succeeds exactly if no document is there already, and then adds the archive's |
| SelfhostBackup.Stack.MirrorAll | scripts/selfhost_backup.py:119-127 | the commands of all buckets amount to mirroring each bucket once |
| SelfhostBackup.Stack.Restore | scripts/selfhost_backup.py:287-317 | a restore reports success exactly for the accepted ones and then leaves the final state; whatever is refused changes nothing; a late failure leaves the databases restored |
| SelfhostBackup.NothingClashes | scripts/selfhost_backup.py:304-307 | a target without user databases cannot make the insert fail |
| RestoreExactness.FreshRestoreIsExact | scripts/selfhost_backup.py:299-316 | into an empty target a sound backup is accepted exactly if the stack then holds it, whatever the mirror passes over |
| RestoreExactness.OverwritingRestoreExactly | scripts/selfhost_backup.py:299-316 | with `--yes`, whatever the mirror passes over: accepted exactly if in every bucket the passed-over copies of absent objects are as many as the passed-over removals, and holding the backup exactly if there is none of either and no changed object was passed over |
| RestoreExactness.PathsMeet | scripts/selfhost_backup.py:301-310 | both paths end with the same databases and buckets, from whatever state |
| RestoreExactness.NothingElseChanges | scripts/selfhost_backup.py:104-127 | a restore keeps the system databases and the buckets that are not configured, and adds exactly the configured ones |
| RestoreExactness.DatabasesExactly | scripts/selfhost_backup.py:29-29 | after a restore `admin`, `local` and `config` are what they were, and every other database is the one in the archive or is not there |
| RestoreExactness.CountsCanBalance | scripts/selfhost_backup.py:311-316 | for a mirror that passes over one copy and one removal there is an accepted restore that is not the backup |
| RestoreExactness.BackupThenRestore | scripts/selfhost_backup.py:265-317 | a stack at rest, backed up and restored into a fresh project, is the stack again, and is accepted exactly if no two keys share a bucket |
| RestoreExactness.DamageIsSeenExactly | scripts/selfhost_backup.py:186-203 | a damaged backup is refused exactly if the digest changed, a bucket is gone or its number of files changed |
| BackupWindow.DumpIsAPointInTime | scripts/selfhost_backup.py:86-94 | however long the dump took, replaying its oplog gives the documents as they were when it ended |
| BackupWindow.MissingWasDeleted | scripts/selfhost_backup.py:4-7 | an object a restored document refers to is missing only if it was deleted between the end of the dump and its own copy |
| BackupWindow.BackupIsIntact | scripts/selfhost_backup.py:4-7 | without such deletions every restored document has its objects |
| BackupWindow.ObjectsFirstDangle | scripts/selfhost_backup.py:271-276 | with objects copied first, an upload alone leaves a document without its object |
| BackupWindow.DumpAloneIsNoState | scripts/selfhost_backup.py:86-87 | without the oplog a dump may be no state there ever was |

## Left out

General:

- Subprocesses, the GitHub API, file writing and printed text of all scripts; the commands are parameters or steps of the models.
- `infra/wafPolicy.ts`, `scripts/selfhost_production_preflight.py`, the live drills and all other infrastructure declarations, which declare resources, check settings one by one or call out, and hold no algorithm or state of their own.

Desktop releases:

- Release notes: the Markdown layout, `note_relevant`, and the regular expressions of `workspace_targets`, whose result is the import graph `SharedNotes` starts from.
- Preview runs: what they select is in `SelectedVersion`; they are not part of the state machine.
- ReleasePipeline.MainListsTheState: takes every source tag that reads as a version to be written in ASCII, the source repository's own releases to carry no `desktop-v` version, and the distribution repository to have at most one release for each.
- Runs off main: the pipeline selects on main only, along its first parents (squash merges); a release is not a draft and a prerelease at once.
- ReleaseProperties.FreshVersion: needs a candidate release; without any, the code returns the baseline without looking at the taken tags.
- CrashRecovery.CrashRecovery: publishing again is promised for all tags but a withdrawn source tag without a distribution entry, where the code says otherwise.
- The set of affected commits is a parameter of selection and of the pipeline; `DesktopAffected` says what it is.
- Python's equality of numbers and booleans in the compared projections, Git's quoting of unusual paths, and empty path components.
- SourceReader.Reader.ReadSource: stops before the UTF-8 decoding, and takes a size in plain decimal digits, where int() also takes signs and underscores.

Secrets:

- Deflate, zip metadata and lenient base64 decoding: a codec is any pair of reader and writer where what is written is read back.
- ScrubbedFiles.AllTokensAreGone: whether a token of base64 characters alone turns up in an inline archive encoded anew depends on the compressed bytes, so for such tokens the condition is on the run and not on the report; `FencedReports.FencedRunExactly` states it exactly for fenced archives, `DeepScrub.Spared` and `DeepScrub.NoneRespelled` for all.
- ScrubToken.ScrubBytes: Python's recursion limit is a depth parameter that makes the scrub fail, as the exception does.
- The order of the tokens by length matters only for tokens within tokens; the theorems hold for every order.

Workflow scripts:

- The search for expressions in the bodies and the reporting in `main`.

Queues:

- SingleRecord.MessagesAreConserved: follows a batch from its receive to its handler's end; a message that becomes visible again while its handler runs is the subject of `JobQueue`.
- JobQueue.NoRedeliveryExactly: the bound on the time between a receive and the start of its invocation is an assumption of the model; the comment in the code compares the timeouts only.
- The lease guard (`leaseUntil` before now) and its length are taken from the job model and its wiring; the database is not part of this model, and neither are clock skew and the rare delivery of a message already deleted.
- JobQueue.RevokeOutlivesClaims: says nothing about a live sync that keeps renewing its claim.

Backup and restore:

- `instance_uri`, `resolve_targets`, the command lines and their quoting, and the redaction of passwords.
- SelfhostBackup.Stack.MongoRestore: documents of user databases only; what becomes of `admin` users and roles is left to the tool.
- SelfhostBackup.Stack.Restore: nobody else writes to the target meanwhile, folder markers and object metadata are not modelled, and of several bad buckets it is not said which is reported.
- BackupWindow.MissingWasDeleted: each object is copied at one moment, while a real copy of a large one takes time.
