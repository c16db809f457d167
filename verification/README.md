# Fluxerly release pipeline, verified

A Dafny model of how Fluxerly's SDK is versioned, prepared, published to npm, announced on GitHub and
checked, and of the algorithms around that pipeline. Every effect the original injects (registries,
clocks, GitHub requests, uploads, fingerprint reads) is a nondeterministic step here, so the theorems
hold for every answer it may give. `dafny verify dfyconfig.toml` checks the project.

Code that the source writes as expressions is functions and lemmas; code that it writes as loops over
changing state is methods and classes, proved against such functions or against properties stated
outright.

- `Versions`, `Planning`, `Source`: version texts, their order, the planner, the prerelease cycle that
  feeds the planner its own output.
- `Publication`, `Protocol`, `Recovery`: baselines and tags, any number of candidates prepared and
  published in any order over one append-only registry, and the polling that confirms an upload.
- `GithubServer`, `Reconcile`: the announcement, whose requests may succeed, be refused, or leave
  their effect uncertain.
- `Evidence`, `Readings`, `Reuse`, `VersionChange`, `Provenance`: reading a Check's certificate,
  reusing one while other attempts run, and the chain from each pass back to a full run.
- `Archive`, `ArchiveWriter`, `Fingerprint`: the npm archive and what a release's fingerprint means.
- `Json`, `Differences`, `Wording`, `Keying`, `Rewording`, `Positional`, `Surface`, `Reachability`:
  comparing two API documents, and which schemas their routes reach.
- `Schemas`, `Examples`, `Variants`: generating example values that conform to their schemas, and
  which branches of unions they show.
- `Commands`: splitting prefix-command text into arguments.
- `Text`, `Ordering`, `Clocks`, `Wrappers`: shared texts, sorting, time and result types.

## Where the code falls short of what it promises

Each of these is kept as the code has it, with a lemma that shows it and the exact condition beside it.

- A source version with a build date can be planned to a lower version, and the largest run number
  cannot be continued (`Planning.DatedSourceGoesBack`, exact in `Planning.PlanAdvances`).
- A field `__proto__` with an empty object that only one of two documents has goes unreported, and a
  one-sided field named like a method of every object, such as `constructor`, makes the comparison
  throw (`Differences.InheritedNamesMislead`, exact in `Differences.EmptyMeansAlike` and
  `Differences.ThrowsExactly`).
- Enum values with one text, such as `1` and `"1"`, leave the names beside them compared by position,
  so a mere reordering is reported, exactly if it moves a name (`Positional.EqualTextsStayPositional`).
- A run list that lags behind a rerun lets two attempts wait for each other: always for a start
  between the two attempts (`Reuse.LaggingListWaitsInARing`), never while lists show last attempts
  (`Reuse.NobodyWaitsInARing`).
- It also keeps an answer that a fresh read would change (`Reuse.StaleListMisleads`, exact in
  `Reuse.KeptDecides`), as does a run that ends between the read of its jobs and the read of the run
  (`Reuse.TornReadMisleads`, exact in `Reuse.TornDecides`).
- A run whose first lookup does not show the draft of an earlier run creates a second one, and
  lookups stay ambiguous until one is published (`Reconcile.SecondDraft`). A second one appears
  exactly if the lookup missed an existing release and the creation took effect
  (`Reconcile.ReconcileRelease`); without that, runs converge (`Reconcile.ResumeUntilReliable`).
- Generated numbers ignore a minimum above 1.5 and a negative maximum, and generated texts a maximum
  length of 0 or one shorter than an ID or a time (`Examples.OverlookedNumbers`,
  `Examples.OverlookedLengths`, exact in `Examples.SuitsExactly`).
- A bound beside a union is lost to a wider one of the branch (`Variants.LostBound`, exact in
  `Variants.BesideBounds`), and not every branch of a union inside another appears in some example
  (`Variants.LostBranch`, exact in `Variants.BranchAppears`).
- The comment at `projects/release/recovery.js:51-53` says an own version that appeared meanwhile is
  recovered; where the baseline is refused as well, the refusal wins. The model follows the code
  (`Recovery.ListedVersionRefused`, exact in `Recovery.UploadMissing` and `Recovery.RefusedExactly`).

## Model

| member | source | states |
|---|---|---|
| Versions.ParsePrint | projects/release/planning.js:36-63 | Every version the pattern admits prints to a text that parses back to it |
| Versions.PrintParse | projects/release/planning.js:36-63 | Every accepted text is the only text of a valid version: printing what was parsed returns it |
| Versions.Trichotomy | projects/release/planning.js:67-76 | Precedence is antisymmetric and total, and only equal versions tie |
| Versions.Transitive | projects/release/planning.js:67-76 | Precedence is transitive, so it is a strict total order |
| Versions.EqualPrecedenceIsEqualText | projects/release/planning.js:67-76 | Two accepted texts compare as zero exactly when they are the same text |
| Versions.AgreesWithSemVer | projects/release/planning.js:65-76 | Accepted texts are ordered as item 11 of Semantic Versioning 2.0.0 orders them, split at the first hyphen and at dots: numerals as numbers, channel names as text |
| Versions.SortSorts | projects/release/planning.js:200-206 | Sorting by precedence yields an ordered permutation |
| Versions.NewestIsGreatest | projects/release/planning.js:200-206 | The last sorted version is published and above every other; there is none only for an empty inventory |
| Planning.NextCoreIsLeast | projects/release/planning.js:112-117 | The next core is the least core above the base at the level of the bump |
| Planning.PlanTarget | projects/release/planning.js:100-166 | A plan targets the explicit epoch, the initial 1000.0.0, or the later of the next core after the base and the target already selected, never below the current one |
| Planning.NumberingKept | projects/release/planning.js:125-166 | A plan continues the current run numbers exactly if the prerelease channel stays, without an epoch, and the next core after the base is not above the current core |
| Planning.PlanAdvances | projects/release/planning.js:125-166 | A plan is an accepted, undated version above the current one exactly unless, by that condition, it continues the largest run number or a dated number that is below its date |
| Planning.DatedSourceGoesBack | projects/release/planning.js:153-154 | A concrete dated source version whose next plan sorts below it |
| Planning.ThousandNeedsEpoch | projects/release/planning.js:100-147 | Only an explicit epoch leaves the thousand of the major version, and it always does, upward |
| Planning.PlanNeedsChanges | projects/release/planning.js:148-152 | Without pending notes a plan exists exactly for a promotion of the selected target to a higher channel |
| Planning.PlanLeavesUsableBase | projects/release/planning.js:84-94 | The base a prerelease plan records is one the next plan of the cycle accepts and returns unchanged |
| Planning.NightlyIsNewest | projects/release/planning.js:175-209 | A planned nightly is valid, dated, and above every published nightly of its core |
| Planning.NightlyRefusal | projects/release/planning.js:200-208 | A nightly is refused for its order exactly when some published nightly of its core is not below it |
| Planning.NightlyOrder | projects/release/planning.js:168-173 | Builds of one core sort by day, then by run number, and two runs never share a version |
| Source.StepKeepsSource | projects/release/source.js:194-222 | Applying a plan keeps the source well-formed and raises its version, except when the request makes it continue the largest run number |
| Source.RunKeepsSources | projects/release/source.js:194-222 | Over any run of applied plans every source is well-formed, but for a last one whose request continued the largest run number |
| Source.RunIncreases | projects/release/source.js:194-222 | Versions strictly increase between any two sources of a run |
| Source.RunKeepsThousand | projects/release/planning.js:142-147 | A run without explicit epochs keeps the thousand of its first major version |
| Source.CycleKeepsBase | projects/release/source.js:211-215 | Through a whole prerelease cycle the recorded base stays the Stable version it started from |
| Source.StableEndsCycle | projects/release/source.js:194-222 | A Stable removes the prerelease state and takes the selected target, or a higher next core if later notes raised it |
| Source.CheckNotes | projects/release/source.js:163-170 | The loop finds a collision exactly when two notes have one canonical name, and names it |
| Publication.NewestBelowIsGreatest | projects/release/planning.js:230-240 | The baseline is the greatest matching version below the candidate, and none only when there is no such version |
| Publication.NewestBelowUnique | projects/release/planning.js:230-240 | It depends on the set of published versions, not on their order |
| Publication.WindowNewestFirst | projects/release/planning.js:272-283 | The window holds exactly the nightlies of the line above the baseline, newest first |
| Publication.FirstMatchIsNewest | projects/release/planning.js:305-332 | The scan finds the newest nightly of the window with the wanted content, or that there is none, and fails only when reads run out |
| Publication.ProceedIsNewest | projects/release/planning.js:305-332 | A candidate that may proceed is above every other published version of its channel and line |
| Publication.ProceedReadsPredecessor | projects/release/planning.js:305-332 | A nightly that may proceed has read its predecessor in the window and found other content |
| Publication.OpenNightlyVerdict | projects/release/planning.js:305-332 | With no newer nightly, a nightly is superseded exactly by a predecessor of the window with its content, and proceeds otherwise |
| Publication.BlockedNightlyVerdict | projects/release/planning.js:305-332 | Below a newer nightly, a nightly is superseded by the newest of the window with its content, and refused when there is none |
| Publication.StableVerdict | projects/release/planning.js:323-330 | A Stable proceeds exactly while no newer Stable of the line exists and its reviewed nightly is the newest of its core |
| Publication.DeadlineOnlyFails | projects/release/planning.js:305-332 | A passed deadline turns a verdict into a failure and never into another verdict |
| Protocol.PreparedIsFaithful | projects/release/candidate.js:157-183 | A prepared candidate was new, above its channel and line, compared with the newest baseline, and differs from it, or as a Stable equals it |
| Protocol.PreparationSkips | projects/release/candidate.js:93-121 | A nightly preparation is skipped exactly when its baseline or the published source already serves its content |
| Protocol.PublishStores | projects/release/recovery.js:56-69 | A publish run changes the registry by exactly its own version and tag, and only when the verdict lets it |
| Protocol.UploadIsNewest | projects/release/planning.js:305-332 | Every upload is the greatest version of its channel and line at that moment |
| Protocol.StepKeepsInv | projects/release/recovery.js:56-69 | Any prepare or publish step keeps the registry append-only, its versions distinct, each line increasing and each candidate faithful to what it was prepared against |
| Protocol.RunKeepsInv | projects/release/recovery.js:56-69 | So does any run of overlapping preparations and publications |
| Protocol.RunKeepsAdjacentDifferent | projects/release/planning.js:268-332 | In any run, no two neighbouring nightlies of a line have the same content, unless the history had such a pair |
| Protocol.StablePromotesNewestNightly | projects/release/planning.js:235-252 | A Stable uploaded in any run has the content of the newest published nightly of its core at that moment, whatever it was prepared against |
| Protocol.RunKeepsTags | projects/release/planning.js:254-266 | In any run each channel tag names the greatest published version of its channel |
| Protocol.StepNeverMovesTagBack | projects/release/planning.js:254-266 | No step moves a channel or staging tag back or removes it |
| Protocol.RunKeepsStaging | projects/release/planning.js:264-266 | A staging tag always names a published version of its line and channel |
| Protocol.UploadedTagIsConfirmed | projects/release/planning.js:340-347 | Whichever tag an upload chose, the check after it expects that tag and finds it |
| Protocol.WindowIsPublishedSince | projects/release/planning.js:268-283 | The window by version is exactly what the line published after the preparation |
| Protocol.NightlyDecision | projects/release/planning.js:268-332 | In terms of the history: a nightly is superseded by the newest nightly published since its preparation with its content, or by the newest since when none is newer than it, fails below a newer one, and proceeds otherwise |
| Recovery.Npm.Publish | projects/release/recovery.js:56-69 | One submission, after which the version is stored or not, whatever the publisher reports |
| Recovery.UploadMissing | projects/release/recovery.js:56-69 | The registry changes as one publish step of the protocol, submitting only a version that npm lacks and the baseline admits; it fails exactly when the baseline is refused, whether or not the version is listed |
| Recovery.RefusedExactly | projects/release/planning.js:305-332 | Given time, a baseline is refused exactly below a newer nightly while no nightly of the window has the content, or for a Stable below a newer one or when its reviewed nightly is no longer the newest of its core |
| Recovery.ListedVersionRefused | projects/release/recovery.js:51-69 | A concrete candidate that npm lists with its own content and whose baseline is refused |
| Recovery.ReadbackPublished | projects/release/recovery.js:85-96 | A confirmation is repeated by one more complete read, and a changed answer is an error or keeps polling |
| Recovery.PollOnce | projects/release/recovery.js:98-141 | A round ends with success only after two confirming reads, and with other bytes only when a read showed them |
| Recovery.ConfirmPublication | projects/release/recovery.js:98-141 | Success means the reviewed bytes and the tag were confirmed by two reads in a row, within the deadline's number of polls |
| Recovery.UploadIsConfirmed | projects/release/recovery.js:32-69 | After an upload the registry serves the reviewed bytes under the expected tag |
| Recovery.SubmitMissing | projects/release/recovery.js:143-168 | A run submits at most once, never when npm already has the version, and refuses other bytes |
| Recovery.PublishCandidate | projects/release/recovery.js:143-168 | The whole run: at most one submission, success only after two confirming reads, polls bounded by the timeout and delay, and success at the first poll on a reliable registry |
| Recovery.Rerun | projects/release/recovery.js:143-168 | Over any number of reruns the bytes of a version are set at most once, and never when npm had it |
| GithubServer.AtMostOneNamed | projects/release/github.js:292-300 | A release has at most one asset of a name |
| GithubServer.UploadStep | projects/release/github.js:292-341 | Uploading keeps the release, its uploaded assets and its well-formedness |
| GithubServer.DeleteStep | projects/release/github.js:292-341 | Deleting an asset that is not uploaded keeps every uploaded one |
| Reconcile.GitHub.ClearDraft | projects/release/github.js:343-363 | The request that clears the draft flag may only be made over five verified assets, for the commit that the draft targets |
| Reconcile.StableVersionsAreReleased | projects/release/github.js:182-194 | The compared versions are exactly those of published, non-prerelease releases whose tag is `v` and the text of a valid version |
| Reconcile.AwaitTagCommit | projects/release/github.js:248-258 | It reports success only when the tag names the candidate's commit |
| Reconcile.AwaitLatest | projects/release/github.js:238-246 | It reports success only when the latest marker names this release |
| Reconcile.GitHub.Release | projects/release/github.js:516-526 | A lookup by tag shows the release of some state, reports several unpublished ones as ambiguous, and with reads that are up to date does exactly that of the current state |
| Reconcile.SecondDraft | projects/release/github.js:388-392 | A lookup that still shows the state before a draft leads to a second draft, after which every lookup is ambiguous until one is published |
| Reconcile.CreateDraft | projects/release/github.js:260-290 | A draft is created at most once, also beside an existing release, an uncertain result is only read back, and the result is a release of the tag |
| Reconcile.FindOrCreate | projects/release/github.js:388-392 | A draft is created only if the lookup shows no release, and beside an existing one exactly if the lookup missed it and the creation took effect; without failures it is found or created exactly where the tag is not ambiguous and agrees |
| Reconcile.CheckedMatches | projects/release/github.js:393-414 | Checks of a release and of its tag, read at different moments in either order, hold of the current state |
| Reconcile.ReplaceIncomplete | projects/release/github.js:292-318 | Only an asset that never finished uploading is deleted, and success returns a release without its ID |
| Reconcile.UploadAsset | projects/release/github.js:319-336 | One upload is made, an uncertain one is only read back, and the other uploaded assets stay |
| Reconcile.ReconcileAsset | projects/release/github.js:292-341 | Success means the release serves the candidate's bytes under the name, and every other uploaded asset stays |
| Reconcile.VerifiedIsExact | projects/release/github.js:368-387 | Five verified names on a release of five assets are exactly the candidate's five files |
| Reconcile.Publish | projects/release/github.js:343-363 | At most one update is made, over verified assets, and an uncertain one is not repeated |
| Reconcile.AssertFinal | projects/release/github.js:368-387 | Success means a complete announcement: published, five exact assets, notes and tag commit |
| Reconcile.OwnReleaseIsNotNewer | projects/release/github.js:416-419 | Whether a Stable becomes latest does not depend on the listing already showing it |
| Reconcile.ReconcileRelease | projects/release/github.js:196-424 | However a run ends: at most one create, one update and one upload of each asset, no uploaded asset deleted or changed, the draft cleared only over verified assets, and a second draft exactly if the first lookup missed an existing release and the creation took effect; success means the announcement is complete. From any state of this candidate a run without failures succeeds exactly if the tag is not ambiguous, and otherwise fails without a change |
| Reconcile.ResumeUntilReliable | projects/release/github.js:196-424 | After any number of interrupted runs, whose reads may show any earlier state, one run without failures completes the announcement, unless one of them missed the draft of another |
| Archive.ChecksumCovers | projects/release/content.js:99-103 | Changing any byte of an accepted header outside the checksum field makes the reader refuse it |
| Archive.ReadEntryAt | projects/release/content.js:92-122 | Reading at an offset takes only slices inside the archive and computes the entry specification |
| Archive.ReadNpmTarball | projects/release/content.js:88-124 | The loop reads what the specification reads, at offsets that are whole blocks and strictly grow, and refuses an archive without files |
| ArchiveWriter.ChecksumRoundTrip | projects/release/content.js:99-103 | The checksum a ustar writer records (ustar Interchange Format of the pax utility in IEEE Std 1003.1) is the one the reader computes |
| ArchiveWriter.HeaderRoundTrip | projects/release/content.js:96-112 | A written header parses to its path, prefix joined, its kind and its size |
| ArchiveWriter.EntryRoundTrip | projects/release/content.js:92-122 | Reading at a written entry reads it, padding included, and nothing after it |
| ArchiveWriter.ReadInvertsWrite | projects/release/content.js:88-124 | Reading a written archive of any safe, distinct paths returns exactly its files |
| ArchiveWriter.FilesOfItems | projects/release/content.js:88-124 | Those files are each item's own data under its path, and nothing else |
| Fingerprint.DigestInjective | projects/release/content.js:9 | Two inputs with one digest are the same input, the assumption on the hash |
| Fingerprint.LineInjective | projects/release/content.js:77 | A framed line determines its path and its digest, whatever characters the path holds |
| Fingerprint.FieldRoundTrip | projects/release/content.js:54 | The version pattern matches a written version field exactly, whatever follows |
| Fingerprint.FirstMatchKept | projects/release/content.js:54-58 | Replacing the value of the first version field leaves it the first, so a replacement never exposes or hides another match |
| Fingerprint.NormalizedSame | projects/release/content.js:48-61 | Two accepted manifests normalize to one text exactly when they differ in nothing but that value |
| Fingerprint.ContentFingerprint | projects/release/content.js:71-80 | The loop over sorted paths hashes what the specification hashes, and fails where it fails |
| Fingerprint.EqualFingerprints | projects/release/content.js:71-80 | Two inventories have one fingerprint exactly when they agree on every path and byte but the changelog and the version value |
| Json.GetSet | projects/release/upstream.js:240-254 | Assigning a field changes that field and no other |
| Differences.EmptyMeansAlike | projects/release/upstream.js:175-204 | No difference is listed exactly for values that agree everywhere, save for a blank `__proto__` only one has |
| Differences.EmptyMeansSame | projects/release/upstream.js:166-204 | Values equal up to key order, and to order and repeats in set-valued lists, never differ; without one-sided inherited names nothing else is empty and nothing throws; with one, the meanings differ and the list is empty exactly if they are alike |
| Differences.InheritedNamesMislead | projects/release/upstream.js:193-199 | A one-sided `__proto__` with an empty object is not listed, and a one-sided `constructor` throws |
| Differences.ThrowsExactly | projects/release/upstream.js:166-204 | The comparison throws exactly if, at a place both values have, a field that only one has is named like a method of every object or is a `__proto__` that holds a field so named |
| Differences.DifferencesAreReal | projects/release/upstream.js:175-204 | Each listed difference names a place where one value is missing, or both are there and differ as stated, or lies under a `__proto__` that only one of two objects has |
| Differences.ListDifferences | projects/release/upstream.js:175-204 | The recursive appending to one list yields the specified listing after what the list held |
| Rewording.RewordingIsInvisible | projects/release/upstream.js:211-256 | Documents that differ only under wording keys, at any depth and in any number of places, have one meaning once keyed and without wording |
| Rewording.RewordingIsUnreported | projects/release/upstream.js:211-256 | So no rewording of a document is reported |
| Wording.StructureIsVisible | projects/release/upstream.js:218-227 | Nothing else is lost: sameness without wording means the same keys, all keys in maps of names, the same plain fields and the same data under literal keys |
| Wording.ItemsStayFound | projects/release/upstream.js:235-256 | Each item of a keyed list is found under its own key and no item is lost; other lists stay positional |
| Wording.WordingKeepsMeaning | projects/release/upstream.js:218-227 | Dropping wording from two values of one meaning leaves one meaning |
| Keying.AlikeAnywhere | projects/release/upstream.js:235-256 | A part replaced by one that keys alike leaves the whole document keyed alike, through parameter and flag lists too |
| Keying.EnumOrderIsFree | projects/release/upstream.js:235-256 | Reordering an enum with the lists beside it, anywhere in a document, leaves nothing to report |
| Positional.AlikeInside | projects/release/upstream.js:211-256 | If two documents that differ in one object at a place are alike, so are the two objects, through keyed and positional lists |
| Positional.EqualTextsStayPositional | projects/release/upstream.js:238-243 | When enum values share a text, anywhere in a document, a reordering of the enum is unreported exactly if it leaves every name in place |
| Surface.NewExperiments | projects/release/upstream.js:262-283 | An entry is labelled with exactly the experiments of its new value that its old value lacks |
| Surface.CompareEntries | projects/release/upstream.js:292-309 | The loop over sorted names puts each entry in the list of its class and group, in name order, and throws exactly if some name has two entries on which a comparison throws, which their contents tell beforehand |
| Surface.EachChangeOnce | projects/release/upstream.js:292-309 | An unchanged name is in no list; a changed one is in exactly one class of exactly one group, once, and reworded means alike but for wording |
| Surface.RewordedKeepsMeaning | projects/release/upstream.js:292-309 | Without one-sided inherited names, reworded means equal in meaning |
| Reachability.ReachableSchemas | projects/release/upstream.js:341-360 | The stack search returns exactly the schemas linked by a chain of references from an application operation, and terminates on cycles |
| Reachability.Declare | projects/sdk/scripts/rest-routes.js:639-651 | The rounds declare each reachable schema once and no other, or fail exactly if a reachable type cannot be written |
| Reachability.ClosedHoldsReachable | projects/sdk/scripts/rest-routes.js:639-651 | Any set closed under references holds everything reachable |
| Evidence.ReadJobs | projects/release/check-evidence.js:54-82 | Returned jobs are distinct, match the attempt and make up the declared number; of a list that stays as it is, up to 1,000 jobs, exactly that list comes back, and nothing of a longer or invalid one |
| Evidence.SelectCertificate | projects/release/check-evidence.js:89-98 | The certificate is the only job of its name, in a known state, or none exists; jobs without two of a name or an unknown state are never refused |
| Evidence.ReadRunCertificate | projects/release/check-evidence.js:117-134 | Attempts strictly increase, at most six are read, and the result comes wholly from one attempt that a later read of the run still names; a steady run gives its own certificate |
| Readings.ReadingStands | projects/release/check-evidence.js:117-134 | Where every answer tells of its moment, the certificate that was read is the one of a moment before the read of the run, with the run as it then was; it goes on to stand, and is the fresh one where nothing changed meanwhile |
| Reuse.ReuseIsLatestSuccess | projects/release/reuse.js:95-126 | A reference is returned exactly when nothing that started first is pending and the latest conclusive result is success, without a failure at that moment |
| Reuse.RolesDecide | projects/release/reuse.js:94-126 | Two evidences for a run lead to one decision, whatever else was seen and whenever the search began, exactly if they have one role: pending, unfinished in a finished run, silent, undated, a success of one attempt and moment, or a failure of one moment |
| Reuse.KeptDecides | projects/release/reuse.js:61-73 | With atomic reads, a memo hit changes no decision exactly while its attempt is the last, or when the last attempt's certificate repeats what was kept of one that did not succeed |
| Reuse.TornDecides | projects/release/check-evidence.js:122-132 | With reads that are not atomic, it changes no decision exactly if the certificate had finished when the jobs were read, or at the read of the run was unfinished as before, or missing as before or inconclusive |
| Reuse.EvidenceOf | projects/release/reuse.js:61-73 | What is kept still stands; with atomic reads a new read is fresh, and a kept one leads to the decisions of a fresh read exactly under the condition above |
| Reuse.AlikeDecide | projects/release/reuse.js:61-126 | Looks at the same runs with evidence of the same roles, entry by entry, lead to one decision |
| Reuse.FindReusableCheck | projects/release/reuse.js:42-128 | The loop stops waiting once its deadline has passed. Its answer is the decision on what was read of every run of the last list that concerns the search, all of which still stands; with atomic reads and a list of last attempts it is the decision on fresh reads at the same moments |
| Reuse.ReferencePassed | projects/release/reuse.js:112-126 | A returned reference is to a certificate that did pass, in the attempt it names |
| Reuse.ReferenceHasTree | projects/release/reuse.js:76-126 | A returned reference is to another run, of the tree that was searched |
| Reuse.StaleListMisleads | projects/release/reuse.js:61-73 | A list that still shows a rerun attempt keeps an answer that a fresh read changes |
| Reuse.TornReadMisleads | projects/release/check-evidence.js:122-132 | A certificate that passed between the two reads stays missed |
| Reuse.NobodyWaitsInARing | projects/release/reuse.js:94-111 | Attempts never wait for one another in a ring while lists show last attempts |
| Reuse.LaggingListWaitsInARing | projects/release/reuse.js:94-111 | Whenever a list shows an older attempt than the one that is read, any attempt of another run that started between the two waits for it in a ring |
| VersionChange.RawRoundTrip | projects/release/version-change.js:26-40 | Parsing what git writes returns the entries |
| VersionChange.RawText | projects/release/version-change.js:26-40 | Nothing else parses, but for a missing last NUL |
| VersionChange.ParseRawDiff | projects/release/version-change.js:26-40 | The loop over field pairs computes the specification |
| VersionChange.BumpIsFound | projects/release/version-change.js:46-65 | A manifest whose only change is a higher top-level version is recognised |
| VersionChange.FoundIsBump | projects/release/version-change.js:46-65 | And nothing else is: the texts share everything but one version line |
| VersionChange.SectionIsFound | projects/release/version-change.js:71-79 | A changelog that gained one section is recognised |
| VersionChange.FoundIsSection | projects/release/version-change.js:71-79 | And nothing else is: taking out the section leaves the old changelog |
| VersionChange.ClassifyVersionChange | projects/release/version-change.js:88-127 | A change is version-only exactly when every entry is a release file change, notes moved unchanged and once, and the manifest and changelog contents agree |
| Provenance.VersionOnlyRaises | projects/release/version-change.js:81-127 | A version-only change keeps every other file and strictly raises the version |
| Provenance.DecideChecks | projects/release/reuse.js:160-218 | The lookups for the tree and then, after a version-only change, for the parent's tree, within one bound; skipped checks are justified by a reference for the right tree, and any failure runs the checks |
| Provenance.JustifiesOn | projects/release/reuse.js:189-218 | What justified skipping checks when it was decided still does when the certificate passes later |
| Provenance.StepKeepsHistory | projects/release/reuse.js:189-218 | A certificate that passes, by full checks or over a lookup, is recorded, and what it rests on passed before, for the searched tree |
| Provenance.RunKeepsHistory | projects/release/reuse.js:189-218 | So in every run of such steps each pass rests on full checks or on an earlier pass |
| Provenance.PassTraces | projects/release/reuse.js:200-218 | Every pass has a finite chain back to full checks: each link is to an earlier pass of the same tree, or of the same source with a strictly lower version |
| Provenance.PassedTraces | projects/release/reuse.js:200-218 | In every run, whatever certificate passed has such a chain |
| Schemas.TextLength | projects/sdk/scripts/openapi-examples.js:367-380 | A text that is not plain has the length that the schema, the mode and the field's name decide |
| Schemas.TextConformance | projects/sdk/scripts/openapi-examples.js:367-386 | A generated text conforms exactly when its pattern suits its format and its bounds suit that length, or for plain text admit one |
| Schemas.IntegerConformance | projects/sdk/scripts/openapi-examples.js:285-288 | When a generated integer conforms, exactly |
| Schemas.NumberConformance | projects/sdk/scripts/openapi-examples.js:289-290 | When a generated number conforms, exactly |
| Examples.StackBound | projects/sdk/scripts/openapi-examples.js:208-217 | A path on which no schema is more than twice is at most twice as long as there are schemas |
| Examples.Generator.Choose | projects/sdk/scripts/openapi-examples.js:194-199 | The chosen branch is an option, the requested one where it is an option, and each real choice is registered once |
| Examples.Generator.Build | projects/sdk/scripts/openapi-examples.js:267-303 | On consistent schemas building never fails, leaves out a value only where a name is twice on the path, which takes a cycle of references, and what it builds conforms; it terminates on cyclic schemas |
| Examples.Generator.BuildRef | projects/sdk/scripts/openapi-examples.js:208-217 | A schema that is on the path twice is not entered again, and an unknown one fails |
| Examples.Generator.BuildObject | projects/sdk/scripts/openapi-examples.js:305-344 | A minimal object holds exactly what is required, a full one every property that can be built, and each conforms |
| Examples.Generator.BuildArray | projects/sdk/scripts/openapi-examples.js:350-360 | A list has a length within its bounds, of items that conform |
| Examples.Generate | projects/sdk/scripts/openapi-examples.js:388-395 | One example conforms to its root schema; only in a document with a cycle of references the recursion bound may leave none |
| Examples.SuitsExactly | projects/sdk/scripts/openapi-examples.js:285-290 | The conditions on single values are exact: they hold exactly when both generated values conform |
| Examples.OverlookedNumbers | projects/sdk/scripts/openapi-examples.js:285-290 | Number schemas with conforming values whose generated values do not conform |
| Examples.OverlookedLengths | projects/sdk/scripts/openapi-examples.js:380-385 | Text schemas with conforming values whose generated values do not conform |
| Variants.ChosenInVariant | projects/sdk/scripts/openapi-examples.js:194-199 | At a site of the base example, variant `k` takes branch `k` where there is one, and everywhere else the first |
| Variants.BranchAppears | projects/sdk/scripts/openapi-examples.js:414-422 | A branch appears in some example exactly if the way to it takes first branches only, or turns once, behind first branches and before first branches, into a branch whose number no union around it has |
| Variants.LostBranch | projects/sdk/scripts/openapi-examples.js:414-422 | The second branch of a union inside the first of two branches appears in no example |
| Variants.BesideBounds | projects/sdk/scripts/openapi-examples.js:225-236 | Integers generated for a branch keep the bounds beside the union exactly if the branch's own bounds are no wider and the bounds that result suit |
| Variants.LostBound | projects/sdk/scripts/openapi-examples.js:225-236 | A minimum beside a union is lost to a lower one of a branch |
| Commands.SplitArguments | projects/sdk/src/commands.ts:275-321 | The index loop with its six variables computes the character-by-character specification |
| Commands.ParseQuotedPrefixCommand | projects/sdk/src/commands.ts:263-321 | So does the whole parser, from the raw text to name and arguments or a rejection |
| Commands.ParseInvertsPrint | projects/sdk/src/commands.ts:243-321 | For every name and every list of strings, each written in double quotes, single quotes or bare with escapes and separated by any white space, parsing returns exactly the list |
| Commands.PlainIsWhitespaceSplit | projects/sdk/src/commands.ts:243-321 | Text without escapes and without quotes at the start of words is split at white space |
| Commands.DanglingIsOdd | projects/sdk/src/commands.ts:243-321 | A dangling backslash is reported exactly when the text ends in an odd number of them |
| Commands.UnclosedSpan | projects/sdk/src/commands.ts:243-321 | A span that never closes is refused for the quote that opened it |
| Commands.HeldApostrophe | projects/sdk/src/commands.ts:243-321 | An apostrophe before a letter does not close a single-quoted span, and the refusal says so |

## Left out

- Reuse.EvidenceOf: leads to the decisions of a fresh read only under the conditions of `Reuse.KeptDecides` and `Reuse.TornDecides`, because the code does not otherwise.
- Reuse.NobodyWaitsInARing: holds only while each list shows the last attempts, because the code pairs the listed attempt's start with the read attempt's certificate; `Reuse.LaggingListWaitsInARing` is the other half.
- Examples.Generator.Build: covers the schema keywords one kind at a time; of the keywords beside a union only integer bounds are modelled, in `Variants.BesideBounds`, and server facts and the values of an `each` property are not.
- Variants.BranchAppears: counts unions along one way, in a mode that builds what is around them; unions that share a site and branches cut off by the recursion bound are not modelled.
- Differences.DifferencesAreReal: what is listed under a one-sided `__proto__` is only said to lie there, because the code compares it with what objects inherit.
- Reachability.Declare: takes what writing each type mentions as given, so the text of generated types is not modelled.
- Fingerprint.NormalizedSame: takes the parsed version of a manifest as given, and characters for bytes, so invalid UTF-8 is not modelled.
- Archive.ReadNpmTarball: takes the uncompressed archive, and reads header bytes as characters where the source decodes UTF-8; written paths are ASCII.
- Network, file system, process, npm and GitHub clients: their effects are the nondeterministic steps of `Npm`, `GitHub`, `Api` and `Checks`; tokens, staging directories and smoke tests are not modelled.
- Digests: SHA-256 is an injective function, so collisions are not modelled.
- Other writers: npm versions are never removed, and tags and releases are changed by this pipeline only.
- Which release an upload by an ambiguous tag reaches is left open, and assets on a second draft are not tracked; a reliable run reads the current state.
- GitHub's writes take effect at once or never, so none lands after its request failed, and a starter asset stays one until it is deleted; that no uploaded asset is ever deleted rests on both.
- Time is in whole milliseconds and never goes back; a passed deadline in content reads is a number of reads.
- Versions after parsing are records; `Versions.ParsePrint` and `Versions.PrintParse` justify leaving their texts.
- Changesets: consumed notes and their bump types are inputs.
- JSON numbers are integers in document comparison, and real numbers in examples; fractions, exponents and negative zero of JSON text are not modelled.
- The order in which JavaScript lists keys that look like array indices, which changes only the order of a report.
- Enum values that are objects with their own `toString` or `valueOf`, which make the original's text conversion throw.
- Text is Unicode scalar values, so strings with characters outside the basic plane sort by code point here and by UTF-16 unit in the original.
- Reports, wording of error messages, progress output and Markdown rendering.
- Paged commit scans, kept copies of upstream documents, preparation validation, operations of an OpenAPI document before their references, and the gateway documentation sections: mostly reads and lookups.
- The SDK's own runtime beyond command splitting: declarations and lookups, with stateful parts in files that are not part of this model.
