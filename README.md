# trace-prototype: a verified model of the TRACE server and client core

The TRACE prototype is a Trusted Research System. A client submits a
directory holding a computation and its entry point. The server then:

- unpacks the directory and bags its initial state;
- builds a container image for it and runs the entry point in that image,
  without network access;
- bags the final state;
- writes a TRO declaration (Transparent Research Object) that lists every
  file of both states by content digest, with a composition fingerprint
  over those digests and one arrangement per state;
- signs the declaration, timestamps the declaration and the signature with
  a time-stamp authority, and publishes the result.

The command-line client submits runs, downloads their result files,
verifies their timestamp and prints the metadata of a result bag.

This project models that core in Dafny:

- `Manifest`: the bag manifest line format `<digest><two spaces><path>` and
  how one line is parsed.
- `Composition`: the artifact table built from the two manifests, the
  first-appearance order of its digests, and the composition fingerprint.
- `Sorting`: Python's `sorted` on strings, which the fingerprint depends on.
- `Declaration`: the artifact list, the locus list of each arrangement, and
  the declaration assembled from them.
- `Environment`: the image settings dict. This covers filling in its
  defaults, the tag the build gives it, the dict the POST handler builds
  from the query string, and the container the run creates from it.
- `Stats`: the clean-up of the sampled `docker stats` log.
- `Workflow`: the stream of progress events `magic_workflow` yields, stage
  by stage, as written and as evidently intended.
- `Cli`: `inspect`, the run id and timestamp payload of `verify`, the
  request `submit` sends, and the files `download` fetches.
- `Strings` and `Wrappers`: Python's `strip`, `split`, `join`, `re.sub` on
  a literal pattern and `f"{n}"`, plus `Option`/`Result`.

Collaborators whose bit-level behaviour does not matter are parameters of
arrow type:

- sha256 and uuid5;
- python-magic's mime sniffing;
- the exported public key;
- whether an HTTP download succeeds.

Manifests are given as their lines. Exit statuses and the outcome of
parsing are fields of a `Conditions` record.

Duplicate digests within one manifest are handled as the code handles
them: `artifacts[digest][arrangement_seq] = path` overwrites, so the LAST
line of a manifest that carries a digest gives that digest's path. The model
states this in `Composition.LastPathIsLast` and
`Composition.RecordAllLocations`.

The declaration is modelled as the code builds it, including the mime
lookup of every artifact in the final bag (`Declaration.Declare`). The
corrected lookup, in the bag whose path is used, is `Declaration.DeclareFixed`;
the two declarations differ only in the mime types of their artifacts.

## Model

| member | source | states |
|---|---|---|
| Strings.Strip | trace_poc/server.py:199 | `str.strip()`: the result neither starts nor ends with whitespace and is no longer than the input |
| Strings.TrimLeftIsSuffix | trace_poc/server.py:199 | trimming the left end leaves a suffix of the text |
| Strings.TrimRightIsPrefix | trace_poc/server.py:199 | trimming the right end leaves a prefix of the text |
| Strings.StripIsSlice | trace_poc/server.py:199 | `strip()` returns a slice of the text, and everything it cut off at either end is whitespace |
| Strings.StripUnchanged | trace_poc/server.py:199 | text that neither starts nor ends with whitespace is left as it is by `strip()` |
| Strings.JoinSplit | trace_poc/server.py:199 | `sep.join(s.split(sep)) == s`: splitting loses nothing |
| Strings.SplitPiecesFree | trace_poc/server.py:199 | no piece of `s.split(sep)` contains the separator |
| Strings.SplitFree | trace_poc/cli.py:202 | text without the separator splits into itself alone |
| Strings.SplitAt | trace_poc/cli.py:202 | the split cuts at the first occurrence of the separator |
| Strings.Split | trace_poc/server.py:199 | definition; properties in `Strings.JoinSplit`, `Strings.SplitPiecesFree`, `Strings.SplitFree` and `Strings.SplitAt` |
| Strings.Join | trace_poc/server.py:222 | definition; properties in `Strings.JoinSplit` and `Strings.RemoveAllIsJoinOfSplit` |
| Strings.RemoveAll | trace_poc/server.py:149 | definition; properties in `Strings.RemoveAllIsJoinOfSplit` and `Strings.RemoveAllFree` |
| Strings.RemoveAllIsJoinOfSplit | trace_poc/server.py:149 | deleting every non-overlapping occurrence left to right equals splitting at the pattern and joining with nothing |
| Strings.RemoveAllFree | trace_poc/server.py:149 | text without the pattern is unchanged |
| Strings.FreeOfChar | trace_poc/cli.py:139 | a one-character separator is absent exactly when no character equals it |
| Strings.NatToString | trace_poc/server.py:209 | `f"{n}"` is a non-empty string of decimal digits ending in the last digit of `n`, with a leading `0` only for `n == 0` |
| Strings.NatToStringInjective | trace_poc/server.py:209 | distinct numbers render differently, so the numbered ids are distinct |
| Manifest.ParseLine | trace_poc/server.py:199 | definition; properties in `Manifest.ParseLineSound`, `Manifest.ParseFormatLine` and `Manifest.DoubleSpacePathRejected` |
| Manifest.FormatLine | trace_poc/server.py:199 | definition; properties in `Manifest.StripFormatted` and `Manifest.ParseFormatLine` |
| Manifest.ParseLineSound | trace_poc/server.py:199 | an accepted line is digest, two spaces, path (after strip), neither part holding the separator; a rejected line did not split into exactly two pieces |
| Manifest.StripFormatted | trace_poc/server.py:199 | stripping a written manifest line removes exactly its newline |
| Manifest.ParseFormatLine | trace_poc/server.py:199 | round trip: a line written for (digest, path) parses back to (digest, path) |
| Manifest.DoubleSpacePathRejected | trace_poc/server.py:199 | a path that itself contains two spaces makes its line raise |
| Manifest.FirstErr | trace_poc/server.py:198-199 | none exactly when every line parses; otherwise the index of the first line that raises, all earlier lines parsing |
| Composition.Locations.FirstPath | trace_poc/server.py:212 | definition; properties in `Declaration.DeclareSniffsFinalBag` |
| Composition.Record | trace_poc/server.py:200-202 | definition; properties in `Composition.RecordAllWellFormed`, `Composition.RecordAllDigests` and `Composition.RecordAllLocations` |
| Composition.RecordAll | trace_poc/server.py:200-202 | definition; properties in `Composition.RecordAllWellFormed`, `Composition.RecordAllDigests` and `Composition.RecordAllLocations` |
| Composition.Collect | trace_poc/server.py:194-203 | definition; properties in `Composition.CollectTable`, `Composition.CollectFails` and `Composition.CollectOk` |
| Composition.Fingerprint | trace_poc/server.py:219-223 | definition; properties in `Composition.FingerprintDependsOnlyOnSet` and `Composition.FingerprintDependsOnlyOnDigests` |
| Composition.Locations.With | trace_poc/server.py:202 | setting one arrangement's path leaves the other arrangement's path alone |
| Composition.ReadManifest | trace_poc/server.py:196-203 | the loop over one manifest: the ValueError of its first bad line (arrangement, line index, pieces), or the table with all of its lines recorded |
| Composition.CollectArtifacts | trace_poc/server.py:194-203 | both manifests read in order, initial bag first, stopping at the first bad line |
| Composition.CollectTable | trace_poc/server.py:194-203 | the table is well formed; its keys are the distinct digests in first-appearance order over the initial and then the final manifest; each digest maps each arrangement to the last path that manifest gave it |
| Composition.CollectFails | trace_poc/server.py:199 | reading fails exactly when some line of either manifest does not parse |
| Composition.CollectOk | trace_poc/server.py:194-203 | a successful read is the recording of every line of both manifests |
| Composition.RecordAllWellFormed | trace_poc/server.py:200-202 | recording lines keeps the dict's key list free of duplicates and in step with its keys, with every key holding a path |
| Composition.RecordAllDigests | trace_poc/server.py:200-201 | recording lines appends exactly the new digests, in first-appearance order |
| Composition.RecordAllLocations | trace_poc/server.py:200-202 | after recording, a digest is present iff it was before or some line carries it; its path for the arrangement is the last line's, the other arrangement's path is untouched |
| Composition.Dedup | trace_poc/server.py:200-201 | the keys of the dict: no duplicates, and exactly the elements of the input |
| Composition.FirstIndex | trace_poc/server.py:200-201 | the first position of an element |
| Composition.FirstIndexSnoc | trace_poc/server.py:200-201 | appending an element does not move the first position of earlier ones |
| Composition.DedupFirstAppearanceOrder | trace_poc/server.py:207-217 | the keys are ordered by first appearance, so artifact numbers follow first appearance |
| Composition.LastPath | trace_poc/server.py:202 | none exactly when no line carries the digest |
| Composition.LastPathIsLast | trace_poc/server.py:202 | the path kept is that of the last line carrying the digest (later lines overwrite) |
| Composition.NoDupCount | trace_poc/server.py:219-223 | a duplicate-free list holds each element once |
| Composition.FingerprintDependsOnlyOnSet | trace_poc/server.py:219-223 | two duplicate-free digest lists with the same elements have the same fingerprint |
| Composition.DigestsCarried | trace_poc/server.py:199 | the digest column of a parsed manifest holds exactly the digests its lines carry |
| Composition.CarriesDigests | trace_poc/server.py:196-199 | the digests of both manifests are exactly those some line of either carries |
| Composition.CarriedByPermutation | trace_poc/server.py:198 | reordering a manifest's lines does not change which digests it carries |
| Composition.FingerprintDependsOnlyOnDigests | trace_poc/server.py:219-223 | two pairs of manifests carrying the same digests have the same composition fingerprint |
| Composition.FingerprintIgnoresLineOrder | trace_poc/server.py:194-223 | permuting the lines of either manifest keeps reading successful and the fingerprint unchanged |
| Sorting.LessEqTotal | trace_poc/server.py:222 | Python's string order is total |
| Sorting.LessEqAntisymmetric | trace_poc/server.py:222 | Python's string order is antisymmetric |
| Sorting.LessEqTransitive | trace_poc/server.py:222 | Python's string order is transitive |
| Sorting.LessEqReflexive | trace_poc/server.py:222 | Python's string order is reflexive |
| Sorting.InsertSorted | trace_poc/server.py:222 | inserting into a sorted list keeps it sorted and adds exactly the element |
| Sorting.Sort | trace_poc/server.py:222 | `sorted`: the result is ordered and a permutation of the input |
| Sorting.SortedUnique | trace_poc/server.py:222 | two sorted permutations of each other are equal |
| Sorting.SortDependsOnlyOnMultiset | trace_poc/server.py:222 | `sorted` of two permutations of each other is the same list |
| Declaration.ArtifactIdInjective | trace_poc/server.py:209 | distinct artifact numbers give distinct `composition/1/artifact/<n>` ids |
| Declaration.Location | trace_poc/server.py:250 | `path[5:]`: the path less its first five characters, or empty for a shorter path |
| Declaration.LocationUnderData | trace_poc/server.py:242-250 | for a path under `data/`, the location is the path relative to the payload directory |
| Declaration.MimeOrDefault | trace_poc/server.py:211-214 | the sniffed type when there is a non-empty one, `application/octet-stream` otherwise, never empty |
| Declaration.MimeLookupAsWrittenMissesDeleted | trace_poc/server.py:211-212 | as written: an artifact of a declaration that only the initial manifest carries (a file the run deleted) is sniffed at its initial path under the final bag, though no line of the final manifest carries its digest |
| Declaration.MimeLookup | trace_poc/server.py:211-212 | corrected: the file sniffed is a recorded path of the artifact, in the bag of the arrangement that recorded it |
| Declaration.Base | trace_poc/server.py:180-189 | definition; properties in `Declaration.DeclareBaseNamesArchive` |
| Declaration.DeclareBaseNamesArchive | trace_poc/server.py:180-189 | the declaration's `@base` is the uuid5 name of the result archive: every declaration under the same archive name has the same one, whatever its manifests |
| Declaration.MimeLookupAsWritten | trace_poc/server.py:211-212 | definition; properties in `Declaration.DeclareSniffsFinalBag` and `Declaration.MimeLookupAsWrittenMissesDeleted` |
| Declaration.Artifacts | trace_poc/server.py:207-218 | as written: one artifact per key of the table, its type sniffed under the final bag |
| Declaration.ArtifactsFixed | trace_poc/server.py:207-218 | corrected: one artifact per key of the table, its type sniffed with `Declaration.MimeLookup` |
| Declaration.ArtifactsNumbered | trace_poc/server.py:207-218 | the artifacts carry the table's digests in order under ids `composition/1/artifact/0..n-1`; no two share an id or a digest |
| Declaration.CountPresent | trace_poc/server.py:241 | no more artifacts are held than listed |
| Declaration.Loci | trace_poc/server.py:237-253 | definition; properties in `Declaration.LociCount`, `Declaration.LociNumbered`, `Declaration.LociHoldEveryPresent` and `Declaration.LociOnlyPresent` |
| Declaration.LociCount | trace_poc/server.py:237-253 | an arrangement has one locus per artifact it holds |
| Declaration.LociNumbered | trace_poc/server.py:238-253 | the loci ids are `arrangement/<i>/locus/0..k-1`, consecutive |
| Declaration.LociHoldEveryPresent | trace_poc/server.py:240-253 | every artifact the arrangement holds has its locus, at the count of held artifacts before it, with its id and its location |
| Declaration.LociOnlyPresent | trace_poc/server.py:240-253 | every locus comes from an artifact the arrangement holds |
| Declaration.CountPresentMonotone | trace_poc/server.py:240-253 | held artifacts later in the list get later loci: locus order is artifact order |
| Declaration.BuildLoci | trace_poc/server.py:237-253 | the loop with its `iseq` counter builds exactly the arrangement's locus list |
| Declaration.GenerateDeclaration | trace_poc/server.py:165-307 | `_generate_declaration`: the declaration, or the error of the first bad manifest line |
| Declaration.Declare | trace_poc/server.py:165-307 | definition; properties in `Declaration.DeclareOk`, `Declaration.DeclareFails`, `Declaration.DeclareArtifacts`, `Declaration.DeclareLociRefer`, `Declaration.DeclareLociComplete` and `Declaration.DeclareSniffsFinalBag` |
| Declaration.Assemble | trace_poc/server.py:205-307 | definition; properties in `Declaration.AssembleDeclaration`, `Declaration.AssembleLociRefer` and `Declaration.AssembleLociComplete` |
| Declaration.AssembleDeclaration | trace_poc/server.py:205-307 | the artifact list, fingerprint and both arrangements built from a well-formed table |
| Declaration.DeclareOk | trace_poc/server.py:194-307 | a declaration that was produced comes from a well-formed table read from both manifests |
| Declaration.DeclareFails | trace_poc/server.py:196-199 | no declaration exactly when some line of either manifest does not parse (sniffing never fails in the model, see "## Left out") |
| Declaration.DeclareArtifacts | trace_poc/server.py:194-223 | deduplication and numbering: the artifacts are the distinct digests of both manifests in first-appearance order, consecutively numbered, no id or digest twice; the fingerprint is over exactly those digests |
| Declaration.DeclareFingerprintIgnoresLineOrder | trace_poc/server.py:194-223 | permuting the lines of either manifest leaves the declaration's fingerprint unchanged |
| Declaration.TablePaths | trace_poc/server.py:200-202 | the path a digest has in an arrangement is the one its manifest last recorded |
| Declaration.AssembleLociRefer | trace_poc/server.py:240-253 | each locus of an assembled declaration refers to an artifact that arrangement holds, at that artifact's recorded path less `data/` |
| Declaration.DeclareLociRefer | trace_poc/server.py:236-262 | referential integrity: the k-th locus of arrangement a has id `arrangement/a/locus/k` and refers to an existing artifact, at the path its manifest recorded less `data/` |
| Declaration.AssembleLociComplete | trace_poc/server.py:240-253 | in an assembled declaration, every artifact an arrangement holds, the last one included, has a locus at its recorded path less `data/` |
| Declaration.AssembleLociOrdered | trace_poc/server.py:240-253 | in an assembled declaration, of two held artifacts the later one has the later locus |
| Declaration.DeclareLociComplete | trace_poc/server.py:236-262 | completeness: every artifact an arrangement holds, the last or only one included, has a locus at the location its manifest recorded |
| Declaration.DeclareLociOrdered | trace_poc/server.py:236-262 | order: of two artifacts an arrangement holds, the later one in the artifact list has the later locus |
| Declaration.DeclareSniffsFinalBag | trace_poc/server.py:211-212 | as written: every artifact's type is sniffed at its first recorded path joined to the final bag, also when that path was recorded in the initial bag |
| Declaration.DeclareFixed | trace_poc/server.py:165-307 | definition; properties in `Declaration.DeclareFixedAgrees` and `Declaration.DeclareFixedSniffsRecordingBag` |
| Declaration.DeclareFixedAgrees | trace_poc/server.py:165-307 | the corrected declaration exists exactly when the one as written does, and differs from it only in the artifacts' mime types |
| Declaration.DeclareFixedSniffsRecordingBag | trace_poc/server.py:211-212 | corrected: an artifact's type is sniffed at the initial bag's path in the initial bag, or else at the final bag's path in the final bag |
| Environment.SetDefault | trace_poc/server.py:356 | `setdefault`: the key is present afterwards, keeping its old value when it had one; no other key changes |
| Environment.WithDefaults | trace_poc/server.py:355-359 | the four missing settings get their defaults; present values are untouched; no other key is added |
| Environment.WithDefaultsIsMerge | trace_poc/server.py:355-359 | the result is the defaults overridden by the dict |
| Environment.WithDefaultsIdempotent | trace_poc/server.py:355-359 | sanitizing twice equals sanitizing once |
| Environment.WithDefaultsComplete | trace_poc/server.py:355-359 | a dict with every setting is left unchanged |
| Environment.Image.SetDefaultSetting | trace_poc/server.py:356 | the in-place `image.setdefault` leaves the dict as `SetDefault` describes |
| Environment.Image.SanitizeEnvironment | trace_poc/server.py:355-359 | the dict, updated in place, becomes the old dict with its defaults filled in |
| Environment.Tag | trace_poc/server.py:63-64 | the tag is `local/` and the eight drawn lower-case letters |
| Environment.Image.AssignTag | trace_poc/server.py:64 | the dict gains that tag, nothing else changes, and the tag has the image-tag shape |
| Environment.ImageFromRequest | trace_poc/server.py:428-435 | definition; properties in `Environment.RequestImageNeedsNoDefaults`, `Environment.NetworkFlagIgnored` and `Cli.SubmittedSettingsReachContainer` |
| Environment.RequestImageNeedsNoDefaults | trace_poc/server.py:392 | on the POST path, sanitizing changes nothing |
| Environment.RunContainer | trace_poc/server.py:101-111 | definition; properties in `Environment.SanitizedContainer` and `Environment.NetworkFlagIgnored` |
| Environment.SanitizedContainer | trace_poc/server.py:97-111 | after sanitizing and tagging, the container runs the tag with `sh` and the entry point asked for (`run.sh` by default), as the user asked for (`jovyan`), in and mounted at the directory asked for (`/home/jovyan/work`), without network |
| Environment.NetworkFlagIgnored | trace_poc/server.py:428-435 | the `networkEnabled` argument does not change the container that runs, which always has no network |
| Stats.CleanStatsLines | trace_poc/server.py:146-149 | the loop writes one line per line read, each with every clear-screen sequence deleted |
| Stats.CleanLineUntouched | trace_poc/server.py:149 | a line without the sequence is written unchanged |
| Stats.RemoveAllKeepsFirst | trace_poc/server.py:149 | text that does not start with the pattern keeps its first character |
| Stats.PatternInsideLine | trace_poc/server.py:149 | the pattern holds no newline, so an occurrence at the start of a line ends inside it |
| Stats.RemoveAllAfterLine | trace_poc/server.py:149 | no occurrence runs across a line end, so a whole line and the text after it are cleaned separately |
| Stats.CleanPerLineIsCleanWhole | trace_poc/server.py:146-149 | cleaning line by line writes the same file as cleaning the whole file at once |
| Workflow.BuildLogs | trace_poc/server.py:89-90 | definition; properties in `Workflow.BuildImage` and `Workflow.BuildImageStream` |
| Workflow.RunLogs | trace_poc/server.py:129-130 | definition; properties in `Workflow.RunAsWritten` and `Workflow.RunStream` |
| Workflow.Prepare | trace_poc/server.py:386-396 | exactly two events: ownership of the work directory, then bagging the initial state, in stage order |
| Workflow.BuildImage | trace_poc/server.py:56-94 | a build raises exactly on a non-zero status; "Finished building" is yielded exactly on status 0; events stay in the build stage |
| Workflow.RunAsWritten | trace_poc/server.py:97-154 | "Finished running" is yielded exactly on status 0; events stay in the run stage |
| Workflow.Run | trace_poc/server.py:152-153 | corrected: the run completes exactly on status 0 and otherwise raises in the run stage; "Finished running" exactly on completion; events ordered and within the run stage; the events are those of the code as written |
| Workflow.GenerateTro | trace_poc/server.py:310-352 | the TRO stage completes exactly when the manifests parse; signing is reached exactly then |
| Workflow.GenerateTroOrdered | trace_poc/server.py:310-352 | the TRO stage's events are in stage order and within that stage |
| Workflow.FinishOrdered | trace_poc/server.py:402 | "Done!!!" is the last stage |
| Workflow.OrderedByNeighbours | trace_poc/server.py:381-402 | a stream whose neighbours are in stage order is in stage order |
| Workflow.OrderedAppend | trace_poc/server.py:381-402 | one stage's events followed by a later stage's are in order |
| Workflow.WithinAppend | trace_poc/server.py:381-402 | two streams within a range of stages give one within it |
| Workflow.NotWithin | trace_poc/server.py:381-402 | an event outside a stream's range of stages is not in it |
| Workflow.WorkflowOrdered | trace_poc/server.py:381-402 | in both workflows, events never go back to an earlier stage |
| Workflow.BuildFailureStops | trace_poc/server.py:92-93 | a failed build raises, nothing after the build stage is yielded, and the correction changes nothing here |
| Workflow.MagicWorkflowCompletes | trace_poc/server.py:381-402 | as written, "Done!!!" appears exactly when the workflow completes, and it completes exactly when the build succeeds and the manifests parse, whatever the run status |
| Workflow.FailedRunStillAttested | trace_poc/server.py:399-402 | as written, a failed run is still signed, timestamped and reported "Done!!!": its events are those of a successful run without "Finished running" |
| Workflow.Without | trace_poc/server.py:152-154 | the stream without one event: that event is absent, every other one is kept |
| Workflow.WithoutAppend | trace_poc/server.py:381-402 | dropping an event from two streams in sequence drops it from each |
| Workflow.WithoutAbsent | trace_poc/server.py:381-402 | a stream without the event is unchanged by dropping it |
| Workflow.WithoutBetween | trace_poc/server.py:152-154 | dropping an event that occurs once, between other parts, leaves those parts joined |
| Workflow.FailedRunOnlyDropsFinishedRunning | trace_poc/server.py:399 | as written, a failed run ends as a successful one would, and its events are the successful run's without "Finished running" |
| Workflow.FailedRunAborts | trace_poc/server.py:399 | corrected: a failed run raises, and nothing after the run stage is yielded |
| Workflow.MagicWorkflow | trace_poc/server.py:381-402 | definition; properties in `Workflow.WorkflowOrdered`, `Workflow.MagicWorkflowCompletes`, `Workflow.FailedRunStillAttested` and `Workflow.FailedRunOnlyDropsFinishedRunning` |
| Workflow.MagicWorkflowFixed | trace_poc/server.py:381-402 | definition; properties in `Workflow.WorkflowOrdered`, `Workflow.FailedRunAborts`, `Workflow.FixedAgreesOnSuccessfulRun` and `Workflow.StreamWorkflow` |
| Workflow.FixedAgreesOnSuccessfulRun | trace_poc/server.py:399 | on a successful run, the correction is the workflow as written |
| Workflow.BuildImageStream | trace_poc/server.py:56-94 | the build generator yields exactly the build stage's events and outcome |
| Workflow.RunStream | trace_poc/server.py:97-154 | the run generator, corrected, yields exactly the run stage's events and outcome |
| Workflow.StreamWorkflow | trace_poc/server.py:381-402 | driving the stages in sequence yields the corrected workflow's events and outcome |
| Cli.SplitKeyValue | trace_poc/cli.py:202 | definition; properties in `Cli.SplitKeyValueSound` and `Cli.SplitKeyValueAtFirstColon` |
| Cli.SplitKeyValueSound | trace_poc/cli.py:202 | `split(":", 1)` fails exactly on a line without a colon; otherwise the key holds no colon and key, colon and value give back the line |
| Cli.SplitKeyValueAtFirstColon | trace_poc/cli.py:202 | a colon-free key is split back off `key:value`, the value keeping any colons |
| Cli.ReportStep | trace_poc/cli.py:203-205 | one step of the loop: a boilerplate key adds nothing, any other key adds its stripped value at the end |
| Cli.InspectLines | trace_poc/cli.py:201-205 | the loop over the lines prints exactly the report of those lines |
| Cli.Inspect | trace_poc/cli.py:196-205 | `inspect` reports the lines of the stripped `bag-info.txt` |
| Cli.Inspected | trace_poc/cli.py:201-205 | definition; properties in `Cli.InspectLines`, `Cli.InspectedLine`, `Cli.InspectedAppend` and `Cli.InspectedStops` |
| Cli.InspectedLine | trace_poc/cli.py:202-205 | a single line prints nothing for the three boilerplate keys and its key and stripped value otherwise |
| Cli.ReportLineThen | trace_poc/cli.py:201-205 | one line's report is compatible with concatenating reports |
| Cli.InspectedAppend | trace_poc/cli.py:201-205 | the report of two blocks of lines is the first's followed by the second's, unless the first stopped: pairs come out in line order |
| Cli.InspectedStops | trace_poc/cli.py:202 | the loop stops exactly at the first line without a colon, and runs to the end when there is none |
| Cli.Basename | trace_poc/cli.py:139 | definition; properties in `Cli.BasenameIsLastComponent` and `Cli.BasenameAfterSlash` |
| Cli.RunId | trace_poc/cli.py:139 | definition; properties in `Cli.RunIdIsPrefix` and `Cli.RunIdOfArchive` |
| Cli.BasenameIsLastComponent | trace_poc/cli.py:139 | `os.path.basename`: the suffix after the last `/`, or the whole path when there is none |
| Cli.BasenameAfterSlash | trace_poc/cli.py:139 | the base name of `dir/name` is `name` |
| Cli.RunIdIsPrefix | trace_poc/cli.py:139 | the run id is the base name up to its first `_`, or the whole base name when it has none |
| Cli.RunIdOfArchive | trace_poc/cli.py:139-143 | for an archive `<dir>/<base>_run.zip`, the run id is `base`, and the `.jsonld`, `.sig` and `.tsr` files read are result files of that run |
| Cli.ServerPayload | trace_poc/server.py:342 | definition; properties in `Cli.ServerPayloadNeverCanonical` |
| Cli.CanonicalPayload | trace_poc/cli.py:151 | definition; properties in `Cli.ServerPayloadNeverCanonical`, `Cli.TimestampedPayload` and `Cli.TimestampedPayloadMatches` |
| Cli.ServerPayloadNeverCanonical | trace_poc/cli.py:151 | the bytes the server timestamps never equal the payload the client verifies, for any digests |
| Cli.TimestampedPayload | trace_poc/cli.py:145-151 | corrected: the payload has the client's layout, and the two digests sit at fixed positions |
| Cli.TimestampedPayloadMatches | trace_poc/cli.py:145-151 | corrected: the payloads agree exactly when both digests agree |
| Cli.Submit | trace_poc/cli.py:65-111 | a path that is not a directory returns 1 and sends nothing; otherwise a request goes to the server with the path exactly when `--direct` is given, and an uploaded archive exactly when it is not |
| Cli.SubmittedSettingsReachContainer | trace_poc/cli.py:81-107 | the entry point, user and target directory submitted are those of the container that runs, which has no network whatever `--enable-network` says |
| Cli.Download | trace_poc/cli.py:123-131 | saves the four files in the order `.sig`, `.jsonld`, `_run.zip`, `.tsr`, each from `<server>/run/<name>`, stopping at the first failed request, which it names |
| Cli.DownloadedAreResultFiles | trace_poc/cli.py:126 | the suffixes fetched name exactly the four result files the server writes |

## Left out

- Docker: building the image, creating and starting the container, streaming its logs and waiting for it. The build and run exit statuses and log lines are inputs (`Workflow.Conditions`). The `repo2docker` command line is not modelled.
- The `docker stats | ts` sampler: it runs as concurrent subprocesses and is stopped by SIGTERM. The lines it wrote are the input of `Stats.CleanStatsLines`.
- The `.stdout`, `.stderr` and `.entrypoint` files `run` writes are not modelled.
- GPG: signing, export of the public key and signature verification. The key is a parameter (`Declaration.Oracles.publicKey`).
- The timestamp request to the authority, its ASN.1 encoding, and `openssl ts -verify` in the client.
- bagit bag creation and validation, zip and unzip, copying, `os.chown` walking, `.git` removal, temporary directories and `os.path.abspath`. These are filesystem effects.
- sha256, sha512, md5 and uuid5 have no bit-level model. sha256 and uuid5 are parameters. The two sha512 digests of `verify` are inputs, constrained to be 128 hex digits.
- python-magic sniffing is a parameter (`Declaration.Oracles.mimeOf`).
- Exact JSON serialisation of the declaration is not modelled. The only serialisation modelled byte for byte is the two-key timestamp object.
- The fixed nodes of the declaration are not represented: context prefixes, types, comments, capability and attributes. Start and end times are given as their ISO texts.
- Randomness: the eight tag letters and the uuid4 archive name are inputs.
- Flask routing, the HTML index, the download route and the `verify_bag` route are not modelled. Of the POST handler, only the image dict it builds is modelled.
- `_get_manifest_hash` is never called by the core and is not modelled.
- HTTP: the requests `submit` sends are values (`Cli.Request`), and the lines streamed back are not modelled. Whether a download succeeds is the parameter `fetched`, and the chunked file writes are not modelled.
- Byte decoding (`decode("utf-8")`) is not modelled: logs and metadata are strings.
- Declaration.DeclareFails: the sniffer `Declaration.Oracles.mimeOf` never fails, while python-magic raises on a file that does not exist. A path sniffed under the final bag that is missing there gets a type in the model where the code raises and makes no declaration.
- Workflow.GenerateTro: only a manifest that fails to parse is modelled as a failure. Failures of bagging, mime sniffing, signing, timestamping and zipping are not.
- Workflow.Message: the exact progress texts are defined, but no contract is stated about them.
- Cli.Submit: the return value of `submit` is discarded by click. `submit` reports success even when the server answers with an error.
- Cli.Inspect: the "Inspecting" header line is not modelled, and the ValueError of a colon-free line is modelled as the report stopping at that line.
- Cli.Download: the temporary directory and the closing message are not modelled.

## Findings

| source | as written | input that shows it | evidently intended | confidence | as-written member | corrected member |
|---|---|---|---|---|---|---|
| trace_poc/server.py:399 | `run` signals a failed run with `return` inside the generator (lines 152-153). `yield from` discards that value, and the workflow goes on to declare, sign and timestamp. | build status 0, run status 1, manifests that parse | a failed run aborts the stream, and nothing is declared or attested for it | high, not executed | Workflow.FailedRunStillAttested | Workflow.FailedRunAborts |
| trace_poc/server.py:342 | the server timestamps compact `json.dumps(ts_data)`. The client (cli.py:151) rebuilds the payload with `indent=2, sort_keys=True`. | any two 128-hex-digit digests: byte 1 is `"` on the server and a newline in the client | both sides serialise the two-key object the same way, so that verification can succeed | high, not executed | Cli.ServerPayloadNeverCanonical | Cli.TimestampedPayloadMatches |
| trace_poc/server.py:212 | the mime type of every artifact is looked up under `root`, which after the reading loop is always the final bag. For a file missing there, python-magic raises and no declaration is made; the model, whose sniffer never fails, sniffs that missing path | a digest with initial line `d  data/a.txt` and no final line, i.e. a file the run deleted | look the file up in the bag of the arrangement whose path is used | medium, not executed | Declaration.DeclareSniffsFinalBag | Declaration.DeclareFixedSniffsRecordingBag |
