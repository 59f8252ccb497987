# prompt-bom core, modelled in Dafny

prompt-bom manages a "bill of materials" for LLM prompts. A BOM names a model and lists components. Each component is a prompt fragment with an ID, a semantic version and a `sha256:` fingerprint of its body. The `bom build` command concatenates the component bodies, in manifest order, into one prompt artifact.

This project models two parts of that system:

- **`internal/domain/bom.go`**: the `Metadata`, `BOM` and `Component` records, the fingerprint function `ComputeSHA256`, the fallible constructors `NewBOM` and `NewComponent`, and the dependency-cycle detector `DetectCycle`.
- **`cmd/bom/build.go`**: the body of the `build` command once the manifest is loaded. It reads each component's body in order, appends `body + "\n"`, stops at the first body that cannot be read, and only then writes the result to the output file or to standard output.

Files:

- `wrappers.dfy`: `Option` and `Result`.
- `hex.dfy`: lower-case hex rendering of bytes (Go's `hex.EncodeToString`) and its inverse.
- `domain.dfy`: the records, `ComputeSHA256`, `NewBOM`, `NewComponent`.
- `cycle.dfy`: `DetectCycle` as a class holding the search state, worked examples in `CycleExamples`.
- `build.dfy`: the assembly specification `Assemble`, its laws, the output `Sink` and the command body `RunBuild`.

How the proofs are organised:

- **`DetectCycle`** is proved equal to the graph property `HasCycle`, which says there is a closed walk along dependency edges.
  - Soundness uses a ghost copy of the current search path. `stack` holds exactly its nodes, so hitting a node that is on `stack` closes a cycle.
  - Completeness uses a ghost finishing order. Every node that leaves `stack` has all its dependencies finished and ranked below it. A ranking like that rules out every cycle.
  - The keys are taken in an arbitrary order, because Go's map iteration order is random. Since `HasCycle` does not mention any order, the result is the same for every order.
- **`RunBuild`** is proved against the recursive function `Assemble`. The laws about `Assemble` cover success, first failure, length and placement.

## Model

| member | source | states |
|---|---|---|
| Hex.Encode | internal/domain/bom.go:41 | The rendering has two characters per byte, all from `0-9a-f`. |
| Hex.DigitValue | internal/domain/bom.go:41 | A character is a hex digit exactly when it has a value. That value is below 16, and rendering it gives the same character back. |
| Hex.DigitRoundTrip | internal/domain/bom.go:41 | Reading back a rendered hex digit gives the original nibble. |
| Hex.DecodeEncode | internal/domain/bom.go:41 | Decoding the hex rendering of any byte sequence returns exactly that sequence. |
| Hex.EncodeDecode | internal/domain/bom.go:41 | Every even-length lower-case hex string decodes, and it is the rendering of what it decodes to. |
| Hex.EncodeInjective | internal/domain/bom.go:41 | Two byte sequences have the same rendering if and only if they are equal. |
| Domain.ComputeSHA256 | internal/domain/bom.go:38-42 | The result is `"sha256:"` followed by 64 lower-case hex digits (71 characters in all). Decoding those digits gives exactly the SHA-256 digest of the input. |
| Domain.FingerprintRendersDigest | internal/domain/bom.go:41 | Every well-formed fingerprint decodes to a digest, and it is the `"sha256:"` rendering of that digest. |
| Domain.FingerprintMatchesDigest | internal/domain/bom.go:39-42 | Two inputs get the same fingerprint if and only if their digests are equal. Equal bytes therefore always give equal strings, and the rendering never merges two digests. |
| Domain.NewBOM | internal/domain/bom.go:78-92 | It fails exactly when the version does not parse, and the error wraps the parser's cause. On success it copies name, model and description. It sets the version to the parsed one and the metadata to `Metadata{owner, license}`. The components come back unchanged and in the same order. |
| Domain.NewComponent | internal/domain/bom.go:94-108 | It fails exactly when the version does not parse, and the error wraps the cause. On success it copies id, description and owner and leaves the license empty. The hash is a well-formed fingerprint that spells out the digest of the body. |
| Domain.StoredHashVerifies | internal/domain/bom.go:100-104 | A component's stored hash equals `ComputeSHA256` of its body. Another body matches that hash if and only if it has the same digest. |
| Domain.OnlyTheVersionIsChecked | internal/domain/bom.go:79-108 | Whether either constructor succeeds depends on the version string alone. Empty names, owners, licenses, IDs and bodies are accepted. |
| CycleDetection.RankFallsAlongPath | internal/domain/bom.go:61-67 | Along a path that starts at a finished node, every node is finished, and the finishing rank drops by at least one per edge. |
| CycleDetection.NoCycleUnderRanking | internal/domain/bom.go:56-67 | If every key has a finishing rank and every edge leads to a lower rank, the graph has no cycle. |
| CycleDetection.FinishExtendsRanking | internal/domain/bom.go:61-66 | Finishing a node after all its dependencies, with a rank above all earlier ranks, keeps every edge pointing to a lower rank. |
| CycleDetection.ExtendPath | internal/domain/bom.go:60-62 | Following an edge out of the last node of the search path gives a longer path. |
| CycleDetection.PushOnPath | internal/domain/bom.go:60 | Putting a node on `stack` while appending it to the path keeps `stack` equal to the set of path nodes. |
| CycleDetection.DependencyIsNode | internal/domain/bom.go:61 | Every entry of `deps[node]` is the target of an edge from `node` and is one of the graph's IDs. |
| CycleDetection.ClosePath | internal/domain/bom.go:53-54 | Reaching a node that is already on the search path means the graph has a cycle. |
| CycleDetection.ReachesSelf | internal/domain/bom.go:59 | Every node reaches itself by a walk of no edges. |
| CycleDetection.ReachesStep | internal/domain/bom.go:61-62 | Whatever a dependency reaches, the node depending on it reaches too. |
| CycleDetection.ReachedAreRanked | internal/domain/bom.go:56-58 | Everything reachable from a finished node is finished, which is why an already-visited node needs no second search. |
| CycleDetection.NewlyVisitedReached | internal/domain/bom.go:59-65 | If the nodes visited so far while exploring a node are reachable from it, and exploring one of its dependencies adds only nodes reachable from that dependency, then every newly visited node is still reachable from the node. |
| CycleDetection.UnvisitedShrinks | internal/domain/bom.go:56-59 | Marking a new node visited strictly shrinks the set of unvisited IDs. This is the termination measure of `visit`. |
| CycleDetection.CycleDetector.constructor | internal/domain/bom.go:48-49 | The search starts with empty `visited` and `stack`, in a valid state. |
| CycleDetection.CycleDetector.Enter | internal/domain/bom.go:59-60 | The node is added to both `visited` and `stack`, `stack` stays inside `visited`, and the finishing order is unchanged. |
| CycleDetection.CycleDetector.Leave | internal/domain/bom.go:66 | Only the node is removed from `stack`. It becomes finished, ranked above everything finished before it. |
| CycleDetection.CycleDetector.Visit | internal/domain/bom.go:51-68 | A true result only ever comes from a graph with a cycle. On a false result, `stack` is as it was, the node is finished, everything it reaches is visited, and every newly visited node is reachable from it. |
| CycleDetection.DetectCycle | internal/domain/bom.go:47-76 | The result is true if and only if the dependency graph has a cycle, whatever order the keys are tried in. |
| CycleExamples.ChainIsAcyclic | internal/domain/bom_test.go:38-45 | `A→B→C` has no cycle. |
| CycleExamples.TriangleIsCyclic | internal/domain/bom_test.go:47-54 | `A→B→C→A` has a cycle. |
| CycleExamples.EmptyIsAcyclic | internal/domain/bom.go:70-75 | An empty dependency map has no cycle. |
| CycleExamples.SelfLoopIsCyclic | internal/domain/bom.go:53-62 | A node that depends on itself is a cycle. |
| CycleExamples.DisconnectedCycle | internal/domain/bom.go:70-74 | A cycle in a part of the graph that is not connected to the rest is still a cycle. |
| CycleExamples.UnlistedIdIsSink | internal/domain/bom.go:61 | An ID that is referenced but is not a key has no outgoing edges. |
| Build.AssembleAppend | cmd/bom/build.go:28-36 | Assembling two manifests one after the other gives the first one's error if there is one, otherwise the second one's error, otherwise the two artifacts concatenated. |
| Build.AssembleSucceedsIffAllResolve | cmd/bom/build.go:29-35 | Assembly succeeds if and only if every ID of the manifest has a body. |
| Build.AssembleFailsAtFirstMissing | cmd/bom/build.go:30-34 | When the k-th ID is the first one without a body, assembly fails with an error naming `examples/components/<id>.md`. Changing the IDs after it makes no difference. |
| Build.AssembleLength | cmd/bom/build.go:28-36 | A successful artifact is as long as all the bodies plus one newline each. An empty manifest gives the empty string. |
| Build.AssemblePlacesEachEntry | cmd/bom/build.go:29-35 | In a successful artifact, the k-th component's body starts right after the entries of the components before it and is followed by a newline. Order is kept, and a repeated ID contributes once per occurrence. |
| Build.ExampleManifests | cmd/bom/build_test.go:126-129 | Bodies `X\n` and `Y\n` for A and C give `X\n\nY\n\n`. `[A, D]` fails naming `examples/components/D.md`. `[A, A]` repeats A's entry. `[]` gives `""`. |
| Build.Sink.WriteFile | cmd/bom/build.go:40-43 | The write either replaces the file's contents or fails, in which case nothing changes. |
| Build.Sink.Print | cmd/bom/build.go:44-46 | The text is appended to standard output, and no file changes. |
| Build.RunBuild | cmd/bom/build.go:27-48 | Bodies are read in manifest order, up to and including the first missing one. On a read error the sink is untouched and the error is `Assemble`'s error. On success the artifact `Assemble` describes is printed when no output is given. Otherwise it is written to the output file and a confirmation is printed, or, if the write fails, the command returns a write error and nothing changes. |

## Left out

- SHA-256 itself (FIPS 180-4): `ComputeSHA256` takes the digest function as a parameter that returns 32 bytes. The model proves the `"sha256:"` prefix and the hex rendering, not the hash.
- Semantic version parsing (Masterminds/semver): the constructors take the parser as a parameter that returns a version or an error message. Version grammar and precedence are not modelled, because the code never compares versions.
- Domain.NewBOM, Domain.NewComponent: Go returns a pointer or nil plus an error. The model returns `Ok` with the record or `Err`, and the error keeps the parser's cause but not the Japanese message text.
- CycleDetection.DetectCycle: the source's IDs are strings. The model is generic over any type with equality, because the search only compares IDs.
- CycleDetection.CycleDetector.Visit: the Go closure's recursion and early return are kept. Go's `stack[node] = false` is modelled as removing the node from a set, and `visited`/`stack` as sets rather than maps to bool.
- Build.RunBuild: the error is a value (`ComponentReadFailed(path)` or `OutputWriteFailed(path)`) rather than the formatted Go error text. The wrapped OS error is not modelled.
- Reading bodies: `os.ReadFile` is a lookup in a map from ID to body. Every kind of read failure is a missing entry.
- `filepath.Join`: the path is spelled `examples/components/<id>.md` without cleaning, so IDs containing `..` or `/` are not normalised.
- Bodies are byte strings in Go. Here each character stands for a byte, and Dafny strings are sequences of characters.
- Build.Sink.WriteFile: a write fails as a whole according to a fixed set of unwritable paths. Partial writes and file permissions (`0644`) are not modelled.
- `loadBOM` (YAML decoding of the manifest) and its error path: `RunBuild` starts from the list of component IDs.
- The `--output` flag parsing, cobra registration (`cmd/bom/main.go`), `cmd/bom/init.go` (writes a constant template) and `cmd/bom/validate.go` (YAML→JSON conversion and an external JSON-schema engine) are CLI plumbing or foreign calls.
- Required-field checks (non-empty owner or license), ID uniqueness and a semantic validation pipeline are described for the system as a whole but do not exist in this code. The model follows the code: `Domain.OnlyTheVersionIsChecked` states that nothing but the version is checked. `DetectCycle` has no caller, and the component's dependency list is commented out in the record, so `Component` has no dependency field.
