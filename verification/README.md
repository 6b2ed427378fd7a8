# Experiments, modelled in Dafny

This project models three small systems from the Experiments repository and
proves properties of each model.

- **TopoCrypt mesh store** (`TopoCrypt/src/mesh`). A triangle mesh holds a
  vertex-flag buffer and a face buffer of flat vertex-id triples. Both buffers
  start empty, or at the requested size rounded up from 16 by doubling. A
  growth of an empty buffer starts at 16, and a growth of a non-empty one
  doubles, until the request fits. The store supports:
  - adding vertices and setting or reading their flags;
  - adding faces and removing them by swap-with-last;
  - attaching a block mesh at a vertex offset;
  - relabelling vertices by a permutation, and inverting a permutation;
  - writing the mesh to the canonical little-endian binary image and reading it back;
  - dumping it as face-list text;
  - checking its consistency.

  The store is the class `TopoMesh.Mesh`, with `array<u32>` buffers that its
  methods grow and write in place. The byte image and the text dump are
  specified as functions (`MeshCodec.Encode`/`Decode`, `MeshText.Text`/`ParseText`),
  and the methods that produce them are proved equal to those functions.
- **feature-forge** (`feature-forge-app/src/app`).
  - A flag service loads a fetched list of feature flags into a map from id to
    flag. A later flag with the same id replaces an earlier one, and a failed
    fetch leaves the map empty.
  - The service answers `isEnabled` and `getPayload`.
  - The application config picks the hero strategy. The maintenance kill-switch
    wins, then variant B of the hero A/B test, and otherwise the standard hero.
  - A mock provider supplies four fixed flags.
- **BlurMageddon** (`Learning/BlurMageddon/src`).
  - A CSV loader skips the header line and keeps the lines that split into
    exactly three comma fields whose first two parse as features.
  - `SplitData` shuffles a copy of the rows and cuts it into a test prefix and a
    training suffix.
  - A baseline trainer predicts the most frequent label, and an evaluation loop
    counts correct predictions.

The environment enters the model as parameters:
- The outcome of the flag fetch is an `Option` (none when the fetch threw).
- A CSV file is its sequence of lines plus whether it exists.
- Feature parsing is a partial function `string -> Option<F>`.
- The random shuffle is any reordering, written as a sequence of exchanges.

## Model

| member | source | states |
|---|---|---|
| MeshTypes.Code | TopoCrypt/src/mesh/mesh.h:19-26 | the status codes are 0..5 and only `Ok` is 0 |
| Capacity.GrownCapacity | TopoCrypt/src/mesh/mesh.c:31-34 | the capacity after growth: unchanged if it already suffices, otherwise 16 or the first doubling that reaches the request, below twice the request and within 32 bits |
| Capacity.Doubling | TopoCrypt/src/mesh/mesh.c:34 | the doubling loop stops at the first value at or above the request, never below the start |
| Capacity.GrowOneAtATime | TopoCrypt/src/mesh/mesh.c:31-55 | growing one slot at a time, as repeated add_vertex/add_face does, gives the same capacity as growing once to the final count |
| Capacity.DoublingOvershoot | TopoCrypt/src/mesh/mesh.c:34 | a doubling that overshoots the request stays put when the request grows by one |
| Capacity.DoublingExact | TopoCrypt/src/mesh/mesh.c:34 | a doubling that lands exactly on the request doubles again for one more slot |
| Capacity.WrappedDoublingFrom16 | TopoCrypt/src/mesh/mesh.c:33-34 | with 32-bit wrap-around, `newcap` from 16 runs through 2^4 .. 2^31 and then stays 0 |
| Capacity.AsWrittenGrowthNeverExits | TopoCrypt/src/mesh/mesh.c:31-34 | as written, the loop's `newcap` never reaches 2^31 + 1, so such a request never ends the loop |
| TopoMesh.Mesh.constructor | TopoCrypt/src/mesh/mesh.c:59-75 | mesh_create: empty counts, capacities grown to the requests, zeroed buffers |
| TopoMesh.Mesh.EnsureVertexCapacity | TopoCrypt/src/mesh/mesh.c:31-42 | capacity becomes GrownCapacity; old flags kept, new slots 0, everything else unchanged |
| TopoMesh.Mesh.EnsureFaceCapacity | TopoCrypt/src/mesh/mesh.c:44-55 | the same for the face buffer, three slots per face |
| TopoMesh.Mesh.VertexCount | TopoCrypt/src/mesh/mesh.c:84-87 | the count is the number of live vertex flags |
| TopoMesh.Mesh.FaceCount | TopoCrypt/src/mesh/mesh.c:88-90 | the count is a third of the live face entries |
| TopoMesh.Mesh.AddVertex | TopoCrypt/src/mesh/mesh.c:92-101 | reports the old count as the new id (mesh.h:40), appends flag 0, leaves the faces unchanged |
| TopoMesh.Mesh.SetVertexFlag | TopoCrypt/src/mesh/mesh.c:103-108 | NotFound for an id at or past the count; otherwise only that flag changes |
| TopoMesh.Mesh.GetVertexFlag | TopoCrypt/src/mesh/mesh.c:110-115 | NotFound for an id at or past the count; otherwise the stored flag |
| TopoMesh.Mesh.AddFace | TopoCrypt/src/mesh/mesh.c:117-130 | InvalidArg with no change when a corner is not a live vertex; otherwise appends the triple at id = old count |
| TopoMesh.Mesh.RemoveFace | TopoCrypt/src/mesh/mesh.c:132-146 | NotFound past the count; otherwise the faces become SwapRemove of the old faces |
| TopoMesh.Mesh.AddZeroVertices | TopoCrypt/src/mesh/mesh.c:156-160 | the attach vertex loop appends `count` zero flags |
| TopoMesh.Mesh.CopyBlockFlags | TopoCrypt/src/mesh/mesh.c:162-164 | the block's flags land at the old vertex count |
| TopoMesh.Mesh.AddTripleOf | TopoCrypt/src/mesh/mesh.c:168-176 | one attach face round: appended when its corners are live, otherwise nothing changes |
| TopoMesh.Mesh.AppendShiftedFaces | TopoCrypt/src/mesh/mesh.c:166-177 | the block faces, shifted with wrap-around, are appended up to the first one with a dead corner |
| TopoMesh.Mesh.AttachLocalBlock | TopoCrypt/src/mesh/mesh.c:148-179 | vertices grow by the block's count with its flags at the offset, faces are appended shifted by the offset, `faceStart` is the old face count (mesh.h:48-53), and the block is unchanged |
| TopoMesh.Mesh.RelabelFaces | TopoCrypt/src/mesh/mesh.c:185-194 | faces before the first out-of-range one are relabelled by `perm`; the rest are untouched |
| TopoMesh.Mesh.ScatterFlags | TopoCrypt/src/mesh/mesh.c:196-204 | the flags are scattered to `perm` slots of a zeroed buffer; an out-of-capacity target keeps the old buffer |
| TopoMesh.Mesh.ApplyPermutation | TopoCrypt/src/mesh/mesh.c:181-206 | a length other than the vertex count changes nothing; otherwise faces are relabelled up to the first bad face (partial on error), then the flags move to `perm[i]` |
| TopoMesh.Mesh.Consistent | TopoCrypt/src/mesh/mesh.c:306-317 | the consistency condition itself: both counts within their capacities, and every face's three corners below the vertex count and pairwise distinct |
| TopoMesh.Mesh.CheckConsistency | TopoCrypt/src/mesh/mesh.c:306-317 | Ok iff the counts fit the capacities and every face has three live, pairwise distinct corners |
| FaceList.FirstOutOfRange | TopoCrypt/src/mesh/mesh.c:185-190 | the first face with a corner at or above `n`; all before it are in range |
| FaceList.FirstOutOfRangeAll | TopoCrypt/src/mesh/mesh.c:185-190 | no face is out of range iff every entry is in range |
| MeshTypes.AddU32 | TopoCrypt/src/mesh/mesh.c:169-171 | `uint32_t` addition: the sum modulo 2^32 |
| FaceList.Shift | TopoCrypt/src/mesh/mesh.c:169-171 | each entry plus the offset, modulo 2^32 |
| FaceList.ShiftInRange | TopoCrypt/src/mesh/mesh.c:169-171 | a block in range shifted by the old count lands in range without wrapping |
| FaceList.SwapRemove | TopoCrypt/src/mesh/mesh.c:136-144 | one face fewer; slot `fid` holds the former last face; the other faces are kept |
| FaceList.SwapRemoveKeepsGood | TopoCrypt/src/mesh/mesh.c:132-146 | removing a face keeps a consistent face list consistent |
| FaceList.AppendKeepsGood | TopoCrypt/src/mesh/mesh.c:117-130 | appending a good face keeps a consistent face list consistent |
| FaceList.InRangeFaceNeedNotBeGood | TopoCrypt/src/mesh/mesh.c:119 | add_face's guard accepts a face with repeated corners, which check_consistency (mesh.c:314) rejects |
| FaceList.Relabel | TopoCrypt/src/mesh/mesh.c:191-193 | each entry `x` becomes `perm[x]` |
| Permutation.InvertPermutation | TopoCrypt/src/mesh/mesh.c:208-219 | Ok iff `perm` is a bijection of 0..n-1 and n < 2^32 (at n = 2^32 the index UINT32_MAX collides with the sentinel, so even a bijection is refused); then `inv[perm[i]] == i` and `perm[inv[j]] == j` (mesh.h:58) |
| Permutation.SurjectiveIsInjective | TopoCrypt/src/mesh/mesh.c:217 | a map of 0..n-1 into itself that hits every value repeats none |
| Permutation.InjectiveIsSurjective | TopoCrypt/src/mesh/mesh.c:211-217 | a map of 0..n-1 into itself that repeats no value hits every value |
| Permutation.ElementsCard | TopoCrypt/src/mesh/mesh.c:211-217 | a sequence has as many distinct values as entries iff it repeats none |
| Permutation.RelabelKeepsGood | TopoCrypt/src/mesh/mesh.c:181-206 | relabelling by a permutation keeps every face good |
| Permutation.RelabelInverse | TopoCrypt/src/mesh/mesh.h:55-61 | relabelling by `perm` and then by its inverse restores the faces |
| Permutation.ScatterContents | TopoCrypt/src/mesh/mesh.c:196-202 | with distinct targets, slot `p[i]` holds flag `i` and unnamed slots hold 0 |
| Permutation.PermutedFlags | TopoCrypt/src/mesh/mesh.c:196-204 | for a permutation, vertex `i`'s flag moves to `perm[i]` and slots past the count stay 0 |
| MeshCodec.LeBytes | TopoCrypt/src/mesh/mesh.c:231-239 | four bytes, the least significant first and the most significant (`v >> 24`) last |
| MeshCodec.FromLe | TopoCrypt/src/mesh/mesh.c:241-246 | the first byte is the low byte of the word and the last byte its high byte |
| MeshCodec.FromLeLeBytes | TopoCrypt/src/mesh/mesh.c:231-246 | read_u32_le after write_u32_le gives the value back |
| MeshCodec.LeBytesFromLe | TopoCrypt/src/mesh/mesh.c:231-246 | write_u32_le after read_u32_le gives the four bytes back |
| MeshCodec.WordsAppend | TopoCrypt/src/mesh/mesh.c:255-261 | writing two runs of words writes one and then the other |
| MeshCodec.WordsAt | TopoCrypt/src/mesh/mesh.c:255-257 | word `j` occupies bytes `4j .. 4j+3` |
| MeshCodec.ReadWordsOfWords | TopoCrypt/src/mesh/mesh.c:277-287 | reading back written words gives the words, whatever follows |
| MeshCodec.WordsOfReadWords | TopoCrypt/src/mesh/mesh.c:277-287 | writing the words read gives back the bytes they came from |
| MeshCodec.Header | TopoCrypt/src/mesh/mesh.c:250-253 | sixteen bytes that start with the magic "TOPOC001" |
| MeshCodec.HeaderCounts | TopoCrypt/src/mesh/mesh.c:250-272 | a header reads back as the magic and its two counts |
| MeshCodec.Encode | TopoCrypt/src/mesh/mesh.c:248-263 | the image is 16 bytes plus four per flag and per face entry |
| MeshCodec.Decode | TopoCrypt/src/mesh/mesh.c:265-288 | an image is accepted only with the magic, counts within bounds and enough bytes |
| MeshCodec.DecodeRefusesUngrowableFaceCount | TopoCrypt/src/mesh/mesh.c:270-274 | a header face count above 2^31 is refused, where mesh_create's face-capacity loop would never exit |
| MeshCodec.DecodeRefusesUngrowableCount | TopoCrypt/src/mesh/mesh.c:270-273 | an image whose vertex count is above 2^31 is refused instead of reaching mesh_create |
| MeshCodec.DecodeEncode | TopoCrypt/src/mesh/mesh.h:63-67 | an encoded mesh decodes to its flags and faces, whatever follows it |
| MeshCodec.EncodeDecode | TopoCrypt/src/mesh/mesh.h:63-67 | anything accepted starts with the encoding of what it decodes to (canonical form) |
| MeshCodec.DecodedWords | TopoCrypt/src/mesh/mesh.c:277-287 | the decoded flags and faces are the words after the header |
| MeshCodec.ReEncodeWords | TopoCrypt/src/mesh/mesh.c:265-288 | re-encoding the words read after a good header gives the bytes read |
| MeshCodec.AppendWords | TopoCrypt/src/mesh/mesh.c:255-261 | the write loops append the encoding of the first `n` words |
| MeshCodec.Serialize | TopoCrypt/src/mesh/mesh.c:248-263 | the bytes written are `Encode` of the mesh's flags and faces |
| MeshCodec.ReadWordsInto | TopoCrypt/src/mesh/mesh.c:277-287 | succeeds iff enough bytes remain, and then holds the words read |
| MeshCodec.Deserialize | TopoCrypt/src/mesh/mesh.c:265-288 | null iff Decode rejects; otherwise a fresh valid mesh with the decoded flags and faces |
| MeshText.Dec | TopoCrypt/src/mesh/mesh.c:293-301 | `%u` prints at least one digit and no leading zero |
| MeshText.DecValue | TopoCrypt/src/mesh/mesh.c:293-301 | the printed digits denote the number |
| MeshText.ReadNatDec | TopoCrypt/src/mesh/mesh.c:293-301 | reading a printed number gives it back and leaves what follows |
| MeshText.ExpectLit | TopoCrypt/src/mesh/mesh.c:293-301 | a literal is matched and removed from the front |
| MeshText.ScanRender | TopoCrypt/src/mesh/mesh.c:293-301 | scanning what a separated format printed gives back the values |
| MeshText.VertexLinesSnoc | TopoCrypt/src/mesh/mesh.c:294-296 | one more vertex appends one `v i flags x` line |
| MeshText.FaceLinesSnoc | TopoCrypt/src/mesh/mesh.c:298-302 | one more face appends one `f a b c` line |
| MeshText.ParseVertexLinesOf | TopoCrypt/src/mesh/mesh.c:294-296 | the vertex lines read back as the flags |
| MeshText.ParseFaceLinesOf | TopoCrypt/src/mesh/mesh.c:298-302 | the face lines read back as the faces |
| MeshText.ParseTextOfText | TopoCrypt/src/mesh/mesh.c:290-304 | the dump determines the flags and faces it was written from |
| MeshText.AppendVertexLines | TopoCrypt/src/mesh/mesh.c:294-296 | the vertex loop appends the vertex lines |
| MeshText.AppendFaceLines | TopoCrypt/src/mesh/mesh.c:298-302 | the face loop appends the face lines |
| MeshText.Text | TopoCrypt/src/mesh/mesh.c:290-304 | the dump as text: the vertex-count line, one `v i flags x` line per vertex, the face-count line, one `f a b c` line per face; ParseTextOfText reads both sequences back from it |
| MeshText.ExportFaceListText | TopoCrypt/src/mesh/mesh.c:290-304 | the text written is `Text` of the mesh's flags and faces |
| Features.Ids | feature-forge-app/src/app/core/features/feature.service.ts:19-20 | every flag's id is among the ids of the list |
| Features.LastWith | feature-forge-app/src/app/core/features/feature.service.ts:19-20 | the last index with an id; none when no flag has it |
| Features.ToMap | feature-forge-app/src/app/core/features/feature.service.ts:19-20 | the keys are exactly the ids, and each flag is stored under its own id |
| Features.ToMapIsLastWith | feature-forge-app/src/app/core/features/feature.service.ts:19-20 | an id is present iff some flag has it, and maps to the last such flag |
| Features.FirstSeenIds | feature-forge-app/src/app/core/features/feature.service.ts:12 | the map's key order lists each id once, in order of first appearance |
| Features.EnabledAfterLoad | feature-forge-app/src/app/core/features/feature.service.ts:31-33 | an id is enabled iff its last flag exists and is enabled |
| Features.PayloadAfterLoad | feature-forge-app/src/app/core/features/feature.service.ts:38-40 | the payload is that of the last flag with the id, and none when no flag has it |
| Features.FailSafe | feature-forge-app/src/app/core/features/feature.service.ts:21-25 | with the empty map nothing is enabled and no payload is found |
| Features.IsEnabledIn | feature-forge-app/src/app/core/features/feature.service.ts:31-33 | an absent id reads as disabled (`?? false`); a present one reads as its flag's `enabled` |
| Features.PayloadIn | feature-forge-app/src/app/core/features/feature.service.ts:38-40 | an absent id has no payload; a present one gives its flag's payload |
| Features.DistinctCard | feature-forge-app/src/app/core/features/feature.service.ts:12 | a key order without repeats has as many entries as keys |
| Features.FeatureService.constructor | feature-forge-app/src/app/core/features/feature.service.ts:9 | the map starts empty |
| Features.FeatureService.Init | feature-forge-app/src/app/core/features/feature.service.ts:17-26 | a fetched list becomes ToMap of it; a failed fetch leaves the map empty |
| Features.FeatureService.IsEnabled | feature-forge-app/src/app/core/features/feature.service.ts:31-33 | in a valid store, true iff `allFlags` lists an enabled flag with that id |
| Features.FeatureService.GetPayload | feature-forge-app/src/app/core/features/feature.service.ts:38-40 | in a valid store, the payload of the flag `allFlags` lists with that id; a payload only for a listed id |
| Features.FeatureService.AllFlags | feature-forge-app/src/app/core/features/feature.service.ts:12 | one stored flag per key, in key order, with distinct ids |
| MockFeatureProvider.FetchFlags | feature-forge-app/src/app/core/features/mock-feature.provider.ts:6-30 | four flags with distinct ids |
| MockFeatureProvider.MockFlagsLoaded | feature-forge-app/src/app/core/features/mock-feature.provider.ts:8-28 | once loaded, maintenance is off, the A/B test is on with variant B, search layout on, premium dashboard off, other ids off |
| AppConfig.SelectHeroStrategy | feature-forge-app/src/app/app.config.ts:37-53 | the kill-switch wins whatever the A/B test says; below it, variant B selects the experimental hero whether or not its flag is enabled; otherwise the standard hero |
| AppConfig.StrategyOfList | feature-forge-app/src/app/app.config.ts:37-53 | after loading a list: maintenance iff its last maintenance flag is enabled; experimental iff not, and the last A/B test flag carries variant B |
| AppConfig.DisabledAbTestStillExperimental | feature-forge-app/src/app/app.config.ts:46-49 | for any loaded list whose last maintenance flag is not enabled and whose last A/B test flag is disabled but carries variant B, the test reads as disabled and the experimental hero is still selected |
| AppConfig.Startup | feature-forge-app/src/app/app.config.ts:27-53 | init then dispatch: a failed fetch gives the standard hero, the mock flags the experimental one |
| AppConfig.MockSelectsExperimental | feature-forge-app/src/app/app.config.ts:27 | with the mock provider the experimental hero is chosen |
| AppConfig.FailedFetchSelectsStandard | feature-forge-app/src/app/app.config.ts:51-52 | an empty flag map falls through to the standard hero |
| BlurData.Split | Learning/BlurMageddon/src/DataLoader.cs:45 | `Split(',')` gives at least one field, empty fields kept; SplitFields and JoinSplit state the rest |
| BlurData.SplitFields | Learning/BlurMageddon/src/DataLoader.cs:45 | a line with `k` commas splits into `k + 1` comma-free fields |
| BlurData.JoinSplit | Learning/BlurMageddon/src/DataLoader.cs:45 | joining the fields with commas gives back the line |
| BlurData.SplitJoin | Learning/BlurMageddon/src/DataLoader.cs:45 | splitting joined comma-free fields gives back the fields |
| BlurData.Accept | Learning/BlurMageddon/src/DataLoader.cs:45-57 | the row a single line gives, or none; its meaning is stated by AcceptSpec |
| BlurData.AcceptAll | Learning/BlurMageddon/src/DataLoader.cs:48-62 | the rows of the accepted lines in line order, at most one per line |
| BlurData.AcceptSpec | Learning/BlurMageddon/src/DataLoader.cs:45-57 | a line gives a row iff it has two commas and both features parse; the label is the third field verbatim |
| BlurData.AcceptAllAppend | Learning/BlurMageddon/src/DataLoader.cs:37-63 | rows keep line order: the rows of two runs are those of each run |
| BlurData.AcceptAllSnoc | Learning/BlurMageddon/src/DataLoader.cs:48-62 | one more line adds its row at the end, or nothing |
| BlurData.AcceptOne | Learning/BlurMageddon/src/DataLoader.cs:48-62 | a line gives its row if accepted and nothing otherwise |
| BlurData.LoadedRows | Learning/BlurMageddon/src/DataLoader.cs:35-63 | at most one row per line after the header |
| BlurData.HeaderIgnored | Learning/BlurMageddon/src/DataLoader.cs:35-43 | the first line never becomes a row, whatever it holds |
| BlurData.LoadData | Learning/BlurMageddon/src/DataLoader.cs:19-68 | a missing file is reported before reading; otherwise the result is LoadedRows of the lines |
| BlurChaos.ApplySwaps | Learning/BlurMageddon/src/BlurChaos.cs:83 | the exchanges performed in order, keeping the length; ApplySwapsPermutes states that the rows are kept |
| BlurChaos.ApplySwapsPermutes | Learning/BlurMageddon/src/BlurChaos.cs:82-83 | the shuffle keeps the same rows with the same multiplicities |
| BlurChaos.Shuffle | Learning/BlurMageddon/src/BlurChaos.cs:83 | the copy ends up as the exchanges applied in order |
| BlurChaos.TestCount | Learning/BlurMageddon/src/BlurChaos.cs:85 | the product truncated toward zero; within `[0, n]` for a fraction in `[0, 1]` |
| BlurChaos.SplitData | Learning/BlurMageddon/src/BlurChaos.cs:79-91 | a test count outside `[0, n]` throws; otherwise test followed by train is the shuffled copy, with the stated sizes, so every row lands in exactly one set |
| BlurChaos.ThirtyPercent | Learning/BlurMageddon/src/BlurChaos.cs:21 | the exact fraction 3/10 gives `floor(3n/10)` test rows, never more than `n` |
| ModelTrainer.Count | Learning/BlurMageddon/src/ModelTrainer.cs:24-25 | a label's count is 0 iff no row carries it |
| ModelTrainer.Labels | Learning/BlurMageddon/src/ModelTrainer.cs:24-25 | the group keys: each label of the rows once |
| ModelTrainer.ClassCounts | Learning/BlurMageddon/src/ModelTrainer.cs:24-25 | one pair per label, each count at least 1 |
| ModelTrainer.ClassCountsSum | Learning/BlurMageddon/src/ModelTrainer.cs:24-25 | the counts add up to the number of rows |
| ModelTrainer.FirstMax | Learning/BlurMageddon/src/ModelTrainer.cs:34 | the first pair whose count no other exceeds |
| ModelTrainer.Majority | Learning/BlurMageddon/src/ModelTrainer.cs:34 | none for no rows; otherwise a label of the rows that no label outnumbers |
| ModelTrainer.TrainModel | Learning/BlurMageddon/src/ModelTrainer.cs:19-42 | no predictor for empty data; otherwise one that answers the majority label for every row |
| ModelTrainer.CountOfBound | Learning/BlurMageddon/src/ModelTrainer.cs:24-34 | the labels together count at most their number times the largest count |
| ModelTrainer.Correct | Learning/BlurMageddon/src/ModelTrainer.cs:54-62 | the correct count is at most the number of rows |
| ModelTrainer.EvaluateModel | Learning/BlurMageddon/src/ModelTrainer.cs:49-67 | the loop's count is the number of rows predicted correctly |
| ModelTrainer.ConstantCorrect | Learning/BlurMageddon/src/ModelTrainer.cs:37-41 | a constant predictor is right on exactly the rows with its label |
| ModelTrainer.MajorityOnTrainingData | Learning/BlurMageddon/src/ModelTrainer.cs:34-62 | on its own training data the predictor is right as often as the majority label occurs, at least `n / #labels` |

## Left out

- Memory exhaustion: `malloc`/`realloc`/`calloc` never fail in the model, so `ErrOom` is never produced. `mesh_destroy` is not modelled because Dafny manages memory.
- NULL arguments: the `!m`, `!f`, `!perm` and `!out_inv` checks are not modelled, because Dafny references and sequences are never null.
- `FILE*` I/O: the binary image and the text dump are byte and character sequences. Write and read failures (`ErrIo`) are not modelled; a short input is a decode failure.
- `ErrCapacity` is declared in mesh.h but no function returns it, so no member produces it.
- Attach with `block == m` is not modelled: AttachLocalBlock requires the two meshes not to share storage.
- Permutation.InvertPermutation: on error, the contents of `out_inv` are not stated. Lengths above 2^32 are not modelled; no sequence of `uint32_t` values that long is a permutation, and the C code rejects one.
- TopoMesh.Mesh.AddVertex, TopoMesh.Mesh.AddFace, TopoMesh.Mesh.AttachLocalBlock: AddVertex requires fewer than 2^31 vertices and AddFace fewer than 0x5555_5555 faces; AttachLocalBlock requires the combined vertex count to stay within 2^31 and the combined face count within 0x5555_5555. This keeps `newcap *= 2` and `fid * 3` within 32 bits; their wrap-around is not modelled except in the finding below.
- MeshCodec.Decode: rejects face counts above 0x5555_5555. For face counts from 0x5555_5556 up to 2^31, `mesh_create` succeeds, `fcount * 3` then wraps in the C read loop, and fewer words than the count are read; that case is not modelled.
- MeshCodec.Decode: for face counts above 2^31 the C code never reaches the read loop: `ensure_face_capacity`'s doubling loop (mesh.c:46-47) wraps to 0 inside `mesh_create` and never exits, as in the finding below. The model rejects these images (MeshCodec.DecodeRefusesUngrowableFaceCount).
- MeshCodec.Serialize: requires counts within the same bounds, which every mesh built through the model's operations meets.
- The attach edge arguments of `mesh_attach_local_block` are accepted and ignored, as in the C code; no edge check exists to model.
- feature-forge payloads are modelled as an object of string-or-other fields or a non-object value. Nested payload structure is not modelled.
- Angular plumbing: signals, `inject`, async Promises, the hero components, strategy classes and CSS strings.
- Features.FeatureService.Init: the fetch outcome is a parameter. The provider's asynchronous call and the console logging are not modelled.
- BlurData.LoadData: console output, `File.Exists` (a boolean parameter) and `StreamReader` are not modelled. Culture-dependent `float.TryParse` is the `parse` parameter.
- A default-constructed `DataRow` (label `""`, features 0) is not modelled: the loader always sets all three properties, so rows are values built from a line.
- The split sets alias the same row objects as the input, so later in-place noise shows through them. Rows are values here, so aliasing is not modelled.
- BlurChaos.SplitData: the random comparator's sort is modelled by the exchanges it makes on the copy. A .NET sort that rejects an inconsistent comparator is not modelled.
- BlurChaos.TestCount: the test fraction is an exact rational `num / den`. The float product `n * 0.3f` and its rounding are not modelled.
- BlurChaos.ThirtyPercent: states `floor(3n/10)` for the exact 3/10. The single-precision `(int)(n * 0.3f)` can be one more: at n = 4,200,003 the product rounds to 1,260,001.0, while `floor(3n/10)` is 1,260,000.
- ModelTrainer.Majority: ties go to the label seen first, which is the dictionary order .NET yields. The contract only says "a label no other outnumbers".
- ModelTrainer.TrainModel: the unused `labelColumnName` is kept as a parameter. The console output is not modelled.
- ModelTrainer.EvaluateModel: the accuracy is a float division, and for empty test data it is a NaN. Only the integer correct count is modelled.
- Perceptron, SupportVectorMachine, NoiseInjector and Visualization are not modelled: they are floating-point training, random noise and plotting. The `Run` sequencing in BlurChaos.cs is not modelled either.

## Findings

| source | as written | input that shows it | evidently intended | confidence | as-written member | corrected member |
|---|---|---|---|---|---|---|
| TopoCrypt/src/mesh/mesh.c:31-34 | `while (newcap < min_cap) newcap *= 2` on a `uint32_t` starts at 16, reaches 2^31 and then wraps to 0. For a request above 2^31 the loop never ends, and `mesh_deserialize_canonical` passes the header's vertex count straight to `mesh_create` | a binary image whose header carries the magic and the vertex count 0x8000_0001; or the face count 0x8000_0001, which hangs the same loop in `ensure_face_capacity` (mesh.c:46-47) | a count that the store cannot hold is rejected, so the image reads as NULL | not executed | Capacity.AsWrittenGrowthNeverExits | MeshCodec.Deserialize |
