# Verification of the AWSM vault core

A Dafny model of the parts of the AWSM vault whose correctness spans many calls:
the causal graph index that replay is built on, the framed streams that carry
sealed artifacts between the Go runtime and the browser extension, the popup
controller's reconcile protocol, the transfer and grant managers with their
rollbacks and restarts, and the canonical encodings behind every content address.

`dafny verify dfyconfig.toml` checks the whole project.

## How it is organised

| file | module | what it holds |
|---|---|---|
| `ByteStrings.dfy`, `Sorting.dfy`, `Ciphers.dfy` | same names | big-endian integers, concatenation, byte order; what a sort promises and why its result is unique; the cipher and hash laws with a witness |
| `CausalGraph.dfy` | `CausalGraphs` | the index as a value, runs of calls, convergence, and the class with its explicit-stack search |
| `Cbor.dfy`, `Transcripts.dfy` | same names | canonical CBOR of the restricted values, injective framing, incremental hashing |
| `Frames.dfy` | `Frames` | the frame layout, its parser, slicing, sealing and opening, for both index dialects |
| `ArtifactStream.dfy` | `ArtifactStreams` | the runtime's slicing sealer, the browser's online sealer, both openers |
| `CompleteExport.dfy` | `CompleteExports` | the export container: prefix codec, seal and open |
| `ArtifactEnvelope.dfy` | `ArtifactEnvelopes` | the browser's chunked envelope writer and exact byte reader |
| `OpaqueEnvelope.dfy` | `OpaqueEnvelopes` | the browser's opaque storage envelope codec |
| `PopupController.dfy` | `PopupControllers` | the reconcile protocol, one atomic step per stretch between awaits |
| `Transfer.dfy`, `Grants.dfy` | `Transfers`, `Grants` | the two managers as state machines over runs, and as classes |
| `Entries.dfy`, `Features.dfy`, `Manifest.dfy` | `ExportEntries`, `FeatureSets`, `ExportManifests` | order-blind canonical output of export entries, feature sets and manifests |

## Conventions

- AEAD, SHA-256, Argon2 and HKDF are parameters. `Ciphers.Lawful` says that opening
  undoes sealing and that a tag adds 16 bytes; `Ciphers.Exact` adds that opening
  succeeds only on what sealing gives. `Ciphers.TrivialExact` shows that both laws
  can be met. No hash is assumed free of collisions; where an identity is to tell two
  values apart, `Ciphers.TellsApart` of just the bytes hashed is a hypothesis.
- The CBOR library is a parameter `decode` that accepts exactly the canonical
  encodings (`Cbor.Decodes`, which `Cbor.DecoderExists` shows can be met); encoding is
  written out per section 4.2.1 of RFC 8949.
- A library sort is known only by `Sorting.SortOf`; `Sorting.SortedOnly` shows that on
  distinct elements that fixes its result.
- Stores fail by parameter: `stateOk`, `artifactOk`, `deleteOk`. A failing `Put` leaves
  the store unchanged. Generated identifiers are fresh.
- Go's frame counters are 32-bit and wrap (`Frames.NextIndex`); JavaScript's do not.
- The labels of transcripts are constants of type `Label` in `Transcripts.dfy`.

## Where the code differs from what one would expect

- A failed repeat of `Revoke` or `Approve` clears the flag in memory, because the
  rollback writes false unconditionally: `Grants.FailedRepeatRestoresGrant` gives the
  run, `Grants.RevocationStandsIff` and `Grants.StepInv` the exact condition.
- `AddBaseline` can turn a true ancestor answer false for a cause it binds:
  `CausalGraphs.BaselineCanRetract` gives the calls, `CausalGraphs.AncestryAfterBaseline`
  the answers after every accepted call.
- A stream that ends with an empty final frame after full ones opens but is not what
  sealing its plaintext gives: `Frames.EmptyTailNotResealed` gives such streams,
  `Frames.ResealIff` and `CompleteExports.ResealStreamIff` the exact condition.
- The runtime counts an artifact's frames in 32 bits and takes a count of zero for a missing
  final frame, so it refuses what it and the browser seal in exactly 2^32 frames, which the
  browser's contract check admits: `ArtifactStreams.WrappedCountRefused` gives the input,
  `ArtifactStreams.OpenArtifactPayload` and `ArtifactStreams.ArtifactRoundTrip` the exact condition.
- The runtime's frame counter also feeds its nonces, so an export or artifact of more than 2^32
  frames would reuse a nonce under one key: `CompleteExports.ExportNoncesDistinctIff` and
  `ArtifactStreams.ArtifactNoncesDistinctIff` give the exact condition.
- A removal of a transfer whose write fails, followed by a restart before the list is written
  again, brings back a staged transfer without its artifact:
  `Transfers.FailedRemoveOrphans` gives the run, `Transfers.TransferFate` the exact condition.
- `SequenceEntries` does not compare an opaque header's identity with its body:
  `ExportEntries.ForgedIdentityAccepted` gives accepted lists with a wrong one,
  `ExportEntries.PreparedIff` says exactly which intact entries are prepared ones.
- `NewManifest` panics, rather than failing, on a repeated frontier or continuity
  identifier: `ExportManifests.RepeatedFrontierPanics` gives the input,
  `ExportManifests.NewManifestOutcome` the exact condition. No bytes make `DecodeManifest` do so.
- A client that calls back into `refresh` from the first call of a new reconciliation starts a
  second one: `PopupControllers.ReentryBreaksSingleFlight` gives the run,
  `PopupControllers.ReentryHarmlessIff` says exactly when calling back is harmless.
- In `Remove`, `apps/runtime-go/internal/transfer/manager.go:225-238`, a missing artifact
  does not stop the removal; the model follows the code.

## Model

| member | source | states |
|---|---|---|
| CausalGraphs.ReachableWellFormed | apps/runtime-go/internal/canonical/graph.go:23-70 | after every sequence of calls, rejected ones included, the graph is acyclic although parents may be named before they arrive, record and cause identifiers are disjoint, and each cause's root is a parentless record |
| CausalGraphs.InsertKeepsAcyclic | apps/runtime-go/internal/canonical/graph.go:63-68 | the per-parent ancestor test on insertion is enough to keep the whole graph acyclic |
| CausalGraphs.Convergence | apps/runtime-go/internal/canonical/graph.go:23-106 | if one order of some calls is accepted in full, every order is, and all end with the same parent map, cause map and ancestor answers |
| CausalGraphs.PermutationsConverge | apps/runtime-go/internal/canonical/graph.go:23-70 | the same for any permutation of the call list |
| CausalGraphs.AcceptedIffSatisfiable | apps/runtime-go/internal/canonical/graph.go:23-70 | a sequence is accepted in full if and only if some well-formed graph satisfies each call, a condition in which order does not occur |
| CausalGraphs.AcceptedDownward | apps/runtime-go/internal/canonical/graph.go:23-70 | any sequence drawn from accepted calls, reordered or repeated, is accepted and builds a part of the same graph |
| CausalGraphs.AncestryStrictPartialOrder | apps/runtime-go/internal/canonical/graph.go:79-106 | on reachable graphs ancestry is irreflexive, transitive and asymmetric |
| CausalGraphs.AncestrySurvivesAdd | apps/runtime-go/internal/canonical/graph.go:47-70 | a true ancestor answer survives every later `Add` |
| CausalGraphs.AncestryAfterBaseline | apps/runtime-go/internal/canonical/graph.go:23-45 | after an accepted `AddBaseline`, the answers for its causes are exactly the Baseline's and the Baseline itself; all other answers stay |
| CausalGraphs.BaselineCanRetract | apps/runtime-go/internal/canonical/graph.go:23-45 | a cause named as a parent before it is bound loses a true answer |
| CausalGraphs.CausalGraph.IsAncestor | apps/runtime-go/internal/canonical/graph.go:79-106 | the stack search terminates on every graph and answers true exactly when the two differ and the descendant is the cause's root or a nonempty parent path leads to the ancestor's root |
| CausalGraphs.CausalGraph.Add | apps/runtime-go/internal/canonical/graph.go:47-70 | accepts exactly the calls the specification accepts, with the parents as strictly increasing 256-bit numbers; the new graph is the specified step, and a rejected call changes nothing |
| CausalGraphs.CausalGraph.AddBaseline | apps/runtime-go/internal/canonical/graph.go:23-45 | the same for Baselines, whose causes are strictly increasing numbers, with all causes bound or none |
| CausalGraphs.KnownIffNamed | apps/runtime-go/internal/canonical/graph.go:72-77 | after every run, `Has` is true of exactly the identifiers that some accepted call named as its record or among its causes; being named as a parent is not enough |
| CausalGraphs.SameIdentifierSet | apps/runtime-go/internal/canonical/graph.go:118-132 | equal lengths and membership of the right side in the left |
| CausalGraphs.SameSetOfCanonical | apps/runtime-go/internal/canonical/graph.go:57-62 | on canonical lists that comparison is equality of lists |
| CausalGraphs.ValidateIdentifierSet | apps/runtime-go/internal/canonical/event.go:251-265 | accepts exactly the lists whose identifiers, read as big-endian numbers, strictly increase |
| ByteStrings.LessIffNumber | apps/runtime-go/internal/canonical/event.go:259-263 | for byte strings of one length the byte order is the order of the numbers they write, most significant byte first |
| ByteStrings.LessIffSmallerAt | apps/browser-extension/src/domain/canonical/value.ts:132-139 | for all byte strings the order is decided by the first byte that differs, the smaller byte first, and a proper beginning comes first |
| Frames.ParseExact | apps/runtime-go/internal/storage/envelope.go:196-234 | a payload is accepted if and only if it encodes full non-final frames and one final frame of at most a frame, and it encodes only one such list |
| Frames.FrameLayout | apps/browser-extension/src/storage/opaque-envelope.ts:146-172 | the bytes of a frame: 32-bit index, flag byte 1 or 0, 32-bit ciphertext length, ciphertext, and the length bounds in numbers |
| Frames.ParseEncoded | apps/browser-extension/src/storage/opaque-envelope.ts:146-172 | parsing the encoding of a well-formed list gives the list back |
| Frames.ParsedEncodes | apps/runtime-go/internal/storage/envelope.go:196-234 | accepted bytes are the encoding of the well-formed list they parse to |
| Frames.ValidateStreamPayload | apps/runtime-go/internal/storage/envelope.go:196-234 | the loop over offset, index and final flag accepts exactly the payloads that parse, in either dialect |
| Frames.DialectsAgree | apps/browser-extension/src/storage/opaque-envelope.ts:100-130 | the browser accepts a list of frames if and only if the runtime does and it has at most 2^32 frames |
| Frames.GoIndexWraps | apps/runtime-go/internal/crypto/artifact_stream.go:85-104 | the runtime's frame index is the position modulo 2^32 |
| Frames.ChunksJoin | apps/runtime-go/internal/crypto/artifact_stream.go:85-104 | the slices of a plaintext join to it, all but the last are full, and the last is empty only when alone |
| Frames.ChunksOfConcat | apps/runtime-go/internal/crypto/artifact_stream.go:85-104 | a list of frame plaintexts is the slicing of its bytes if and only if it does not end with an empty one after full ones |
| Frames.OpenUndoesSeal | apps/runtime-go/internal/crypto/artifact_stream.go:164-199 | sealed frames are well formed and open, frame by frame, to the slices of the plaintext; the count check after the loop is part of `ArtifactStreams.OpenArtifactPayload` |
| Frames.ResealIff | apps/runtime-go/internal/crypto/artifact_stream.go:85-199 | under the exact cipher law accepted frames are the sealing of their plaintext if and only if they do not end with an empty frame after full ones |
| Frames.EmptyTailNotResealed | apps/runtime-go/internal/storage/envelope.go:196-234 | a full frame followed by an empty final one is well formed, opens, and is not the sealing of its plaintext |
| Frames.SealedLength | apps/browser-extension/src/crypto/artifact-stream.ts:51-60 | a plaintext of n bytes takes max(1, ceil(n / limit)) frames and n + 25 bytes a frame |
| Frames.SealedSlice | apps/runtime-go/internal/crypto/artifact_stream.go:85-104 | the frame at each position in closed form: which bytes of the plaintext, which index, final or not |
| Frames.NoncesDistinctIff | apps/runtime-go/internal/crypto/artifact_stream.go:236-241 | under nonces that count in 64 bits, the frames of a sealed plaintext have pairwise different nonces if and only if the frame counter does not wrap |
| ArtifactStreams.SealSlices | apps/runtime-go/internal/crypto/artifact_stream.go:85-104 | the runtime's loop writes exactly the frames of the slices, with the wrapping index |
| ArtifactStreams.SealArtifactPayload | apps/runtime-go/internal/crypto/artifact_stream.go:60-108 | succeeds if and only if the digest matches and there are 64 protection bytes; the payload is the frames of the slices under the runtime's own nonce and AAD |
| ArtifactStreams.SealArtifactFrames | apps/browser-extension/src/crypto/artifact-stream.ts:125-230 | for every chunking into pieces of at most a frame it succeeds if and only if the contract holds and there are 64 protection bytes; it writes the frames of the slicing sealer, reports their count, length and digest, and the envelope prefix for them; on failure no final frame was written and none of the guards on index, frame length or safe integers was the cause |
| ArtifactStreams.OnlineSealer.Absorb | apps/browser-extension/src/crypto/artifact-stream.ts:187-199 | emitted, held and pending bytes together are exactly the bytes consumed |
| ArtifactStreams.OnlineSealer.Emit | apps/browser-extension/src/crypto/artifact-stream.ts:152-174 | seals and encodes one frame, or reports the guard that refused it and changes nothing written |
| ArtifactStreams.OnlineSealer.Finish | apps/browser-extension/src/crypto/artifact-stream.ts:208-215 | the last frame, full or not, is final, and the frames are those of all bytes consumed |
| ArtifactStreams.BrowserSealsAsRuntime | apps/browser-extension/src/crypto/artifact-stream.ts:152-174 | within 2^32 frames the browser's frames, with its hand-built AAD and cut nonce, are byte for byte the runtime's payload, with its transcript AAD and filled nonce |
| ArtifactStreams.SealersAgree | apps/runtime-go/internal/crypto/artifact_stream.go:228-241 | both runtimes build the same nonce and the same AAD for every frame |
| ArtifactStreams.ArtifactFrame | apps/runtime-go/internal/crypto/artifact_stream.go:85-135 | for each position, exactly what is sealed: the key expanded from vault, epoch, artifact and protection parameters, the nonce, the slice, and the nine authenticated fields |
| ArtifactStreams.ArtifactNonces | apps/runtime-go/internal/crypto/artifact_stream.go:236-241 | both runtimes build 24-byte nonces: the first 16 protection bytes, then the index as a 64-bit number |
| ArtifactStreams.ArtifactNoncesDistinctIff | apps/runtime-go/internal/crypto/artifact_stream.go:85-104 | no two frames of an artifact share a nonce: in the browser never; in the runtime if and only if there are at most 2^32 frames |
| ArtifactStreams.ArtifactAadInjective | apps/runtime-go/internal/crypto/artifact_stream.go:228-234 | equal AADs have equal vault, epoch, artifact, protection parameters, total length, index, flag and frame length |
| ArtifactStreams.WrapperInfoInjective | apps/runtime-go/internal/crypto/artifact_stream.go:213-226 | equal key derivation inputs have equal vault, epoch, artifact and protection parameters |
| ArtifactStreams.ContractIff | apps/browser-extension/src/crypto/artifact-stream.ts:51-60 | the contract check passes exactly for lengths from 0 to 2^52 with a 32-byte digest, and says which check failed |
| ArtifactStreams.CheckFrame | apps/runtime-go/internal/crypto/artifact_stream.go:165-181 | the loop's own checks pass exactly when the frame parses and none was final before |
| ArtifactStreams.OpenArtifactPayload | apps/runtime-go/internal/crypto/artifact_stream.go:159-210 | succeeds if and only if the payload parses, every frame opens, length and digest match and the frame count is not a multiple of 2^32; reports a missing final frame if and only if the payload opens within the limit and the count is such a multiple; the structural errors inside the loop cannot occur |
| ArtifactStreams.OpenArtifactFrames | apps/browser-extension/src/crypto/artifact-stream.ts:232-309 | succeeds only on frames that meet the outer and inner contract, and then returns their plaintexts; fails only when no plaintext meets it |
| ArtifactStreams.RuntimeOpensIff | apps/runtime-go/internal/crypto/artifact_stream.go:137-211 | under the exact cipher law the runtime opens a payload to a plaintext if and only if it is a sealing of it, under its own length and digest, whose frame count is not a multiple of 2^32 |
| ArtifactStreams.BrowserOpensIff | apps/browser-extension/src/crypto/artifact-stream.ts:232-309 | under the exact cipher law the browser opens frames to these plaintexts if and only if they are their sealing, with the length and digests that sealing reports |
| ArtifactStreams.ArtifactRoundTrip | apps/browser-extension/src/crypto/artifact-stream.ts:125-309 | what the browser seals, from any chunking, the browser opens to the source's bytes; the runtime opens it, to those bytes and no others, if and only if it has fewer than 2^32 frames |
| ArtifactStreams.WrappedCountRefused | apps/runtime-go/internal/crypto/artifact_stream.go:200-202 | a plaintext of 2^32 full frames passes the contract check and opens frame by frame, and the runtime opens it to nothing |
| CompleteExports.DecodeEncodedPrefix | apps/runtime-go/internal/completeexport/container.go:57-142 | decoding an encoded prefix returns its salt, nonce and bytes |
| CompleteExports.DecodedPrefixEncodes | apps/runtime-go/internal/completeexport/container.go:73-142 | accepted prefix bytes are the encoding of their salt and nonce |
| CompleteExports.PrefixReadsAs | apps/runtime-go/internal/completeexport/container.go:57-142 | the magic, the header length, and the seven header fields with their values as any canonical decoder reads them |
| CompleteExports.SealStream | apps/runtime-go/internal/completeexport/container.go:225-260 | the prefix followed by the frames of the slices under the derived key; fails only when no key is derived |
| CompleteExports.ExportFrame | apps/runtime-go/internal/completeexport/container.go:159-184 | for each position, exactly what is sealed: the derived key, the nonce, the slice, and the authenticated header, index, flag and lengths |
| CompleteExports.ExportNonces | apps/runtime-go/internal/completeexport/container.go:320-325 | nonces have 24 bytes: the first 16 of the base nonce, then the index as a 64-bit number |
| CompleteExports.ExportNoncesDistinctIff | apps/runtime-go/internal/completeexport/container.go:225-260 | no two frames of a sealed stream share a nonce if and only if there are at most 2^32 frames |
| CompleteExports.ExportAadInjective | apps/runtime-go/internal/completeexport/container.go:327-339 | equal AADs have equal header, index, flag and length |
| CompleteExports.SealFrameChecksHold | apps/runtime-go/internal/completeexport/container.go:159-184 | the length checks of `SealFrame` pass for every slice `SealStream` makes |
| CompleteExports.OpenFrameBytes | apps/runtime-go/internal/completeexport/container.go:186-223 | opens exactly the bytes of one well-formed frame with the expected index that the cipher accepts |
| CompleteExports.OpenStream | apps/runtime-go/internal/completeexport/container.go:262-308 | on any bytes, with every index in range, returns the plaintext the bytes stand for, the decoded prefix and the frame count modulo 2^32, or nothing |
| CompleteExports.OpenBodyIs | apps/runtime-go/internal/completeexport/container.go:278-307 | parsing and opening frame by frame is parsing first and opening afterwards |
| CompleteExports.OpenUndoesSealStream | apps/runtime-go/internal/completeexport/container.go:225-308 | opening a sealed stream returns the plaintext, for every plaintext |
| CompleteExports.AcceptedForm | apps/runtime-go/internal/completeexport/container.go:262-308 | every accepted stream is an encoded prefix and a body that opens under the key of its salt |
| CompleteExports.OpensIffExport | apps/runtime-go/internal/completeexport/container.go:262-308 | under the exact cipher law bytes open to a plaintext if and only if they are a prefix and a sealing of it, in some cut into frames, under the key of the prefix and its salt |
| CompleteExports.ResealStreamIff | apps/runtime-go/internal/completeexport/container.go:225-308 | under the exact cipher law an accepted stream re-seals to itself if and only if it does not end with an empty final frame after full ones |
| ArtifactEnvelopes.TakeBytes | apps/browser-extension/src/crypto/artifact-envelope.ts:102-112 | the queue loop takes exactly the first bytes and leaves exactly the rest |
| ArtifactEnvelopes.FixedChunks | apps/browser-extension/src/crypto/artifact-envelope.ts:93-127 | for every chunking of the source, the chunks are the slices of its bytes; none for an empty source |
| ArtifactEnvelopes.WriteArtifactEnvelope | apps/browser-extension/src/crypto/artifact-envelope.ts:129-200 | succeeds if and only if key, prefix and header fit and the length is a safe integer; the bytes are those of the whole plaintext, and the summary has their lengths and digests |
| ArtifactEnvelopes.EnvelopeFrame | apps/browser-extension/src/crypto/artifact-envelope.ts:129-200 | for each position, exactly what is sealed: the key, the nonce prefix and index, the slice, and the AAD |
| ArtifactEnvelopes.EnvelopeNoncesDistinct | apps/browser-extension/src/crypto/artifact-envelope.ts:64-69 | the nonce is the prefix and the index as a 64-bit number, and no two frames of an envelope share one |
| ArtifactEnvelopes.EnvelopeAadInjective | apps/browser-extension/src/crypto/artifact-envelope.ts:71-91 | equal AADs have equal object, epoch, nonce prefix, index, flag and length |
| ArtifactEnvelopes.ByteReader.Exact | apps/browser-extension/src/crypto/artifact-envelope.ts:229-247 | returns exactly the next bytes of whatever chunking, hashes them, and fails only when fewer are left |
| ArtifactEnvelopes.ReadArtifactEnvelope | apps/browser-extension/src/crypto/artifact-envelope.ts:255-339 | the result is a function of the concatenated envelope alone, and the summary has the lengths and digests of envelope and plaintext |
| ArtifactEnvelopes.ReadUndoesWrite | apps/browser-extension/src/crypto/artifact-envelope.ts:129-339 | a written envelope reads back as its plaintext |
| ArtifactEnvelopes.WriteThenRead | apps/browser-extension/src/crypto/artifact-envelope.ts:93-339 | cut the plaintext one way and the envelope another: the plaintext comes back and both summaries agree |
| ArtifactEnvelopes.ReadsIffEnvelope | apps/browser-extension/src/crypto/artifact-envelope.ts:255-339 | under the exact cipher law an envelope reads as a plaintext if and only if it is an envelope of it, for some nonce prefix and cut into frames |
| OpaqueEnvelopes.PrefixEncodedIff | apps/browser-extension/src/storage/opaque-envelope.ts:200-250 | the header size bound never refuses: encoding succeeds exactly on acceptable fields |
| OpaqueEnvelopes.DecodeEncoded | apps/browser-extension/src/storage/opaque-envelope.ts:174-333 | decoding an encoded envelope returns its fields and identity |
| OpaqueEnvelopes.EncodeDecoded | apps/browser-extension/src/storage/opaque-envelope.ts:252-333 | accepted bytes are exactly the encoding of the decoded fields |
| OpaqueEnvelopes.EnvelopeEncodedIff | apps/browser-extension/src/storage/opaque-envelope.ts:132-198 | which class, protection, payload and ceiling are encoded, in plain numbers: compact within the ceiling, streamable exactly for well-formed frames |
| OpaqueEnvelopes.PrefixReadsAs | apps/browser-extension/src/storage/opaque-envelope.ts:200-250 | the magic, the header length, and the six fields as any canonical decoder reads them |
| OpaqueEnvelopes.DecodedContents | apps/browser-extension/src/storage/opaque-envelope.ts:301-333 | accepted bytes are the prefix and the payload whose length and digest it names, and the identity is that of all of them |
| OpaqueEnvelopes.IdentitiesAlikeIff | apps/browser-extension/src/storage/opaque-envelope.ts:59-98 | where the hash has no collision between them, accepted envelopes have one Storage Item ID if and only if they are the same bytes |
| Transcripts.TranscriptInjective | apps/runtime-go/internal/canonical/transcript.go:12-41 | equal transcripts have equal labels and equal part lists |
| Transcripts.LabelsDiffer | apps/runtime-go/internal/canonical/transcript.go:12-41 | the ten labels in use are pairwise different, so transcripts of different purposes never coincide |
| Transcripts.Transcript | apps/runtime-go/internal/canonical/transcript.go:12-41 | the sized buffer is filled exactly to its end with the transcript, or the label, count or a length is refused |
| Transcripts.FrameAadsAgree | apps/browser-extension/src/crypto/artifact-stream.ts:89-123 | the browser's hand-built frame AAD is the runtime's nine-part transcript |
| Transcripts.SinglePrefixIsTranscript | apps/browser-extension/src/crypto/artifact-stream.ts:38-49 | label, zero byte, count one, length and content are the one-part transcript |
| Transcripts.IdentityHasher.Update | apps/browser-extension/src/storage/opaque-envelope.ts:75-82 | refuses after finalization and when the declared length is exceeded, which also makes every later call fail; otherwise feeds the bytes |
| Transcripts.IdentityHasher.Digest | apps/browser-extension/src/storage/opaque-envelope.ts:83-90 | the digest of the transcript of everything accepted, once, and only when exactly the declared bytes arrived |
| Transcripts.HashInPieces | apps/browser-extension/src/storage/opaque-envelope.ts:59-98 | for every chunking the digest is that of the whole envelope's transcript; nothing when the length is wrong, zero or unsafe |
| Cbor.EncodePrefixFree | apps/runtime-go/internal/canonical/value.go:51-85 | no canonical encoding is a proper beginning of another value's, so values in sequence are told apart |
| Cbor.DecodeEncode | apps/runtime-go/internal/canonical/value.go:65-85 | the only value whose encoding is a given byte string is the one that was encoded |
| Cbor.HeadReads | apps/runtime-go/internal/canonical/value.go:51-63 | the first bytes of an encoding give major type and argument back, in the shortest of the five forms |
| Cbor.MajorTypes | apps/runtime-go/internal/canonical/value.go:51-63 | each kind of value has the major type of section 3.1 of RFC 8949 |
| PopupControllers.Freshness | apps/browser-extension/src/ui/canonical-popup-controller.ts:56-84 | every rendered view shows answers to requests made after the newest invalidation or stop, for the vault the state selects |
| PopupControllers.NoLostUpdate | apps/browser-extension/src/ui/canonical-popup-controller.ts:34-84 | whenever the controller is active with no reconciliation recorded, the last view handed to `render` is of the newest generation, across stop, start, rejected fetches and throwing renders |
| PopupControllers.RunSafety | apps/browser-extension/src/ui/canonical-popup-controller.ts:34-84 | at most one reconcile body is suspended, nothing renders while inactive, and rendered generations strictly increase |
| PopupControllers.CompletionsConverge | apps/browser-extension/src/ui/canonical-popup-controller.ts:56-84 | with no further notification, a bounded number of completions brings an active controller to rest, the last view handed to `render` being of the newest generation and, when only answers out of one view are still to come, showing that view |
| PopupControllers.SixCompletionsSuffice | apps/browser-extension/src/ui/canonical-popup-controller.ts:56-84 | six completions bring every reachable active state to rest with the newest generation rendered last |
| PopupControllers.RefreshShowsAnswers | apps/browser-extension/src/ui/canonical-popup-controller.ts:51-84 | after a refresh of any reachable active state, six completions bring it to rest with the last view rendered exactly what the client answered, without lists when no vault is selected |
| PopupControllers.FailureRetried | apps/browser-extension/src/ui/canonical-popup-controller.ts:56-84 | a rejected fetch or a throwing render, in any reachable active state, is followed by a new generation and a new request for the state |
| PopupControllers.Lifecycle | apps/browser-extension/src/ui/canonical-popup-controller.ts:34-54 | what start, stop, refresh and a notification do to activity and generation, and that refused calls change nothing |
| PopupControllers.ReentryHarmlessIff | apps/browser-extension/src/ui/canonical-popup-controller.ts:56-84 | for every reachable state and every step that calls the client, calling back into `refresh` leaves at most one reconcile body if and only if the calling body was already recorded; then it is the step followed by an ordinary `refresh`, and otherwise there are two bodies |
| PopupControllers.ReentryBreaksSingleFlight | apps/browser-extension/src/ui/canonical-popup-controller.ts:34-65 | calling back from the first `state()` after `start` leaves two |
| PopupControllers.CanonicalPopupController.InvalidateView | apps/browser-extension/src/ui/canonical-popup-controller.ts:56-65 | a new generation, and a new reconciliation only when none is recorded |
| PopupControllers.CanonicalPopupController.OnState | apps/browser-extension/src/ui/canonical-popup-controller.ts:70-80 | a stale answer returns to the loop head; a fresh one renders, with the render logged, or asks for the lists |
| PopupControllers.CanonicalPopupController.OnFinally | apps/browser-extension/src/ui/canonical-popup-controller.ts:59-62 | clears the reconciliation and restarts when an active controller is behind |
| Transfers.TransferSafety | apps/runtime-go/internal/transfer/manager.go:69-238 | over every run with restarts, failing writes and a crash between the two stores, at most one stage per transfer commits, by a call whose secret has the hash of the secret its `Begin` generated; opening returns only the committed plaintext, with its length, digest and the vault it began for |
| Transfers.StagesIff | apps/runtime-go/internal/transfer/manager.go:144-186 | in every reachable state a stage passes its checks if and only if the transfer is pending and unstaged, the secret has the hash of the generated one, and the envelope opens under it |
| Transfers.OwnSecretStages | apps/runtime-go/internal/transfer/manager.go:144-186 | a pending transfer stages with its own secret and an envelope sealed under it when both writes succeed |
| Transfers.WrongSecretRefused | apps/runtime-go/internal/transfer/manager.go:169-171 | a stage with any other secret changes nothing in memory or in either store |
| Transfers.FailedWriteUndone | apps/runtime-go/internal/transfer/manager.go:99-186 | a failed state write leaves `Begin` and `Stage` undone: the same transfers, flags and secrets, and the same disk |
| Transfers.CorruptionDetected | apps/runtime-go/internal/transfer/manager.go:202-223 | whatever happened to the artifact files, bytes are returned only with the digest and length of the committed plaintext |
| Transfers.NoStrayArtifacts | apps/runtime-go/internal/transfer/manager.go:144-238 | without a crash inside `Stage` or a failing rollback delete, every artifact belongs to a transfer staged in memory and on disk, over every run |
| Transfers.StagedOpensExactly | apps/runtime-go/internal/transfer/manager.go:202-223 | a staged transfer opens to its committed plaintext or reports a missing artifact; the integrity check never fails |
| Transfers.RestartLoads | apps/runtime-go/internal/transfer/manager.go:69-97 | no run persists a list that a restart would refuse |
| Transfers.LoadsLast | apps/runtime-go/internal/transfer/manager.go:69-97 | a restart keeps a transfer if and only if the list holds it staged, and as the last entry that does |
| Transfers.TransferFate | apps/runtime-go/internal/transfer/manager.go:69-238 | after a committed stage and any further run: the exact plaintext while the transfer is kept; a staged entry without artifact exactly when a removal whose write failed was followed by a restart before the list was written again; otherwise no entry |
| Transfers.Durability | apps/runtime-go/internal/transfer/manager.go:69-238 | without a removal of it, a committed transfer stays staged and opens to its exact plaintext through every restart, crash and failed write |
| Transfers.FailedRemoveOrphans | apps/runtime-go/internal/transfer/manager.go:225-238 | a removal whose write fails, then a restart, leaves a staged entry without artifact |
| Transfers.OpenUndoesSeal | apps/runtime-go/internal/transfer/manager.go:122-142 | opening a sealed transfer envelope gives the plaintext |
| Transfers.OpensIffSealed | apps/runtime-go/internal/transfer/manager.go:268-287 | under the exact cipher law an envelope opens if and only if it is the magic, a nonce, and the plaintext sealed under the key and that nonce with the magic authenticated |
| Transfers.Manager.NewManager | apps/runtime-go/internal/transfer/manager.go:69-97 | refuses exactly when some persisted operation lacks an identifier or a secret hash, and keeps only staged ones |
| Transfers.Manager.Begin | apps/runtime-go/internal/transfer/manager.go:99-118 | a pending operation in memory and on disk, or neither when the write fails |
| Transfers.Manager.Stage | apps/runtime-go/internal/transfer/manager.go:144-186 | the checks in order; then artifact and state both written, or the rollback that deletes the artifact and clears the flag |
| Transfers.Manager.OpenStaged | apps/runtime-go/internal/transfer/manager.go:202-223 | the artifact and its summary when length and digest match |
| Transfers.Manager.Remove | apps/runtime-go/internal/transfer/manager.go:225-238 | artifact and entry gone, on disk when the write succeeds |
| Grants.GrantSafety | apps/runtime-go/internal/grants/grants.go:153-321 | over every run with failing writes and reloads, each grant issued presented a code with the hash of the code its pairing began with, names that pairing's client, followed its approval, stays within its scopes, and used neither pairing nor grant identifier before |
| Grants.RedeemsIff | apps/runtime-go/internal/grants/grants.go:247-273 | in every reachable state a redemption passes its checks if and only if the pairing is approved and unredeemed, the code has the hash of the generated one and the scopes are the pairing's |
| Grants.WrongCodeRefused | apps/runtime-go/internal/grants/grants.go:268-270 | a redemption with any other code changes nothing |
| Grants.PairingGrants | apps/runtime-go/internal/grants/grants.go:153-346 | from every reachable state: begin, approve and redeem with the generated code, and the token is accepted |
| Grants.OnlyPendingApproved | apps/runtime-go/internal/grants/grants.go:213-222 | a redeemed or unknown pairing cannot be approved |
| Grants.AuthorityStandsIff | apps/runtime-go/internal/grants/grants.go:305-346 | an accepted token stays accepted through a step if and only if the step neither revokes its grant nor reloads a revocation |
| Grants.TrimSpaceTrims | apps/runtime-go/internal/grants/grants.go:153-157 | trimming cuts white space off both ends and leaves none there |
| Grants.AuthorityTraces | apps/runtime-go/internal/grants/grants.go:323-346 | whatever a token is accepted for traces back to one such redemption |
| Grants.MemoryEqualsSnapshot | apps/runtime-go/internal/grants/grants.go:393-495 | memory equals the reloaded snapshot over every run without a failing repeat |
| Grants.StepInv | apps/runtime-go/internal/grants/grants.go:213-321 | every step keeps the invariant, and from a state in step with its snapshot it leaves step exactly when it is a failing repeat |
| Grants.RevocationStandsIff | apps/runtime-go/internal/grants/grants.go:305-321 | a revoked grant stays revoked through a step if and only if the step is not a failing repeat of its revocation |
| Grants.FailedRepeatRestoresGrant | apps/runtime-go/internal/grants/grants.go:305-321 | revoke, then fail to revoke again: the token is accepted again |
| Grants.LoadUndoesSave | apps/runtime-go/internal/grants/grants.go:424-495 | a saved snapshot loads back as the same memory |
| Grants.CollectScopes | apps/runtime-go/internal/grants/grants.go:348-369 | the set of trimmed scopes, each once, or nothing when the list is empty or one is not supported |
| Grants.Manager.BeginWithScopes | apps/runtime-go/internal/grants/grants.go:153-182 | a pairing with trimmed name and normalized scopes, in memory and on disk, or neither |
| Grants.Manager.ApprovePairing | apps/runtime-go/internal/grants/grants.go:213-231 | sets the flag and persists; a failing write clears it |
| Grants.Manager.RedeemWithScopes | apps/runtime-go/internal/grants/grants.go:247-303 | the checks in order; then grant and redeemed flag both written, or both rolled back |
| Grants.Manager.RevokeGrant | apps/runtime-go/internal/grants/grants.go:305-321 | sets the flag and persists; a failing write clears it |
| Grants.Manager.Authorize | apps/runtime-go/internal/grants/grants.go:323-346 | yes only for a grant that matches the token, is not revoked and has the scope; exactly so when one grant matches; each error only for its own reason |
| ExportEntries.HeaderRoundTrip | apps/runtime-go/internal/completeexport/entries.go:55-92 | bytes decode to a header if and only if they are its encoding |
| ExportEntries.HeaderReadsAs | apps/runtime-go/internal/completeexport/entries.go:55-63 | the four fields as any canonical decoder reads them, and the bounds on kind and metadata length in numbers |
| ExportEntries.EntryIdentityIsTranscript | apps/runtime-go/internal/completeexport/entries.go:138-153 | the hand-built identity is the digest of the one-part transcript under the kind's label |
| ExportEntries.SortEntriesByOpaqueID | apps/runtime-go/internal/completeexport/entries.go:155-162 | the array is rearranged in place so that no entry is below an earlier one, by kind and by identity among opaque entries, ties in any order; `OrderBlind` and `SequenceEntries` say that identities then increase as numbers |
| ExportEntries.SequenceEntries | apps/runtime-go/internal/completeexport/entries.go:94-136 | accepts exactly the lists with Manifest first, Key Inventory last, opaque entries between them with identities that strictly increase as numbers, and every body intact, and writes their bytes |
| ExportEntries.AcceptedEntries | apps/runtime-go/internal/completeexport/entries.go:94-136 | what acceptance promises of each entry: its kind by position, its length and digest, and for the two ends the identity under their own label |
| ExportEntries.OrderBlind | apps/runtime-go/internal/completeexport/entries.go:34-162 | for prepared entries with one Manifest, one Key Inventory and distinct opaque identities, in any input order and with any sort, the sorted list is the same and is accepted |
| ExportEntries.UniquelyDecodable | apps/runtime-go/internal/completeexport/entries.go:94-136 | two accepted lists with the same bytes are the same list |
| ExportEntries.PreparedIff | apps/runtime-go/internal/completeexport/entries.go:119-130 | an accepted body is a prepared entry if and only if, for an opaque one, the header carries the body's identity |
| ExportEntries.ForgedIdentityAccepted | apps/runtime-go/internal/completeexport/entries.go:122-127 | a list with an opaque header that names any other identity is accepted, and its entry is not a prepared one |
| FeatureSets.NormalForm | apps/runtime-go/internal/canonical/features.go:233-253 | two inputs have the same normal form if and only if they differ only in order; its identifiers increase as numbers, its keys ascend by encoding, and it is stable |
| FeatureSets.EncodedAlikeIff | apps/runtime-go/internal/canonical/features.go:31-51 | manifests have the same bytes if and only if they differ only in the order of their sets |
| FeatureSets.DecodeManifestExact | apps/runtime-go/internal/canonical/features.go:55-130 | decoding returns the sorted form of whatever was encoded, and accepted bytes are the encoding of what they decode to |
| FeatureSets.ValidateFeatureManifestInput | apps/runtime-go/internal/canonical/features.go:255-280 | accepts exactly scoped keys, safe revisions and fields without repeats |
| FeatureSets.ScopedKeyIff | apps/runtime-go/internal/canonical/value.go:157-181 | a scoped key is two runs of words with a dot between them, words of letters and digits with single separators, at most 128 bytes that begin with a letter |
| FeatureSets.ValidateScopedKey | apps/runtime-go/internal/canonical/value.go:157-181 | the byte loop and the search for nine separator pairs accept exactly the scoped keys |
| FeatureSets.ManifestReadsAs | apps/runtime-go/internal/canonical/features.go:31-51 | the five fields as any canonical decoder reads them |
| FeatureSets.ValidatedFeatureSet | apps/runtime-go/internal/canonical/features.go:282-312 | succeeds if and only if every input encodes, no key and no manifest repeats and all references hold; the result is sorted by content address, see `AcceptedSetIff` |
| FeatureSets.AcceptedSetIff | apps/runtime-go/internal/canonical/features.go:282-348 | a set is accepted if and only if its manifests have distinct keys and addresses, all required addresses and no excluded key; it is those manifests by addresses that increase as numbers |
| FeatureSets.IdentityAlikeIff | apps/runtime-go/internal/canonical/features.go:134-209 | where the hash has no collision among the bytes hashed, two sets have one identity if and only if they are the same set |
| FeatureSets.SetOrderBlind | apps/runtime-go/internal/canonical/features.go:143-207 | permuting the inputs and the set-valued fields of each changes neither bytes nor identity |
| FeatureSets.DecodeEncodedSet | apps/runtime-go/internal/canonical/features.go:143-217 | decoding an encoded set returns it sorted, and the identity from the bytes is that of the inputs |
| FeatureSets.EncodeDecodedSet | apps/runtime-go/internal/canonical/features.go:157-189 | accepted bytes are the encoding of what they decode to, in order of content address |
| FeatureSets.CheckReferences | apps/runtime-go/internal/canonical/features.go:334-348 | every required manifest is in the set and no excluded key is |
| ExportManifests.CanonicalSet | apps/runtime-go/internal/completeexport/contracts.go:433-457 | the values in order of their encodings, smaller bytes first, or nothing when one comes twice |
| ExportManifests.CanonicalIff | apps/runtime-go/internal/completeexport/contracts.go:459-467 | the byte comparison of `isCanonicalSet` accepts exactly the strictly ascending lists |
| ExportManifests.ValidateIdentifierSet | apps/runtime-go/internal/completeexport/contracts.go:469-480 | panics exactly on a repeat, rejects exactly the other lists that do not increase as numbers |
| ExportManifests.ValidateManifestInput | apps/runtime-go/internal/completeexport/contracts.go:250-290 | the verdict on zero identifiers, empty roots, order, ranges and repeated logical or storage identities |
| ExportManifests.ValidatesIff | apps/runtime-go/internal/completeexport/contracts.go:250-290 | which inputs validate, in plain terms: nonzero identifiers, nonempty sets, increasing frontier and continuity, the ranges, and no repeated logical or storage identity |
| ExportManifests.NewManifestOutcome | apps/runtime-go/internal/completeexport/contracts.go:62-71 | a manifest is made if and only if the input validates and no logical root repeats, and the call panics if and only if a repeated frontier or continuity identifier is reached |
| ExportManifests.RepeatedFrontierPanics | apps/runtime-go/internal/completeexport/contracts.go:421-431 | an input whose only fault is a frontier that repeats an identifier panics |
| ExportManifests.ManifestOrderBlind | apps/runtime-go/internal/completeexport/contracts.go:73-93 | permuting logical roots and inventory changes neither outcome, nor state digest, nor bytes |
| ExportManifests.ManifestsAlikeIff | apps/runtime-go/internal/completeexport/contracts.go:73-93 | manifests have the same bytes if and only if they differ only in the order of roots and inventory |
| ExportManifests.DigestsAlikeIff | apps/runtime-go/internal/completeexport/contracts.go:313-349 | where the hash has no collision between the two states, manifests have one state digest if and only if they differ only in the order of roots and inventory |
| ExportManifests.ManifestReadsAs | apps/runtime-go/internal/completeexport/contracts.go:73-93 | the nine fields as any canonical decoder reads them, roots and inventory in order |
| ExportManifests.MembersReadAs | apps/runtime-go/internal/completeexport/contracts.go:329-349 | the fields of a logical root and of an inventory item as it reads them |
| ExportManifests.DecodeEncodedManifest | apps/runtime-go/internal/completeexport/contracts.go:95-162 | decoding an encoded manifest returns it with roots and inventory sorted |
| ExportManifests.EncodeDecodedManifest | apps/runtime-go/internal/completeexport/contracts.go:95-162 | accepted bytes are the encoding of what they decode to, whose sets are in order |
| ExportManifests.DecodeNeverPanics | apps/runtime-go/internal/completeexport/contracts.go:405-431 | no bytes make decoding panic |
| ExportManifests.StatePermuted | apps/runtime-go/internal/completeexport/contracts.go:313-349 | the canonical sets that are digested do not depend on the order of roots and inventory |

## Left out

- Nil receivers of the causal graph: Go returns an error, or false, where Dafny has no nil object.
- `validateDependencies` and the event codec of `event.go`: the same set discipline as `validateIdentifierSet`, with nothing new to prove.
- The Key Inventory codec of `contracts.go`: the same `canonicalSet` construction as the Manifest, with nothing new to prove.
- CBOR library limits (1,000,000 elements, 128 levels), text map keys, tags, booleans, negative numbers and Unicode normal form: values here are the ones the fixed-shape headers use.
- The Go opaque envelope codec: only its payload walk is modelled, since its field count skips text keys; `ExportEntries` takes which bytes it accepts as a parameter.
- The artifact envelope's header record: `ArtifactEnvelopes.HeaderLaw` says it is accepted back to its nonce prefix and that nothing else is accepted; `PlainHeaderLaw` shows the law can be met.
- ArtifactStreams.OpenArtifactPayload: starts at the decoded payload; the checks on key length, local bounds and storage class before it are not modelled.
- ArtifactStreams.SealArtifactPayload: ends at the payload; the Go envelope around it is not modelled.
- Key derivation: Argon2 is a function of the salt, with no key for a passphrase over the bound; HKDF-Expand under the epoch's key is a function of the info string, which is modelled.
- Base64, hex, JSON and UUID forms of secrets, digests and identifiers: values stand for them.
- Abort signals, write callbacks that throw, and JavaScript numbers that are not integers.
- Memory exhaustion: lengths of Go slices are bounded by a machine word, and an encoding longer than that counts as a failure.
- PopupControllers.RunSafety: assumes that the first client call of a new reconciliation does not synchronously call back; `ReentryHarmlessIff` shows that this is exactly what is needed. A listener called inside `subscribe` is a `Start` followed by a `Notify`.
- A grant manager without a state store is a run whose writes always succeed; `Pending`, `List`, `Begin` and `Redeem` only list or forward.
- Iteration order of Go maps: `Transfers.Lists` and `Grants.Manager.Authorize` allow every order.
- Locking inside the managers: each call is one step, except `OpenStaged`, whose lookup and read are two.
- The Rails coordination server, the React popup, capture, HTTP routing, HPKE and key wrapping, and the vault's authority replay.
