# A Quo: persona continuity, approval and consent

A Quo lets a person sign under a *persona* whose keys may rotate. This project models the
parts of it that decide what is trusted, in Dafny 4.11, and proves what they promise.

* **Continuity** (`Statements`, `Continuity`, `Ceremony`). A persona root and a hash-linked
  list of dual-signed key transitions; the loop that verifies a whole history, the fast path
  that extends a verified one, checkpoints, and the ceremonies that build honest proofs.
* **Approval pipe** (`ApprovalPrompts`, `ApprovalWire`, `ApprovalPayloads`, `ApprovalCodec`,
  `ApprovalStream`). The closed binary protocol between the daemon and the consent process:
  five prompt layouts, three decisions, and the stream reader.
* **Consent window** (`Consent`, `ConsentRuns`, `Lines`). The state machine behind the
  window, over every run of events, and the line breaker.
* **Rule books** (`Keys`, `Domains`, `Review`). Core's statement review against the approval
  protocol's own validation.
* **Reference statements** (`ApprovalDocument`, `Meaning`, `ConsentSurface`). What messages,
  keys, statements, proofs, prompts and window events mean, written out over bytes, characters,
  digests and single fields, and proved both ways against the models above.
* **Counterexamples** (`Counterexamples`). Concrete inputs for the two findings below.
* **Arithmetic and budgets** (`Rsa`, `Challenge`, `Work`, `Budget`).
* **Foundations** (`Wrappers`, `Bytes`, `Utf8`, `Base64`, `Hex`, `Text`), concrete and proved.

`dafny verify dfyconfig.toml` checks the whole project.

## How the source is read

* A Rust `String` is a Dafny `string`: both are sequences of Unicode scalar values. Byte
  lengths are lengths of the UTF-8 encoding. Digests, UUIDs and payloads are byte sequences.
* SHA-256, SSHSIG verification, RFC 8785 serialisation and its parser, serde's domain JSON,
  strict IDNA and IP-literal recognition are function-valued parameters; every theorem holds
  for all of them. Collision freedom is never assumed: where it would be needed the
  conclusion offers a collision between two named payloads instead. That parsing undoes
  serialising is assumed only to show that honest proofs are accepted, and only of the
  statement at hand or, over a whole history, of valid transition statements
  (`Statements.Faithful`), whose times lie in RFC 8785's exact integer range. That IDNA leaves
  its own output alone (`Domains.IdnaStable`) is assumed only for idempotence.
* Private-key operations are the signature texts the signer returned, or its error.
* Clocks, window geometry, the pointer position, file contents and pipe behaviour arrive as
  parameters of each event or call.
* Error values keep the source's error kind, without the message text. Reports keep their
  fields without the constant evidence labels and `not_established` lists.
* `usize` is 64 bits. Saturating, checked and truncating arithmetic is written out.

## Findings

* `crates/a-quo-approval/src/lib.rs:1272-1277`: `read_one_message` repeats interrupted reads
  while it fills header and payload, but not the last read that looks for end of file. The
  message of any valid prompt, followed by one interruption, is refused
  (`Counterexamples.InterruptedEnd`). The stream reader agrees with the buffer decoder exactly
  when the source neither breaks nor ends in an interruption (`ApprovalStream.ReadPrompt`).
* `crates/a-quo-core/src/continuity.rs:356-376` and `611-662`: creating a root or a routine
  transition proof does not bound the signature text that verification bounds
  (`continuity.rs:1215-1219`). A signer returning 65537 bytes gets a proof that does not verify
  (`Counterexamples.OversizedSignature`, `Counterexamples.OversizedRootSignature`). A created
  proof is accepted exactly when its signature texts are 1 to 65536 bytes
  (`Ceremony.CreatedProofVerifies`, `Ceremony.HonestRoot`). Whether OpenSSH ever returns such
  a text is outside the model.

## Model

| member | source | states |
|---|---|---|
| `ApprovalPrompts.ValidatePrompt` | crates/a-quo-approval/src/lib.rs:1349-1412 | The ordered checks succeed exactly on the prompts both ends must accept: real ids, local persona data present exactly for non-recovery prompts, displayable label, canonical fingerprint, valid subject, nonzero PID |
| `ApprovalPrompts.ValidateDomainApproval` | crates/a-quo-approval/src/lib.rs:1644-1706 | Succeeds exactly for a displayable global DNS name, a canonical TXT commitment and a window of at most 30 days from a nonnegative issue time; the i64 subtraction never changes the answer |
| `ApprovalPrompts.ValidatePersonaTransitionApproval` | crates/a-quo-approval/src/lib.rs:1483-1534 | Succeeds exactly when sequence and previous digest agree, the previous key is the selected key and the two canonical keys differ |
| `ApprovalPrompts.ValidateRecoveryApproval` | crates/a-quo-approval/src/lib.rs:1536-1625 | Succeeds exactly when version, threshold, head, ceremony and the key relations of the participant role hold |
| `ApprovalPrompts.ValidBounds` | crates/a-quo-approval/src/lib.rs:1349-1534 | A valid prompt bounds every text it carries, and the values a message stores only once are equal in it |
| `Meaning.PromptMeans` | crates/a-quo-approval/src/lib.rs:1349-1625 | A prompt is valid exactly when, over characters, digests and numbers: identifiers are not all zero, texts can be shown, keys and anchors spell 32-byte values, names are global, times, versions and thresholds lie in range and the keys relate as the role demands |
| `Utf8.EncodeDecode` | crates/a-quo-approval/src/lib.rs:1755-1762 | Strict UTF-8 decoding accepts only the one encoding of its result |
| `Base64.EncodeDecode` | crates/a-quo-approval/src/lib.rs:1466-1481 | The strict unpadded decoder of RFC 4648 accepts only canonical text |
| `Base64.Canonical32` | crates/a-quo-approval/src/lib.rs:1466-1481 | The anchor rule holds exactly for the encodings of 32-byte values, that is for every text that decodes to 32 bytes: the re-encoding test refuses nothing. Such a text has 43 alphabet symbols |
| `Text.SplitInverse` | crates/a-quo-approval/src/lib.rs:1646 | Joining the labels of a split name gives the name back, and no label holds the separator |
| `ApprovalWire.EncodeHeader` | crates/a-quo-approval/src/lib.rs:1296-1305 | Any continuation of the header to the declared length is framed by magic, version, type, zero flags and that length |
| `ApprovalWire.HeaderExact` | crates/a-quo-approval/src/lib.rs:1307-1347 | The header check accepts exactly the framed messages within the limit and returns exactly their payload |
| `ApprovalWire.FramedUnique` | crates/a-quo-approval/src/lib.rs:1296-1347 | A type and a payload have one framed message |
| `ApprovalWire.TextBlockExact` | crates/a-quo-approval/src/lib.rs:860-879 | A table of u16 lengths and the texts behind the prefix are read back exactly when lengths and bytes agree to the last byte |
| `ApprovalWire.ExtendLengths` | crates/a-quo-approval/src/lib.rs:639-641 | The length table written is the one the layout asks for, at its offset, whatever is appended later |
| `ApprovalWire.ExtendTexts` | crates/a-quo-approval/src/lib.rs:644-647 | The texts stand back to back and end the message |
| `ApprovalPayloads.WriteArtifact` | crates/a-quo-approval/src/lib.rs:616-648 | The artifact encoder puts every field at its documented offset, reserved bytes zero, with nothing after the texts |
| `ApprovalPayloads.ArtifactSound` | crates/a-quo-approval/src/lib.rs:834-892 | What the artifact decoder reads stands in the payload at the documented offsets |
| `ApprovalPayloads.ArtifactComplete` | crates/a-quo-approval/src/lib.rs:834-892 | Every payload laid out as documented is read back to the same fields |
| `ApprovalPayloads.ArtifactUnique` | crates/a-quo-approval/src/lib.rs:616-648 | The fields determine every byte of the artifact payload |
| `ApprovalPayloads.WriteDomain` | crates/a-quo-approval/src/lib.rs:650-685 | The domain encoder puts every field at its documented offset, reserved bytes zero, with nothing after the texts |
| `ApprovalPayloads.DomainSound` | crates/a-quo-approval/src/lib.rs:894-954 | What the domain decoder reads stands in the payload at the documented offsets |
| `ApprovalPayloads.DomainComplete` | crates/a-quo-approval/src/lib.rs:894-954 | Every payload laid out as documented is read back to the same fields |
| `ApprovalPayloads.DomainUnique` | crates/a-quo-approval/src/lib.rs:650-685 | The fields determine every byte of the domain payload |
| `ApprovalPayloads.WriteRoot` | crates/a-quo-approval/src/lib.rs:687-721 | The root encoder puts every field at its documented offset, reserved bytes zero, with nothing after the texts |
| `ApprovalPayloads.RootSound` | crates/a-quo-approval/src/lib.rs:956-1012 | What the root decoder reads stands in the payload at the documented offsets |
| `ApprovalPayloads.RootComplete` | crates/a-quo-approval/src/lib.rs:956-1012 | Every payload laid out as documented is read back to the same fields |
| `ApprovalPayloads.RootUnique` | crates/a-quo-approval/src/lib.rs:687-721 | The fields determine every byte of the root payload |
| `ApprovalPayloads.WriteTransition` | crates/a-quo-approval/src/lib.rs:723-765 | The transition encoder puts every field at its documented offset, reserved bytes zero, with nothing after the texts |
| `ApprovalPayloads.TransitionSound` | crates/a-quo-approval/src/lib.rs:1014-1094 | What the transition decoder reads stands in the payload at the documented offsets |
| `ApprovalPayloads.TransitionComplete` | crates/a-quo-approval/src/lib.rs:1014-1094 | Every payload laid out as documented is read back to the same fields |
| `ApprovalPayloads.TransitionUnique` | crates/a-quo-approval/src/lib.rs:723-765 | The fields determine every byte of the transition payload |
| `ApprovalPayloads.WriteRecovery` | crates/a-quo-approval/src/lib.rs:767-821 | The recovery encoder puts every field at its documented offset, reserved bytes zero, with nothing after the texts |
| `ApprovalPayloads.RecoverySound` | crates/a-quo-approval/src/lib.rs:1096-1196 | What the recovery decoder reads stands in the payload at the documented offsets |
| `ApprovalPayloads.RecoveryComplete` | crates/a-quo-approval/src/lib.rs:1096-1196 | Every payload laid out as documented is read back to the same fields |
| `ApprovalPayloads.RecoveryUnique` | crates/a-quo-approval/src/lib.rs:767-821 | The fields determine every byte of the recovery payload |
| `ApprovalCodec.FinishSound` | crates/a-quo-approval/src/lib.rs:874-892 | Decoded texts and validated constructors give a valid prompt with exactly these payload fields |
| `ApprovalCodec.FinishComplete` | crates/a-quo-approval/src/lib.rs:517-537 | The fields of a valid prompt are rebuilt into that prompt, the fingerprint stored once included |
| `ApprovalCodec.PayloadLimit` | crates/a-quo-approval/src/lib.rs:50-75 | A valid prompt never exceeds the payload limit of its type and every text length fits its u16 |
| `ApprovalCodec.WriteMessage` | crates/a-quo-approval/src/lib.rs:601-821 | The written message carries the prompt: header with the length computed beforehand, then the layout |
| `ApprovalCodec.DecodeSound` | crates/a-quo-approval/src/lib.rs:823-832 | An accepted message carries its result field by field, and the result is valid |
| `ApprovalCodec.DecodeComplete` | crates/a-quo-approval/src/lib.rs:823-832 | A message that carries a valid prompt is accepted, decodes to it and is within the limit |
| `ApprovalCodec.DecodeExact` | crates/a-quo-approval/src/lib.rs:823-1196 | A message decodes to a prompt if and only if the prompt is valid and the message carries it |
| `ApprovalDocument.DecodeMeans` | docs/APPROVAL-PROTOCOL.md:13-201 | A message decodes to a prompt if and only if the prompt is valid and each of its own fields and texts stands at its documented offset, with the documented magic, version, type, codes, lengths and zero bytes and nothing else, for all five layouts |
| `ApprovalDocument.TransitionShows` | crates/a-quo-approval/src/lib.rs:723-765 | The transition case: root digest at payload offset 60, previous at 92, transition at 124, the four texts in order from 168 |
| `ApprovalDocument.RecoveryShows` | crates/a-quo-approval/src/lib.rs:767-821 | The recovery case: request, root, policy and head digests and the six texts, each at its offset |
| `ApprovalDocument.DecisionMeans` | crates/a-quo-approval/src/lib.rs:1198-1226 | A decision message is exactly 36 bytes: header of type 2 for approve, 3 for decline, 4 for cancel, then the request identifier |
| `ApprovalDocument.CommonHeaderMeans` | crates/a-quo-approval/src/lib.rs:1307-1347 | A header is accepted exactly with this magic, version 1.0 and no flags, and its type is the one written |
| `Bytes.NetworkOrder` | crates/a-quo-approval/src/lib.rs:1296-1305 | Two- and four-byte integers are written most significant byte first |
| `ApprovalCodec.CarriesUnique` | crates/a-quo-approval/src/lib.rs:601-821 | A prompt has at most one message |
| `ApprovalCodec.EncodePrompt` | crates/a-quo-approval/src/lib.rs:601-614 | Succeeds exactly on valid prompts with the validation error otherwise; the message is the one byte string that decodes to the prompt |
| `ApprovalCodec.DecodeInjective` | crates/a-quo-approval/src/lib.rs:823-1196 | Two accepted messages with one meaning are equal |
| `ApprovalCodec.Recode` | crates/a-quo-approval/src/lib.rs:601-832 | Decoding and encoding again gives back exactly the accepted bytes, and the decoding error otherwise |
| `ApprovalCodec.EncodeDecision` | crates/a-quo-approval/src/lib.rs:1198-1207 | A decision has exactly one message and it is the 36-byte message written |
| `ApprovalCodec.DecisionSound` | crates/a-quo-approval/src/lib.rs:1209-1226 | An accepted decision message is framed by the type of the decision and the 16 id bytes |
| `ApprovalCodec.DecisionComplete` | crates/a-quo-approval/src/lib.rs:1209-1226 | Every such message decodes to that decision |
| `ApprovalStream.Source.ReadExact` | crates/a-quo-approval/src/lib.rs:1258-1271 | Short and interrupted reads are repeated: success takes exactly n bytes, early end of file means fewer were there, other failures mean the source broke |
| `ApprovalStream.ReadBody` | crates/a-quo-approval/src/lib.rs:1266-1277 | Succeeds exactly when the declared bytes and nothing else remain and the source neither breaks nor ends in an interruption |
| `ApprovalStream.ReadOneMessage` | crates/a-quo-approval/src/lib.rs:1253-1278 | On a source that never breaks, every refusal is that of parsing the whole byte string, and success needs in addition that the source does not end interrupted; an interruption at the last read gives a read error where there was the end of file or trailing bytes. A payload declared above the limit is refused after exactly the 20 header bytes, however the pieces and interruptions fall, and never more than limit plus 21 bytes are taken |
| `ApprovalStream.ReadPrompt` | crates/a-quo-approval/src/lib.rs:1228-1230 | Returns a prompt exactly when decoding all delivered bytes returns it and the source neither breaks nor ends interrupted; without a break, every error is that of the bytes or of the interrupted last read, and an oversized declaration is refused after 20 bytes |
| `ApprovalStream.ReadDecision` | crates/a-quo-approval/src/lib.rs:1239-1241 | The same for decisions, with their limit of 16 payload bytes |
| `Counterexamples.InterruptedEnd` | crates/a-quo-approval/src/lib.rs:1272-1277 | For every valid prompt, its message read whole gives the prompt, and the same message followed by one interruption gives a read error |
| `Counterexamples.SamplePromptIsValid` | crates/a-quo-approval/src/lib.rs:1349-1412 | A concrete artifact prompt that passes all validation, so such a message exists |
| `ApprovalStream.ParseIsFraming` | crates/a-quo-approval/src/lib.rs:1253-1278 | The reader accepts exactly the framed messages within its limit, of any type |
| `ApprovalStream.ParseCases` | crates/a-quo-approval/src/lib.rs:1253-1278 | Which refusal a byte string meets, by its length and the length its header declares |
| `Keys.NormalizeIdempotent` | crates/a-quo-core/src/lib.rs:997-1034 | Normalising a key text twice is normalising it once and keeps its blob, within the 16384-byte limit |
| `Keys.FingerprintIsCanonical` | crates/a-quo-core/src/lib.rs:832-846 | A computed fingerprint always passes the fingerprint rule |
| `Meaning.KeyMeans` | crates/a-quo-core/src/lib.rs:997-1034 | A key text is normalised exactly when it is white space, an algorithm, white space, the padded Base64 of a blob that starts with that name, and then nothing or white space; the normal form is the two words |
| `Meaning.FingerprintIsOfBlob` | crates/a-quo-core/src/lib.rs:832-846 | The fingerprint is the digest of the decoded blob, whatever surrounds it |
| `Base64.DecodePaddedEncode` | crates/a-quo-core/src/lib.rs:1011-1013 | Padded Base64 round trip for every length, with none, one or two padding symbols |
| `Base64.EncodePaddedDecode` | crates/a-quo-core/src/lib.rs:1011-1013 | Only canonical padding and canonical trailing bits are accepted |
| `Hex.Sha256Spelling` | crates/a-quo-daemon/src/service.rs:1064-1085 | The 64 lowercase digits statements demand are exactly what the daemon can decode, and decoding loses nothing |
| `Hex.EncodeAt` | crates/a-quo-core/src/continuity.rs:1255-1257 | Two lowercase digits per byte, the high half first |
| `Statements.PayloadText` | crates/a-quo-core/src/continuity.rs:1176-1185 | Every payload within 64 KiB has a text that decodes to it within the proof limit |
| `Statements.PayloadExact` | crates/a-quo-core/src/continuity.rs:1176-1185 | A text is accepted as a payload exactly when it is the encoding of those bytes within the limit; the re-encoding test refuses nothing the strict decoder accepts |
| `Statements.PickRoles` | crates/a-quo-core/src/continuity.rs:737-758 | The scan over two signatures finds the previous and the next one in either order and fails otherwise |
| `Statements.TransitionEvidence` | crates/a-quo-core/src/continuity.rs:673-782 | An accepted transition proof holds the one canonical text of its canonical statement, its digest, and signatures over those bytes by the two different keys the statement names |
| `Statements.RootEvidence` | crates/a-quo-core/src/continuity.rs:378-430 | The same for a root proof and its single key |
| `Statements.SignatureOrder` | crates/a-quo-core/src/continuity.rs:716-782 | Swapping the two signatures never changes the outcome |
| `Meaning.RootStatementMeans` | crates/a-quo-core/src/continuity.rs:1041-1064 | A root statement is valid exactly with this schema and canonicalisation, a 32-byte anchor, a persona that can be shown, version 1, a time below 2^53 and a key fingerprint |
| `Meaning.TransitionStatementMeans` | crates/a-quo-core/src/continuity.rs:1066-1118 | A transition statement is valid exactly with all of that, a root digest, a previous digest exactly from sequence 2 on, and two different keys |
| `Meaning.RootProofMeans` | crates/a-quo-core/src/continuity.rs:378-430 | A root proof verifies to a statement if and only if it is that valid statement's canonical document with one documented signature by its key over its bytes |
| `Meaning.TransitionProofMeans` | crates/a-quo-core/src/continuity.rs:665-789 | A transition proof verifies to a statement if and only if it is that statement's canonical document with one documented signature by the previous and one by the next key, in either order |
| `Continuity.HeadCheckIsLink` | crates/a-quo-core/src/continuity.rs:931-970 | The head check succeeds exactly when the transition continues the history before it |
| `Continuity.VerifyChain` | crates/a-quo-core/src/continuity.rs:808-881 | The loop accepts exactly the pinned, linked histories of at most 4096 valid proofs, reports their tip, and otherwise fails with the error of the first check or first transition that does not hold |
| `Continuity.PrefixAccepted` | crates/a-quo-core/src/continuity.rs:808-881 | Every prefix of an accepted history is accepted, with the corresponding prefix of verified transitions |
| `Continuity.ExtensionRefines` | crates/a-quo-core/src/continuity.rs:885-970 | The one-step fast path succeeds exactly when full verification of the longer list does, and gives the same chain, capacity edge included |
| `Continuity.TimesNeverDecrease` | crates/a-quo-core/src/continuity.rs:964-968 | Issue times never decrease between any two positions, the root included |
| `Continuity.Custody` | crates/a-quo-core/src/continuity.rs:829-970 | At every position of an accepted chain: the sequence, the root's persona, anchor and digest, the digest of the exact statement before, the previous key equal to the root's key at first and to the next key before it later on, a different next key, both signatures, and no earlier statement younger |
| `Continuity.CustodySuffices` | crates/a-quo-core/src/continuity.rs:808-970 | Conversely a pinned root and at most 4096 verified transitions that pass the persona on like this are accepted |
| `Continuity.ReportExact` | crates/a-quo-core/src/continuity.rs:808-881 | Every field of the report of an accepted history, from the root and the last statement; no checkpoint is claimed |
| `Continuity.VerifyChainAtCheckpoint` | crates/a-quo-core/src/continuity.rs:975-998 | Succeeds exactly for an accepted history whose tip is the checkpoint |
| `Continuity.CheckpointExact` | crates/a-quo-core/src/continuity.rs:1000-1039 | Of an accepted history exactly its own tip, sequence and digest, passes as a checkpoint |
| `Continuity.AgreeBackward` | crates/a-quo-core/src/continuity.rs:931-970 | Two accepted histories with one digest at one position agree on every statement before it, or exhibit a SHA-256 collision |
| `Continuity.CheckpointPinsHistory` | crates/a-quo-core/src/continuity.rs:975-1039 | Two proof lists accepted for one root digest and one head checkpoint state the same history, or two different signed payloads, one of each, share a digest |
| `Continuity.CheckpointSelectsTip` | crates/a-quo-core/src/continuity.rs:1002-1039 | A history meets its own tip as checkpoint and none of its proper prefixes, all of them accepted, does |
| `Ceremony.NewRootExact` | crates/a-quo-core/src/continuity.rs:246-267 | Only anchor, persona, time and key decide whether a root statement is built; what is built holds exactly them, version 1 and the key's fingerprint |
| `Ceremony.NewRoutineExact` | crates/a-quo-core/src/continuity.rs:435-475 | A routine statement is built exactly when it is valid, not older than the root and, at sequence 1, starts from the root's key; it holds exactly the inputs |
| `Ceremony.HonestRoot` | crates/a-quo-core/src/continuity.rs:356-430 | A created root whose statement survives the serialiser, pinned by its digest, is an accepted history of its own statement exactly when the signature text is 1 to 65536 bytes |
| `Ceremony.CreatedProofVerifies` | crates/a-quo-core/src/continuity.rs:611-705 | A created transition proof whose statement survives the serialiser verifies to that statement exactly when both signature texts are 1 to 65536 bytes, which creation does not check |
| `Ceremony.NextStatementExists` | crates/a-quo-core/src/continuity.rs:435-473 | Behind any accepted tip below capacity, the tip key, a different key and a time in range always give a statement |
| `Ceremony.HonestExtension` | crates/a-quo-core/src/continuity.rs:435-918 | That statement, once signed, extends the history to itself exactly when the signature texts fit |
| `Counterexamples.OversizedSignature` | crates/a-quo-core/src/continuity.rs:611-662 | A concrete transition: created with a 65537-byte signature text it does not verify, created with a one-byte text it verifies to its statement |
| `Counterexamples.OversizedRootSignature` | crates/a-quo-core/src/continuity.rs:356-376 | The same for a created root and its acceptance as a history |
| `Domains.CanonicalizeStable` | crates/a-quo-core/src/domain.rs:64-126 | Canonicalisation is idempotent when strict IDNA leaves its own output alone, so a constructed name passes its own validation |
| `Domains.TimeWindow` | crates/a-quo-core/src/domain.rs:384-398 | The validity window with saturating skew is plain integer arithmetic for every clock value |
| `Domains.LabelAgrees` | crates/a-quo-core/src/domain.rs:107-115 | Core's rule over the bytes of a label and the approval protocol's rule over its characters accept the same labels |
| `Domains.NameAgrees` | crates/a-quo-core/src/domain.rs:101-124 | Core's label count, label rule and special-use list accept exactly the names the approval protocol accepts |
| `Meaning.CanonicalizeMeans` | crates/a-quo-core/src/domain.rs:64-126 | A spelling has this canonical name exactly when it is plain text without URL characters or wildcard, strict IDNA converts it without its root dot to this lowercase name, and the name is global, at most 253 bytes and no address |
| `Meaning.DomainStatementMeans` | crates/a-quo-core/src/domain.rs:328-382 | A domain statement is valid exactly with this schema, a canonical name, a 32-byte nonce, a window of at most 30 days, a persona that can be shown and a key fingerprint |
| `Review.AnchorAgrees` | crates/a-quo-approval/src/lib.rs:1466-1481 | Core and approval accept the same anchors |
| `Review.FingerprintAgrees` | crates/a-quo-core/src/lib.rs:961-978 | Core and approval accept the same fingerprints |
| `Review.CommitmentAgrees` | crates/a-quo-core/src/domain.rs:400-408 | Every DNS commitment core derives passes the approval rule for TXT values |
| `Review.RootDisplayable` | crates/a-quo-core/src/continuity.rs:286-319 | A reviewed root gives a prompt the approval protocol accepts exactly for non-nil ids and a nonzero PID, showing the statement's persona, key, anchor and time and the digest of the reviewed bytes |
| `Review.TransitionDisplayable` | crates/a-quo-core/src/continuity.rs:498-561 | The same for transitions: the prompt shows the statement field by field, keys in order, with the root, previous and statement digests unchanged |
| `Review.DomainDisplayable` | crates/a-quo-core/src/domain.rs:222-252 | The same for domain statements: domain, validity window, key and the TXT commitment to the reviewed bytes |
| `Review.RootReviewExact` | crates/a-quo-core/src/continuity.rs:286-319 | A root passes review exactly when it is valid and bounded, issued within 300 seconds of a review time in range, and names the selected persona and key; the review holds its fields and digest |
| `Review.TransitionReviewExact` | crates/a-quo-core/src/continuity.rs:498-561 | A transition passes review exactly when it is valid and bounded, as fresh, and stands behind the expected head of the expected root between the two selected keys |
| `Review.DomainReviewExact` | crates/a-quo-core/src/domain.rs:222-252 | A domain statement passes review exactly when it is valid, its window holds a nonnegative review time with 300 seconds of skew, and it names the selected persona and key; the review names the record and the commitment to the statement's bytes under its context |
| `Consent.Interaction.FocusNextForSubject` | crates/a-quo-consent/src/ui.rs:504-518 | The focus tables of both kinds of prompt |
| `Consent.Interaction.ActivateForSubject` | crates/a-quo-consent/src/ui.rs:520-619 | New state and decision of activating a control, for both kinds of prompt |
| `Consent.ConsentApplication.FinishWith` | crates/a-quo-consent/src/ui.rs:139-144 | The first decision stands and none is taken after a failure |
| `Consent.ConsentApplication.ActivateControlNow` | crates/a-quo-consent/src/ui.rs:157-171 | Past 90 seconds an activation only cancels; before, the control decides |
| `Consent.ConsentApplication.WindowEvent` | crates/a-quo-consent/src/ui.rs:228-346 | The new state for every window event |
| `Consent.ConsentApplication.Handle` | crates/a-quo-consent/src/ui.rs:197-365 | The new state for every event of the application; the page invariant is kept and a decision once taken stays |
| `ConsentRuns.Drive` | crates/a-quo-consent/src/ui.rs:80-92 | An application driven through any events returns what the run specification says |
| `ConsentRuns.RunSound` | crates/a-quo-consent/src/ui.rs:274-312 | After every run: no confirmation on the first recovery page, focus and pending press name only controls of the page on show, focus on Approve implies confirmation |
| `ConsentRuns.ActivationsStayOnPage` | crates/a-quo-consent/src/ui.rs:937-972 | No activation ever reaches a control of the page not on show |
| `ConsentRuns.RunMirrors` | crates/a-quo-consent/src/ui.rs:492-619 | The stored confirmation is the parity of Confirm activations since the last clearing or page change, and the second page shows exactly when Next was activated since the last clearing or Back |
| `ConsentRuns.DecisionStays` | crates/a-quo-consent/src/ui.rs:139-149 | A decision and a failure, once there, stay through every later event |
| `ConsentRuns.ApprovalStep` | crates/a-quo-consent/src/ui.rs:157-171 | One event turns an undecided window to approval exactly under the full consent condition |
| `ConsentRuns.ApprovalNeedsConsent` | crates/a-quo-consent/src/ui.rs:80-171 | Approve is returned exactly when no failure was met and Approve was activated in time, undecided, on a ready surface, after an odd number of confirmations and, for recovery, on the second page |
| `ConsentRuns.DeadlineCancels` | crates/a-quo-consent/src/ui.rs:348-360 | At the deadline the next wait cancels an undecided window |
| `ConsentRuns.TabInverse` | crates/a-quo-consent/src/ui.rs:504-576 | Tab and Shift-Tab undo each other |
| `ConsentRuns.TabReaches` | crates/a-quo-consent/src/ui.rs:504-576 | Tabbing either way reaches every control that can take the focus within three steps |
| `ConsentRuns.OtherDecisions` | crates/a-quo-consent/src/ui.rs:157-355 | From any undecided, unfailed window, Decline is given exactly for the Cancel control before the deadline, on a complete surface or not, and Cancel exactly for closing, Escape, waiting past the deadline or pressing any control past it |
| `ConsentSurface.ApprovalSeesEvidence` | crates/a-quo-consent/src/ui.rs:157-171 | Approve is only ever returned from a key press or mouse release on an open window, within 90 seconds, and for transition and recovery prompts with the evidence fitting the surface |
| `ConsentSurface.UnfitClears` | crates/a-quo-consent/src/ui.rs:432-456 | For transition and recovery prompts, Tab, Enter, redraw and resize without room take the window back to its start |
| `ConsentSurface.RoomIrrelevant` | crates/a-quo-consent/src/ui.rs:432-440 | For the other prompts the size of the surface never matters |
| `ConsentSurface.RecoveryCanBeApproved` | crates/a-quo-consent/src/ui.rs:584-619 | The keyboard run that turns the page, confirms and approves a recovery prompt does return Approve |
| `ConsentSurface.OthersCanBeApproved` | crates/a-quo-consent/src/ui.rs:520-537 | The keyboard run that confirms and approves any other prompt does return Approve |
| `ConsentSurface.StepWindow` | crates/a-quo-consent/src/ui.rs:198-365 | Only a resume with window and surface opens the window and only the end closes it |
| `ConsentSurface.StepShift` | crates/a-quo-consent/src/ui.rs:243-248 | The shift key is as last reported, and let go when the focus is lost |
| `ConsentSurface.StepPointer` | crates/a-quo-consent/src/ui.rs:249-273 | The pointer is inside from its last move until it leaves |
| `ConsentSurface.StepFailure` | crates/a-quo-consent/src/ui.rs:198-343 | Exactly which events fail the window |
| `ConsentSurface.FailedDecidesNothing` | crates/a-quo-consent/src/ui.rs:139-149 | After a failure nothing is decided any more |
| `ConsentSurface.StepPressed` | crates/a-quo-consent/src/ui.rs:274-290 | A pending press is what was under the pointer when the button went down; any release, clearing or page turn ends it |
| `ConsentSurface.StepFocus` | crates/a-quo-consent/src/ui.rs:291-312 | The focus follows Tab and the activated control, and goes back to Cancel on a clearing |
| `ConsentSurface.ActivateEffect` | crates/a-quo-consent/src/ui.rs:520-619 | Turning a page starts afresh on the other page, toggling moves the focus only off an Approve that is gone, anything else leaves the window as it was |
| `ConsentSurface.TabFollowsOrder` | crates/a-quo-consent/src/ui.rs:504-576 | Tab and Shift-Tab move one place on and back in the order of the controls on show |
| `ConsentSurface.ControlUnderMouse` | crates/a-quo-consent/src/ui.rs:937-972 | A control is under the mouse exactly when the window is open, the mouse inside it, and that control the first hit of the page on show, or the Cancel of a blocked surface |
| `Lines.MeasureLine` | crates/a-quo-consent/src/ui.rs:2166-2190 | The measuring loop finds the end of the line: paragraph end, last break, all that fits, or one character |
| `Lines.LayoutLines` | crates/a-quo-consent/src/ui.rs:2156-2203 | Terminates for every width oracle; the visible characters of the lines are those of the text in order; every line drawn is itself measured to fit or at most one character; the paragraphs stay apart and in order, an empty one gives one empty line, and every other is cut exactly where the breaking rule says, with the cut positions as witnesses |
| `Lines.LinesLaidOut` | crates/a-quo-consent/src/ui.rs:2156-2203 | The same of the specification: each line runs to the last white space before the first character that does not fit, without white space to that character, or is one character; the next line starts behind the white space |
| `Lines.WholeOnOneLine` | crates/a-quo-consent/src/ui.rs:2182-2192 | A paragraph that fits at every length is one line, trimmed at its end |
| `Lines.Lossless` | crates/a-quo-consent/src/ui.rs:2156-2203 | No visible character is lost, added or moved by the line breaking |
| `Lines.AllMeasured` | crates/a-quo-consent/src/ui.rs:2169-2192 | Every line of every text, as drawn, was measured to fit, or is at most one character |
| `Lines.LineMeasured` | crates/a-quo-consent/src/ui.rs:2169-2192 | A line is the front of what is left of its paragraph, and that very front was measured |
| `Lines.Greedy` | crates/a-quo-consent/src/ui.rs:2182-2190 | A line that stops short could not have been longer: more did not fit and there is no later break |
| `Rsa.BitLengthExact` | crates/a-quo-core/src/lib.rs:1123-1132 | The bit length is the k with 2^(k-1) <= V < 2^k for encodings of any length, and is missing exactly for zero |
| `Rsa.FoldIsValue` | crates/a-quo-core/src/lib.rs:1107-1109 | The shifting u64 fold is the value modulo 2^64 |
| `Rsa.RsaProfileExact` | crates/a-quo-core/src/lib.rs:1088-1116 | An RSA key is accepted exactly for 2^2047 <= N < 2^4096 and odd 3 <= E < 2^32 |
| `Rsa.SupportedExact` | crates/a-quo-core/src/lib.rs:1082-1121 | The answer for every kind of key: four algorithms always, RSA with positive integers by its profile, anything else never |
| `Challenge.LiveSignerBindingChallenge` | crates/a-quo-core/src/lib.rs:548-575 | Builds the length-prefixed fields, and fails exactly for a non-UTF-8 locator or a field of 4 GiB or more |
| `Challenge.ChallengeSpelled` | crates/a-quo-core/src/lib.rs:548-575 | The challenge is context, provider, locator, key, fingerprint and nonce in this order, each behind its four-byte length |
| `Challenge.FrontInjective` | crates/a-quo-core/src/lib.rs:561-573 | Different field lists have different bytes |
| `Challenge.ChallengeInjective` | crates/a-quo-core/src/lib.rs:548-575 | Equal challenges mean equal provider, locator, key text, fingerprint and nonce |
| `Work.PolicySumClamps` | crates/a-quo-cli/src/main.rs:3171-3187 | The saturating policy count is the true count, clamped |
| `Work.TransitionSumClamps` | crates/a-quo-cli/src/main.rs:3189-3205 | The saturating transition count is the true count, clamped |
| `Work.TrueSumMeans` | crates/a-quo-cli/src/main.rs:3189-3205 | The true count is every stored signature, and one more for each recovery |
| `Work.WorkExact` | crates/a-quo-cli/src/main.rs:3223-3234 | Checked arithmetic on clamped counts gives the true work or fails beyond any limit |
| `Work.GateExact` | crates/a-quo-cli/src/main.rs:3236-3243 | The gate admits exactly a true work of at most 2048, for any terms and any number of passes, zero included |
| `Work.ExactGateExact` | crates/a-quo-cli/src/main.rs:3323-3334 | The gate on loaded proofs decides by the true number of signature checks |
| `Work.PreflightExact` | crates/a-quo-cli/src/main.rs:3152-3284 | The early gate admits exactly what the fewest signatures of that many proofs would need |
| `Work.PreflightIsSafe` | crates/a-quo-cli/src/main.rs:3152-3284 | The preflight by path counts never refuses proofs meeting the structural minimums that the exact gate admits |
| `Budget.CommandInputBudget.constructor` | crates/a-quo-cli/src/main.rs:8493-8499 | A command starts with 64 MiB |
| `Budget.CommandInputBudget.ReadRegularFile` | crates/a-quo-cli/src/main.rs:8778-8816 | Succeeds exactly for an admissible file, returns its whole content even if it changed after its metadata was taken, charges exactly that, and changes nothing on failure; each size error names a limit that really was exceeded |
| `Budget.Conservation` | crates/a-quo-cli/src/main.rs:8778-8816 | Bytes handed out plus bytes left is always 64 MiB |
| `Budget.ReadAll` | crates/a-quo-cli/src/main.rs:8778-8816 | Any sequence of reads through one budget keeps that balance |

## Left out

- Recovery policies, recovery transitions, ceremonies, terminal revocation, root distribution, the store, the daemon service and the IPC protocol: other modules with their own state; only the recovery prompt is modelled.
- Actual cryptography, JSON and RFC 8785 internals and IDNA tables: parameters, as described above.
- `verify_domain_control_proof`: it does not compare the payload with its canonical form, so nothing about canonical payloads is claimed for it.
- Global key uniqueness along a chain: the code only forbids equal adjacent keys, so an older key may return.
- Running `ssh-keygen`, sockets, permissions, file metadata and C2PA workers: input and output around the modelled logic.
- Drawing, fonts, glyphs and the floating-point rectangles of the window: which rectangles contain the pointer, and whether the evidence fits, are given with each event.
- Cursor icons, redraw requests, the one-second tick and the control flow of the event loop: they do not reach the decision.
- Command-line parsing, report printing, and the work terms of commands other than creating a routine transition: the gate they share is covered for all terms.
- The separate backup budget reader, which repeats the command budget reader with another error text.
- Error kinds within SSHSIG verification: an unreadable or unsupported key and a bad signature are one failure of the parameter; the RSA profile is modelled on its own.
- Positions in the line breaker count characters where the source counts bytes at character boundaries.
