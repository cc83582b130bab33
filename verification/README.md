# Proveria: a verified model

Proveria is a provenance system. A producer commits to a set of leaf hashes under a Merkle root; later
anyone can check offline that a hash belongs to the set. These files model the parts of it that decide
what such a check is worth, and prove what they promise.

- **The trust spine.** Leaf encoding (`Framing`, `LeafHash`), the Merkle tree with sorted leaves and odd
  promotion (`LevelTree`, `Merkle`), its equality with the tree of RFC 6962 (`Rfc6962`), what a root and a
  walk commit to (`TreeBinding`), manifests (`Manifest`, `ManifestValidator`, `ManifestBuilder`,
  `ManifestBinding`), what each report says (`ManifestReport`, `ReportOrder`) and match packages
  (`MatchPackage`).
- **Canonical JSON and signing.** The RFC 8785 serialiser restricted to safe integers (`Json`, `JsonText`,
  `CanonicalJson`), a parser that inverts it (`JsonReader`), and signing digests (`ManifestSigning`).
- **The audit chain.** Rows and their hashes (`ChainRows`), concurrent writers as interleaved database
  steps (`AuditChain`), the invariant of every schedule (`AuditChainSafety`), what follows for whole runs
  (`AuditChainRuns`), where rows come from (`AuditChainPlan`), and the same operations on a single connection (`AuditStore`).
- **The CLI's codecs.** CRC-32 (`Crc32`, `CrcDivision`), ZIP (`Zip`, `ZipReader`), ustar (`Tar`, `TarReader`), base64
  (`Base64`, `Base64Laws`), evidence bundles from the manifest to a reader of the archive (`EvidenceRefs`,
  `EvidenceBundle`, `BundlePaths`, `BundleArchive`), its canonical JSON (`CliJson`), and dataset revisions
  (`DatasetRevision`, `RevisionBinding`).
- **Shingling.** The library's normaliser (`Normalizer`, `NormalForm`, `SecondPass`) and the CLI's own one
  (`CliNormalizer`), exactly when they agree (`Agreement`), what becomes of words and lines (`TextRules`), tokens (`Words`, `Paragraphs`, `Tokenizer`),
  OCR pages (`OcrPages`), shingles and their payloads (`Shingles`, `Texts`), and passages (`Passage`,
  `PassageLaws`).

`Bytes`, `Lexicographic`, `ByteOrder`, `Sorting`, `Ranges`, `JsStrings` and `Hex` are shared.

Conventions:

- SHA-256 is a parameter `h` from byte strings to 32 bytes. No statement says that a collision exists:
  a soundness theorem computes the colliding pair from the strings that were hashed (`TreeCollision`,
  `WalkCollision`, `Compare`), or writes the two strings out, and says what they were hashed for.
- Every byte format has a reader that is written apart from its writer (`ReadNode`, `ReadFields`, `ReadPayload`,
  `ParseBytes`, the archive readers): a lemma says what it finds in what is written.
- Exceptions and `Result` errors are values of an error datatype; the order in which the source looks for
  faults is kept.
- A JavaScript string is a sequence of UTF-16 code units where canonical JSON and hexadecimal are concerned,
  and a sequence of Unicode scalar values in the text passes, where no pattern tells the two apart.
- Loops and in-place updates of the source are methods; each is tied to a function of its inputs or of the
  old state, and the theorems are about that function.

Where the code departs from what its comments promise, the model follows the code:

- Normalising is not idempotent. `SecondPassExactly` says when a second pass changes nothing: folding leaves
  the text alone and no paragraph but the last ends in a hyphen. Both can fail: a hyphen before blanks is
  lost (`HyphenLostOnSecondPass`), and folding may compose what lowercasing made (`CaronComposedOnSecondPass`:
  a capital J with a combining caron has no composed form, its small letter has one).
- The CLI's normaliser is not the library's on every text. `AgreeExactly` says on which texts it is, and
  `HyphenAtPageEnd` shows what each makes of a hyphen before a form feed.
- A tar path is cut off at a NUL (`NulTruncates`), and a slash before 100 bytes is lost (`LeadingSlashLost`;
  no path of a bundle starts with a slash). `PathSurvives` says which paths come back. Bundles that the exporter
  builds have no such path (`ExportReadsBack`).
- `verifyMatchProof` is documented never to throw. `ThrowsExactly` says when it does: at a protocol version
  that cannot be made a string, such as an object whose conversion fails (`ThrowsWithoutVersion`), or at one whose
  length does not fit its prefix, which no string of an engine reaches.
- Base64 texts with spare bits set are accepted. `EncodeDecode` says which texts are encodings, and
  `SpareBitsLost` is one that is not.
- An exported bundle is refused by the CLI when a row has the id ".." (`EvidencePasses`), and cannot be archived
  when two artifacts get one path (`ArchivedExactly`), as those of a row without an id and of a row whose id is
  the default of the first may (`DefaultIdClashes`).
- `validateManifest` returns a report for every value but those with a leaf type, declared count or kind of signer
  that cannot be put into a message, where it throws (`Validated`, `ThrowsWithoutText`).

`dafny verify dfyconfig.toml` checks the whole project.

## Model

| member | source | states |
|---|---|---|
| `ByteOrder.Compare` | packages/crypto-core/src/merkle.ts:28-36 | the sign of the comparison is the lexicographic order of the bytes, zero exactly for equal ones |
| `Merkle.HashInternalNode` | packages/crypto-core/src/merkle.ts:42-54 | the hash for the two children, in the layout that NodeReads tells; a child of another length is refused |
| `Merkle.NodeReads` | packages/crypto-core/src/merkle.ts:42-54 | what is hashed for two children is the one string that reads as 0x01, the left one in bytes 1 to 32, the right one in bytes 33 to 64 |
| `Merkle.ValidateAndSort` | packages/crypto-core/src/merkle.ts:56-72 | the leaves sorted by bytes, or the error for an empty set, a wrong length or a duplicate |
| `Merkle.SortedLeavesMeaning` | packages/crypto-core/src/merkle.ts:56-72 | accepted exactly when there are leaves, all of 32 bytes and distinct; the result ascends and permutes the input |
| `Merkle.RefusedExactly` | packages/crypto-core/src/merkle.ts:56-72 | exactly when each error is given: no leaves; the first leaf of another length, with that length; a leaf twice |
| `Merkle.BuildNextLevel` | packages/crypto-core/src/merkle.ts:74-86 | pairs are joined and an odd last node is carried up unhashed |
| `Merkle.ComputeMerkleRoot` | packages/crypto-core/src/merkle.ts:93-101 | the level loop reaches the root of the sorted leaves |
| `Merkle.BuildMerkleProof` | packages/crypto-core/src/merkle.ts:108-136 | the loop collects the sparse proof of the target, or fails as the sorting does or when the target is missing |
| `Merkle.VerifyMerkleProof` | packages/crypto-core/src/merkle.ts:142-158 | true exactly when every step is well formed and the walk from the leaf ends at the root |
| `Merkle.StepBytes` | packages/crypto-core/src/merkle.ts:142-158 | a step to a sibling on the left hashes the sibling and then the current digest, one on the right the other way round; another position fails |
| `Merkle.TwoLeaves` | packages/crypto-core/src/merkle.ts:93-136 | in either order of the input, the root of two leaves hashes the smaller one and then the larger one, and the proofs carry their sides |
| `Merkle.RootBytes` | packages/crypto-core/src/merkle.ts:93-101 | every root is the recursive hash, over node strings written out byte by byte, of the leaves in ascending order |
| `Merkle.ProofsComplete` | packages/crypto-core/src/merkle.ts:56-158 | for every set of distinct 32-byte leaves and every member the built proof verifies against the computed root |
| `Merkle.ProofsOnlyForMembers` | packages/crypto-core/src/merkle.ts:108-136 | a proof exists exactly for members of an accepted set |
| `Merkle.ProofRefusedExactly` | packages/crypto-core/src/merkle.ts:108-136 | exactly when each error is given: the length of the target, what the sorting refuses, a target that is no leaf |
| `Merkle.OrderIrrelevant` | packages/crypto-core/src/merkle.ts:56-136 | roots and proofs do not depend on the order of the input |
| `Merkle.AgreesWithRfc6962` | packages/crypto-core/src/merkle.ts:74-136 | root and proof are the tree hash of section 2.1 and the audit path of section 2.1.1 of RFC 6962 over the sorted leaves |
| `LevelTree.ProofReachesRoot` | packages/crypto-core/src/merkle.ts:108-158 | climbing the proof of any node of any level gives that level's root |
| `LevelTree.ProofLength` | packages/crypto-core/src/merkle.ts:108-136 | the proof has ceil(log2 n) steps less the levels at which its node is promoted |
| `Rfc6962.SplitMeaning` | packages/crypto-core/src/merkle.ts:74-101 | the recursive tree splits at the largest power of two below n |
| `Rfc6962.RootIsTreeHash` | packages/crypto-core/src/merkle.ts:93-101 | the level-by-level root with odd promotion is the recursive tree hash |
| `Rfc6962.ProofIsAuditPath` | packages/crypto-core/src/merkle.ts:108-136 | the level-by-level proof is the recursive audit path with sides |
| `TreeBinding.RootBinds` | packages/crypto-core/src/merkle.ts:42-101 | two lists of leaf inputs, of any sizes, with one root are equal, or the extracted pair collides and was hashed for the two trees |
| `TreeBinding.WalkBinds` | packages/crypto-core/src/merkle.ts:142-158 | a leaf input whose walk reaches a root is one of that root's leaf inputs, or the extracted pair of hashed strings collides |
| `Framing.LengthPrefix` | packages/crypto-core/src/leaf-hash.ts:46-53 | four big-endian bytes, or nothing when the length does not fit |
| `Framing.Concat` | packages/crypto-core/src/leaf-hash.ts:55-66 | the buffer filled at a moving offset is the concatenation of the parts |
| `Framing.FieldsSeparate` | packages/crypto-core/src/leaf-hash.ts:46-66 | a length-prefixed field can be told from what follows it |
| `LeafHash.BuildLeafHashInput` | packages/crypto-core/src/leaf-hash.ts:68-91 | the encoding whose fields InputReads tells, or the error for a bad payload length, type or field length |
| `LeafHash.InputReads` | packages/crypto-core/src/leaf-hash.ts:68-91 | a reader of the tag 0x00 and four length-prefixed fields finds version, leaf type, algorithm and payload hash, in this order |
| `LeafHash.NamesAre` | packages/crypto-core/src/leaf-hash.ts:20-41 | the leaf types are the three names of the format, the version is 1.0, the algorithm sha256 |
| `LeafHash.RefusedExactly` | packages/crypto-core/src/leaf-hash.ts:68-91 | exactly when each error is given: payload length, then leaf type, then field lengths |
| `LeafHash.InputInjective` | packages/crypto-core/src/leaf-hash.ts:68-91 | equal leaf inputs have equal leaf type, payload hash and encoded version and algorithm |
| `Hex.HexRoundTrip` | packages/proofs/src/verify.ts:18-21 | hexadecimal reads back as the bytes it was written from |
| `Hex.ReadingStops` | packages/proofs/src/verify.ts:18-21 | reading stops where two digits are not next, and keeps what it has |
| `Hex.UpperCaseReads` | packages/proofs/src/verify.ts:18-21 | upper-case hexadecimal is read like lower-case |
| `Hex.StrictRoundTrip` | packages/manifest/src/validate.ts:42-48 | a string of lower-case digit pairs is the hexadecimal of the bytes it is read as |
| `Hex.HexOrder` | packages/manifest/src/build.ts:64-122 | comparing hexadecimal strings compares the bytes |
| `ManifestValidator.ValidateManifest` | packages/manifest/src/validate.ts:81-282 | all issues in the order of the source, and validity exactly when there are none; or the exception, exactly when a leaf type, declared count or kind of signer has no text |
| `ManifestReport.ReportedExactly` | packages/manifest/src/validate.ts:81-282 | each issue, with its field, index or count, is reported exactly when the manifest has that fault, written out clause by clause: a hash that does not recompute, one that an earlier leaf has, an order fault, a wrong count or root, a field of the header, a signature |
| `ReportOrder.ReportInOrder` | packages/manifest/src/validate.ts:81-282 | issues are reported in the order of the format, leaf by leaf and signature by signature, and none twice |
| `ManifestValidator.ThrowsWithoutText` | packages/manifest/src/validate.ts:148-154 | the failing family: a leaf type that is an object with a toString of its own |
| `ManifestReport.HasTextExactly` | packages/manifest/src/validate.ts:148-154 | a value has a text unless an object that hides its conversion is reached through arrays, however deep |
| `ManifestValidator.CheckLeaves` | packages/manifest/src/validate.ts:138-196 | the leaf pass with its set of seen hashes, order flag and previous hash, up to the first type without a text |
| `ManifestValidator.TallyLeaves` | packages/manifest/src/validate.ts:202-210 | one pass counts each leaf type |
| `ManifestValidator.CheckRoot` | packages/manifest/src/validate.ts:221-250 | the declared root against the recomputed one |
| `ManifestValidator.AcceptedExactly` | packages/manifest/src/validate.ts:81-282 | a value is found valid exactly when its hashes recompute, ascend and are distinct, its counts and root are right and its header and signatures are in shape |
| `ManifestBinding.AcceptedRoot` | packages/manifest/src/validate.ts:141-250 | the declared root of an accepted manifest is the tree root over its members' inputs |
| `ManifestBinding.RootBinding` | packages/manifest/src/validate.ts:141-250 | two accepted manifests with one root hold the same types and payload hashes in the same order, or a collision is named among the inputs hashed for the two trees |
| `ManifestBuilder.BuildManifest` | packages/manifest/src/build.ts:64-122 | the manifest with entries sorted by hash text, counts, root and defaults for what is not given, or the error of the first failing step |
| `ManifestBuilder.BuiltTexts` | packages/manifest/src/build.ts:64-122 | each text of a built manifest is the version, the algorithm or what was given under its name |
| `ManifestBuilder.BuiltParts` | packages/manifest/src/build.ts:64-122 | the other parts are what was given, the counts those of the three leaf types, and there are no signatures |
| `ManifestBuilder.RefusedExactly` | packages/manifest/src/build.ts:64-122 | nothing is built without leaves, or when a leaf cannot be hashed, for the first such leaf |
| `ManifestBuilder.BuiltIsAccepted` | packages/manifest/src/build.ts:64-122 | for non-empty texts and an ISO timestamp every manifest that is built is accepted by the validator |
| `ManifestBuilder.RebuildReproduces` | packages/manifest/src/build.ts:53-122 | any permutation of an accepted manifest's types and payload hashes rebuilds its leaf hashes, counts and root |
| `MatchPackage.ThrowsExactly` | packages/proofs/src/verify.ts:33-65 | the check throws exactly when it gets as far as the leaf hash and the version cannot be made a string or is too long for its prefix; for no string that an engine can make |
| `MatchPackage.ThrowsWithoutVersion` | packages/proofs/src/verify.ts:56-61 | the failing family: any package that passes, with a version that cannot be made a string |
| `MatchPackage.MatchSound` | packages/proofs/src/verify.ts:33-65 | an accepted package with the root of an accepted manifest names a member of it and protocol version 1.0, or a collision is named among the strings hashed for the walk and the root |
| `MatchPackage.MatchComplete` | apps/api/src/public-v1/routes.ts:2600-2660 | the package built for any leaf of an accepted manifest passes the check exactly when the root it carries is the manifest's |
| `MatchPackage.PackageSays` | apps/api/src/public-v1/routes.ts:2600-2660 | a package carries the root of the attestation, or the manifest's when there is none, and hash, id and type of its leaf |
| `JsonText.ReadDecimalBack` | packages/crypto-core/src/canonical-json.ts:28-40 | an integer is read back from its decimal text |
| `JsonText.EscapesAre` | packages/crypto-core/src/canonical-json.ts:28-72 | the escape of each code unit: the short ones, lower-case hexadecimal for other control characters and lone surrogates, else itself |
| `JsonText.ShortestEscape` | packages/crypto-core/src/canonical-json.ts:28-72 | no text that a reader takes for the same code unit is shorter |
| `CanonicalJson.IntegersExactly` | packages/crypto-core/src/canonical-json.ts:32-51 | integers are serialised in decimal exactly from -9007199254740991 to 9007199254740991 |
| `CanonicalJson.NamesAscend` | packages/crypto-core/src/canonical-json.ts:60-70 | names stand in the order of their code units |
| `CanonicalJson.RefusedScalars` | packages/crypto-core/src/canonical-json.ts:28-72 | exactly when each error is given for a value that is no array or object |
| `CanonicalJson.FirstRefusedItem` | packages/crypto-core/src/canonical-json.ts:57-59 | the first item that is refused decides for an array |
| `CanonicalJson.FirstRefusedField` | packages/crypto-core/src/canonical-json.ts:60-70 | the first field that is refused, in the order of names, decides for an object |
| `CanonicalJson.CanonicalizeWrites` | packages/crypto-core/src/canonical-json.ts:28-72 | exactly the values without undefined, functions and unsafe numbers are serialised, as the plain text of the value with sorted names |
| `CanonicalJson.NormalDecides` | packages/crypto-core/src/canonical-json.ts:41-72 | two values have one sorted form exactly when they are the same but for key order and the sign of zero |
| `JsonReader.RoundTrip` | packages/crypto-core/src/canonical-json.ts:28-72 | a parser recovers every serialisable value from its canonical text, names sorted |
| `JsonReader.CanonicalTextDecides` | packages/crypto-core/src/canonical-json.ts:28-72 | canonical texts are equal exactly for values that are the same but for key order at any depth |
| `JsonReader.CanonicalBytesDecide` | packages/crypto-core/src/canonical-json.ts:20-26 | the same for the UTF-8 bytes, lone surrogates included |
| `JsonReader.PropertiesRead` | packages/crypto-core/src/canonical-json.ts:20-72 | a reader of the canonical bytes of an object finds under each name the sorted form of what the object has there |
| `JsStrings.Utf8RoundTrip` | packages/crypto-core/src/canonical-json.ts:20-26 | a string without lone surrogates is recovered from its UTF-8 bytes |
| `ManifestSigning.SigningSucceeds` | packages/crypto-core/src/manifest-signing.ts:23-32 | a manifest has a signing digest exactly when every field but the signatures can be serialised |
| `ManifestSigning.SignedBytesRead` | packages/crypto-core/src/manifest-signing.ts:23-32 | a reader of the signed bytes finds an empty list under signatures and every other field under its name |
| `ManifestSigning.DigestBindsFields` | packages/crypto-core/src/manifest-signing.ts:23-32 | equal signing digests mean equal values under every name but signatures, or the two canonical byte strings collide |
| `ManifestSigning.DigestIgnoresSignatures` | packages/crypto-core/src/manifest-signing.ts:23-32 | signatures and key order do not reach the digest |
| `ChainRows.RowMeaning` | packages/audit/src/chain.ts:76-117 | a well-formed chain is numbered from 1, linked from genesis, and each hash recomputes |
| `ChainRows.GenesisIsZero` | packages/audit/src/chain.ts:27-29 | the genesis string is the hexadecimal form of 32 zero bytes |
| `ChainRows.EventBytesDecide` | packages/audit/src/chain.ts:36-48 | equal event bytes mean equal events up to key order in the payload |
| `ChainRows.EventBytesRead` | packages/audit/src/chain.ts:36-48 | a reader of the event bytes finds each part of the event under its name |
| `ChainRows.RowInputReads` | packages/audit/src/chain.ts:54-64 | what is hashed for a row is the 32 bytes of the previous hash and then the event bytes |
| `ChainRows.TamperEvidence` | packages/audit/src/chain.ts:54-64 | two well-formed chains with one last hash hold the same event bytes row by row, or two row inputs among them collide, or (only for different lengths) a row input hashes to zero |
| `AuditChainSafety.StepKeeps` | packages/audit/src/chain.ts:76-157 | every step of every writer keeps the invariant: sound chains for every view, exclusive locks, rows only under a lock, stored events |
| `AuditChainSafety.LatestIsLast` | packages/audit/src/chain.ts:97-109 | the row with the greatest sequence number is the last one, so number and previous hash are the next ones |
| `AuditChainRuns.ChainsAreSound` | packages/audit/src/chain.ts:76-117 | after any schedule rows are numbered 1..n, linked, recomputable and for stored events of the tenant |
| `AuditChainPlan.RowsOnlyFromPlan` | packages/audit/src/chain.ts:76-117 | after any schedule every row comes from an append of its event that read the plan in a state where its tenant was on it |
| `AuditChainPlan.NoPlanNoChain` | packages/audit/src/chain.ts:83-87 | a tenant that no step puts on the enterprise plan has an empty chain after any schedule |
| `AuditChainPlan.NoTenantNoChain` | packages/audit/src/chain.ts:79-87 | no chain holds an event without a tenant, with an empty one or with another one |
| `AuditChainPlan.OnlyCommitsAdd` | packages/audit/src/chain.ts:76-157 | only a commit adds rows, and exactly those of its transaction; an abort leaves nothing behind |
| `AuditChainRuns.NoEventTwice` | packages/audit/src/chain.ts:76-157 | after any schedule no event is chained twice, in one chain or two |
| `AuditChainRuns.AppendOnly` | packages/audit/src/chain.ts:76-117 | no schedule removes or changes a committed row |
| `AuditChainRuns.OneWriter` | packages/audit/src/chain.ts:89-95 | from taking the lock to the end of its transaction a tenant's chain has one writer |
| `AuditChainRuns.SequenceIndexNeverRejects` | packages/audit/src/chain.ts:97-117 | in every reachable state the lock holder's number is free, and its insert succeeds exactly when the event serialises and is not chained yet |
| `AuditStore.ScriptRuns` | packages/audit/src/chain.ts:76-117 | a writer without rivals adds exactly one row and lets go of its lock |
| `AuditStore.AuditStore.AppendChainEntryIfEnterprise` | packages/audit/src/chain.ts:76-117 | nothing for tenants without a chain; otherwise one more row for the event, or an exception that leaves the chain alone |
| `AuditStore.AuditStore.WriteAuditEvent` | packages/audit/src/chain.ts:137-157 | outside a caller's transaction the event is stored whatever becomes of its row; for a new event only serialisation can fail |
| `Crc32.Compute` | apps/proveria-cli/src/main.rs:5238-5251 | the bitwise register loop computes the checksum that ChecksumIsRemainder tells |
| `CrcDivision.ChecksumIsRemainder` | apps/proveria-cli/src/main.rs:5238-5251 | for every byte string the checksum is the reflected, complemented remainder of polynomial division by the generator with the exponents 32, 26, 23, 22, 16, 12, 11, 10, 8, 7, 5, 4, 2, 1, 0 |
| `CrcDivision.PolynomialIsGenerator` | apps/proveria-cli/src/main.rs:5244-5248 | the constant of the loop is that generator, bits reflected |
| `Crc32.MatchesRfc1952` | apps/proveria-cli/src/main.rs:5238-5251 | the checksum equals the table-driven form of section 8 of RFC 1952; its constant is the generator (PolynomialIsGenerator) |
| `Crc32.BurstDetected` | apps/proveria-cli/src/main.rs:5238-5251 | inputs that differ only within four consecutive bytes always have different checksums |
| `Zip.WriteZipArchive` | apps/proveria-cli/src/main.rs:5035-5122 | the archive with checked 16- and 32-bit arithmetic, or the first failure in the order of the source |
| `ZipReader.SucceedsExactly` | apps/proveria-cli/src/main.rs:5035-5122 | the writer succeeds exactly when every name, count, size and offset fits its field |
| `ZipReader.RefusedAt` | apps/proveria-cli/src/main.rs:5035-5122 | the first entry that does not fit decides, for the first of its reasons: name, size, offset, number of entries |
| `ZipReader.LocalFields` | apps/proveria-cli/src/main.rs:5058-5070 | each field of a local header reads back as written: none has wrapped |
| `ZipReader.CentralFields` | apps/proveria-cli/src/main.rs:5082-5099 | each field of a directory record reads back as written |
| `ZipReader.RoundTrip` | apps/proveria-cli/src/main.rs:5035-5122 | a reader going from the end record through the directory to the local headers recovers every name, byte string and CRC in order |
| `Tar.SplitTarPath` | apps/proveria-cli/src/main.rs:5174-5186 | paths up to 100 bytes whole; longer ones at the rightmost slash that leaves a name of 1 to 100 and a prefix of at most 155 bytes |
| `Tar.WriteTarBytes` | apps/proveria-cli/src/main.rs:5188-5194 | the value is copied to the start of its field, or nothing is written |
| `Tar.WriteTarOctal` | apps/proveria-cli/src/main.rs:5196-5205 | padded octal digits and a NUL, or nothing when the number does not fit |
| `Tar.WriteTarChecksum` | apps/proveria-cli/src/main.rs:5207-5213 | six digits, a NUL and a space |
| `Tar.TarHeader` | apps/proveria-cli/src/main.rs:5151-5172 | the 512-byte header assembled in place, or the first failure |
| `TarReader.HeaderReads` | apps/proveria-cli/src/main.rs:5151-5172 | a reader finds the path up to NULs, the size, mode 644 and zero for owner, group and time |
| `TarReader.RestIsZero` | apps/proveria-cli/src/main.rs:5151-5172 | all bytes outside the fields are zero |
| `TarReader.SplitExactly` | apps/proveria-cli/src/main.rs:5174-5186 | up to 100 bytes whole, else at the last slash that will do, else refused |
| `TarReader.HeaderRefused` | apps/proveria-cli/src/main.rs:5151-5205 | exactly when each error is given: no place to split, or a size of 8^11 or more |
| `Tar.WriteTarArchive` | apps/proveria-cli/src/main.rs:5124-5149 | headers, bytes and padding of every entry and two zero blocks, or the first failure |
| `Tar.OctalLength` | apps/proveria-cli/src/main.rs:5196-5205 | a number needs no more digits than places exactly when it is below that power of eight |
| `TarReader.SucceedsExactly` | apps/proveria-cli/src/main.rs:5124-5172 | the writer succeeds exactly when every path can be split and every size is below 8^11 |
| `TarReader.ChecksumHolds` | apps/proveria-cli/src/main.rs:5169-5170 | the stored checksum is the header sum with blanks, in six octal digits |
| `TarReader.ArchiveLength` | apps/proveria-cli/src/main.rs:5124-5149 | the archive is a whole number of 512-byte blocks |
| `TarReader.ArchiveReads` | apps/proveria-cli/src/main.rs:5124-5149 | a ustar reader recovers every byte string, and every path up to NULs |
| `TarReader.PathSurvives` | apps/proveria-cli/src/main.rs:5174-5186 | a path is recovered exactly when it has no NUL and is not a slash before 100 bytes with no other slash to split at |
| `TarReader.RoundTrip` | apps/proveria-cli/src/main.rs:5124-5186 | the archive reads back as its entries exactly when every path survives |
| `TarReader.LeadingSlashLost` | apps/proveria-cli/src/main.rs:5174-5186 | a failing family: a slash before 100 characters comes back without it |
| `TarReader.NulTruncates` | apps/proveria-cli/src/main.rs:5151-5194 | a failing family: a path with a NUL comes back only up to it |
| `TarReader.RelativePathSurvives` | apps/proveria-cli/src/main.rs:5174-5186 | every NUL-free relative path that can be split is recovered |
| `Base64.DecodeBase64` | apps/proveria-cli/src/main.rs:5272-5328 | the chunk loop returns the octets of the stripped text or the first fault in it |
| `Base64Laws.AcceptsShaped` | apps/proveria-cli/src/main.rs:5272-5328 | accepted exactly: whole groups of symbols, only the last with one or two pads, whitespace apart |
| `Base64Laws.BlanksAre` | apps/proveria-cli/src/main.rs:5280 | the five ASCII blanks are the only characters that stand for nothing |
| `Base64Laws.CharacterRefused` | apps/proveria-cli/src/main.rs:5281-5300 | after symbols, a character that is no symbol, pad or blank is refused as such, whatever follows |
| `Base64Laws.PaddingRefused` | apps/proveria-cli/src/main.rs:5295-5305 | after a pad that does not end its group a symbol is refused for the padding |
| `Base64Laws.EndRefused` | apps/proveria-cli/src/main.rs:5281-5283 | nothing but blanks may follow a padded group |
| `Base64Laws.LengthRefused` | apps/proveria-cli/src/main.rs:5323-5325 | symbols that are not in whole groups are refused for their length |
| `Base64Laws.DecodeEncode` | apps/proveria-cli/src/main.rs:5272-5328 | decoding inverts the encoding of section 4 of RFC 4648 for every byte string |
| `Base64Laws.GroupsAre` | apps/proveria-cli/src/main.rs:5284-5320 | each group is the symbols of three octets six bits at a time, the last one padded; with SymbolsAre, the alphabet of section 4 |
| `Base64Laws.SymbolsAre` | apps/proveria-cli/src/main.rs:5284-5294 | A to Z, a to z, 0 to 9, + and / |
| `Base64Laws.WhitespaceIgnored` | apps/proveria-cli/src/main.rs:5280 | inserting ASCII whitespace anywhere changes nothing |
| `Base64Laws.OutputLength` | apps/proveria-cli/src/main.rs:5305-5320 | three octets for every four stripped characters, less the pads |
| `Base64Laws.EncodeDecode` | apps/proveria-cli/src/main.rs:5305-5320 | an accepted stripped text is the encoding of its octets exactly when its spare bits are zero |
| `Base64Laws.SpareBitsLost` | apps/proveria-cli/src/main.rs:5305-5320 | the text "QR==" is accepted and is not the encoding of its octet |
| `EvidenceRefs.SafeSegmentShape` | packages/evidence-export/src/index.ts:48-51 | a segment is a non-empty name of the allowed characters, and goes up exactly when the value does |
| `EvidenceRefs.SegmentIs` | packages/evidence-export/src/index.ts:48-51 | the fallback for a value without text, else the first 120 characters of the underscored value |
| `EvidenceRefs.RunReplaced` | packages/evidence-export/src/index.ts:48-51 | allowed characters are kept, and a run of others becomes one underscore |
| `EvidenceRefs.AllowedAre` | packages/evidence-export/src/index.ts:48-51 | the allowed characters by their code points |
| `EvidenceRefs.RefsAre` | packages/evidence-export/src/index.ts:72-97 | references of the three collections in order, each under the name of its collection |
| `EvidenceRefs.RefsStand` | packages/evidence-export/src/index.ts:72-97 | every reference stands for an artifact of some row, under a path of plain names that is unsafe exactly when the id is ".." |
| `EvidenceRefs.RefsCover` | packages/evidence-export/src/index.ts:72-97 | every artifact with a key has such a reference |
| `EvidenceRefs.KeysAre` | packages/evidence-export/src/index.ts:72-97 | the keys that are referred to are the keys of artifacts that are no empty text |
| `EvidenceBundle.BuildEvidenceExportBundle` | packages/evidence-export/src/index.ts:103-160 | one artifact or one missing entry for each first reference of the manifest, in order |
| `EvidenceBundle.EveryReferenceAnswered` | packages/evidence-export/src/index.ts:125-147 | every reference has an artifact or a missing entry with its key |
| `EvidenceBundle.OneAnswerEach` | packages/evidence-export/src/index.ts:125-147 | artifacts and missing entries together are as many as there are keys |
| `EvidenceBundle.ValidateEvidenceBundle` | apps/proveria-cli/src/main.rs:4712-4745 | no fault, or the first one in the order of the source |
| `EvidenceBundle.VerdictIs` | apps/proveria-cli/src/main.rs:4712-4721 | a wrong type is found first, then a wrong version |
| `EvidenceBundle.ArtifactFaultIs` | apps/proveria-cli/src/main.rs:4722-4741 | the first fault of an artifact: path, encoding, text, size |
| `EvidenceBundle.FirstFaultDecides` | apps/proveria-cli/src/main.rs:4722-4745 | the first artifact with a fault decides |
| `EvidenceBundle.BuiltBundlePasses` | apps/proveria-cli/src/main.rs:4722-4741 | a built bundle always passes the base64 and byte size checks: it is refused exactly for an unsafe path of a stored reference |
| `EvidenceBundle.EvidencePasses` | apps/proveria-cli/src/main.rs:4712-4745 | the bundle of a manifest is refused exactly when a row with the id ".." has a stored artifact |
| `BundlePaths.SafePathIsStable` | apps/proveria-cli/src/main.rs:5253-5270 | an accepted path comes out relative and not empty, is accepted again unchanged, and has no new characters |
| `BundlePaths.SafePathExactly` | apps/proveria-cli/src/main.rs:5253-5270 | exactly when each error is given: absolute, going up anywhere, naming nothing |
| `BundlePaths.ThreeNames` | apps/proveria-cli/src/main.rs:5253-5270 | a path of three plain names is refused exactly when the second one is ".." |
| `BundleArchive.PushZipEntry` | apps/proveria-cli/src/main.rs:5022-5033 | one more entry, or the error for a path that is there already |
| `BundleArchive.EvidenceBundleZipEntries` | apps/proveria-cli/src/main.rs:4989-5020 | the entries of the documents and the artifacts in order, or the first failure |
| `BundleArchive.PushedExactly` | apps/proveria-cli/src/main.rs:4989-5033 | entries are made exactly when no path comes twice |
| `BundleArchive.FirstDuplicate` | apps/proveria-cli/src/main.rs:5022-5033 | the first path that comes a second time is the one complained of |
| `BundleArchive.ArchivesReadBack` | apps/proveria-cli/src/main.rs:4979-5020 | a ZIP of a checked bundle always reads back, a tar exactly when no artifact path has a NUL |
| `BundleArchive.ArchivedExactly` | apps/proveria-cli/src/main.rs:4989-5033 | a built bundle has archive entries exactly when no row with the id ".." has a stored artifact and no two artifacts have one path |
| `BundleArchive.SameSegmentClashes` | apps/proveria-cli/src/main.rs:5022-5033 | a failing family: attestations of one segment with artifacts of one name under different keys |
| `BundleArchive.DefaultIdClashes` | packages/evidence-export/src/index.ts:72-97 | a failing manifest: a row without an id, and a row whose id is the default of the first |
| `BundleArchive.ExportReadsBack` | apps/proveria-cli/src/main.rs:4979-5020 | from the store to a reader: whatever archive of a built bundle is written, reading it gives back what was written, under ASCII names, with the stored bytes of every artifact |
| `DatasetRevision.DatasetFileMap` | apps/proveria-cli/src/main.rs:2991-3011 | the map of all files, or the first fault in the order of the source |
| `DatasetRevision.FileMapMeans` | apps/proveria-cli/src/main.rs:2991-3011 | the map exists exactly when every item is complete and no path comes twice, and holds exactly the listed files |
| `DatasetRevision.FileOrderIrrelevant` | apps/proveria-cli/src/main.rs:2991-3011 | any permutation of an accepted list is accepted, with the same map |
| `DatasetRevision.BuildDatasetRevisionRecord` | apps/proveria-cli/src/main.rs:2902-2983 | the record with its four lists in path order and their counts, or the first failure, of the headers first |
| `DatasetRevision.RevisedExactly` | apps/proveria-cli/src/main.rs:2825-2983 | a record is made exactly of two complete headers with one name and two lists of complete files without a path twice; it names both versions and roots, and counts each of its lists |
| `DatasetRevision.RefusedInOrder` | apps/proveria-cli/src/main.rs:2825-2983 | headers are looked at first, then their names, then the files of the base, then those of the next inventory |
| `DatasetRevision.HeaderRefused` | apps/proveria-cli/src/main.rs:2825-2900 | the first bad field of a header decides, a type other than that of an inventory before the rest |
| `DatasetRevision.FirstBadItem` | apps/proveria-cli/src/main.rs:2991-3011 | the first item that is incomplete, or whose path came before, decides |
| `DatasetRevision.Partition` | apps/proveria-cli/src/main.rs:2914-2948 | added, changed and kept partition the next paths; removed, changed and kept partition the base's |
| `DatasetRevision.RowsAscend` | apps/proveria-cli/src/main.rs:2912-2948 | each of the four lists stands in the byte order of paths, whatever the order of the inventories |
| `DatasetRevision.CountsMatch` | apps/proveria-cli/src/main.rs:2966-2970 | the counts add up to the sizes of the two inventories |
| `DatasetRevision.RecordTellsBoth` | apps/proveria-cli/src/main.rs:2902-2983 | the record gives back the next inventory's full file map and the base's paths and hashes |
| `DatasetRevision.KeptSizesNotRecovered` | apps/proveria-cli/src/main.rs:2933-2937 | the base's sizes of kept files are not in the record |
| `CliJson.CliBytesDecide` | apps/proveria-cli/src/main.rs:4426-4454 | the CLI writes the same canonical bytes for two values exactly when they are the same but for key order at any depth |
| `CliJson.NamesAscend` | apps/proveria-cli/src/main.rs:4426-4454 | names stand in the order of their UTF-8 bytes |
| `CliJson.CanonicalFormsAgree` | apps/proveria-cli/src/main.rs:4426-4454 | on values with ASCII names and safe integers the CLI and the library write the same canonical bytes |
| `RevisionBinding.RootBindsChanges` | apps/proveria-cli/src/main.rs:2950-2956 | equal revision roots mean equal changes, or the two strings hashed for them collide |
| `RevisionBinding.RootInputReads` | apps/proveria-cli/src/main.rs:2950-2956 | a reader of the bytes hashed for a root finds the four lists under their names, row by row |
| `RevisionBinding.RootBindsInventories` | apps/proveria-cli/src/main.rs:2902-2983 | two revisions with one root have the same next files and the same base paths and hashes, or the two strings hashed for the roots collide |
| `Normalizer.ReplaceMap` | packages/shingling/src/normalize.ts:26-32 | replacing entry by entry is one substitution |
| `Normalizer.NormalizeForShingling` | packages/shingling/src/normalize.ts:42-67 | the passes in order |
| `Paragraphs.SplitThenWords` | packages/shingling/src/normalize.ts:37-64 | splitting at blank runs with two newlines and taking words of each part is one scan |
| `TextRules.CharacterPrepared` | packages/shingling/src/normalize.ts:4-52 | what each character becomes before paragraphs are split |
| `TextRules.PunctuationIs` | packages/shingling/src/normalize.ts:37-40 | punctuation is what ASCII prints apart from letters, digits, the space and the hyphen |
| `TextRules.DividedWordJoined` | packages/shingling/src/normalize.ts:53-55 | a word divided at the end of a line is made whole, whatever blanks stand before its second part |
| `TextRules.LinesJoined` | packages/shingling/src/normalize.ts:58-64 | other words on two lines get a space between them |
| `TextRules.BlankLineParts` | packages/shingling/src/normalize.ts:36-58 | a blank line parts two paragraphs, whatever blanks stand on it |
| `TextRules.OtherSpaceKeepsTogether` | packages/shingling/src/normalize.ts:36-58 | white space that is no blank of a blank line does not |
| `NormalForm.CleanedIsLine` | packages/shingling/src/normalize.ts:58-64 | space, collapse and trim leave the words of the part joined by single spaces |
| `NormalForm.NormalTextIsNormal` | packages/shingling/src/tokenize.ts:8-13 | the result is in normal form (non-empty paragraphs of words without spaces or punctuation but hyphens), and its tokens put it together again |
| `SecondPass.SecondPassExactly` | packages/shingling/src/normalize.ts:42-67 | a second run changes nothing exactly when folding leaves the text alone and no paragraph but the last ends in a hyphen |
| `SecondPass.HyphenLostOnSecondPass` | packages/shingling/src/normalize.ts:42-67 | a failing family: a word ending in a hyphen, then blanks and a new paragraph |
| `SecondPass.CaronComposedOnSecondPass` | packages/shingling/src/normalize.ts:42-46 | a failing input: a capital J with a combining caron |
| `CliNormalizer.NormalizeForShingling` | apps/proveria-cli/src/main.rs:4506-4539 | the CLI's chain of replacements and its paragraph stage |
| `CliNormalizer.CliTokens` | apps/proveria-cli/src/main.rs:4541-4551 | the CLI's tokens are those of its scan, or one empty paragraph |
| `Agreement.PassesCommute` | apps/proveria-cli/src/main.rs:4519-4524 | form feeds and line-end hyphens may be handled in either order when no hyphen stands right before a form feed |
| `Agreement.AgreeExactly` | apps/proveria-cli/src/main.rs:4506-4539 | the CLI and the library normalise a text alike exactly when its prepared form has no hyphen before a form feed, no U+FEFF and no U+0085 |
| `OcrPages.HyphenAtPageEnd` | apps/proveria-cli/src/main.rs:4519-4524 | the failing family for hyphens: the library starts a new paragraph, the CLI goes on with the line |
| `OcrPages.PagesDoNotMix` | packages/ocr/src/aggregate.ts:82 | the paragraphs of the joined pages are those of each page, in page order |
| `OcrPages.NoShingleSpansPages` | packages/ocr/src/aggregate.ts:82 | the shingles of the document are its pages' shingles |
| `OcrPages.ArrivalOrderIrrelevant` | packages/ocr/src/aggregate.ts:36-48 | pages may arrive in any order when their numbers differ |
| `OcrPages.PagesInOrder` | packages/ocr/src/aggregate.ts:36-48 | pages stand in the order of their numbers, each as often as it was given |
| `OcrPages.FailedPageIsEmpty` | packages/ocr/src/aggregate.ts:36-82 | a page that failed has no paragraphs, whatever its text |
| `Shingles.GenerateShingles` | packages/shingling/src/shingle.ts:17-38 | the nested loops produce the numbered windows of every paragraph |
| `Shingles.WindowsAre` | packages/shingling/src/shingle.ts:28-35 | a text is a window exactly when it starts on a stride and fits |
| `Shingles.BuildShinglePayload` | packages/shingling/src/hash.ts:63-75 | the tagged payload, or nothing when a length does not fit |
| `Shingles.PayloadReads` | packages/shingling/src/hash.ts:63-75 | a reader of the tag and six length-prefixed fields finds version, preset, two versions, extraction method and window text, in this order |
| `Shingles.PayloadInjective` | packages/shingling/src/hash.ts:63-75 | equal payloads are for the same preset, extraction method and window text |
| `Texts.TextBytesInjective` | packages/shingling/src/hash.ts:57-60 | different texts have different UTF-8 bytes |
| `Passage.ShinglePayloadHash` | apps/proveria-cli/src/main.rs:4553-4568 | the CLI's payload hash, with lengths cast to 32 bits |
| `Passage.PayloadsAgree` | apps/proveria-cli/src/main.rs:4553-4568 | where the library has a payload the CLI has the same one |
| `Passage.PassageCandidateHashes` | apps/proveria-cli/src/main.rs:4470-4504 | the four nested loops return each candidate once, at its first occurrence, or refuse the passage |
| `PassageLaws.CandidatesExactly` | apps/proveria-cli/src/main.rs:4470-4504 | refused exactly when every paragraph has fewer than 7 words; otherwise candidates exist and none comes twice |
| `PassageLaws.PresetOrder` | apps/proveria-cli/src/main.rs:4470-4504 | candidates are those of standard windows, then broad, then sensitive ones, each method by method |
| `PassageLaws.FirstInOrder` | apps/proveria-cli/src/main.rs:4487-4494 | a hash that comes up twice keeps its first place |
| `PassageLaws.TooShortExactly` | apps/proveria-cli/src/main.rs:4470-4504 | refused exactly when every paragraph has fewer than 7 words, and for no other reason |
| `PassageLaws.SliceMatches` | apps/proveria-cli/src/main.rs:4480-4494 | every window of a slice that starts on a stride is a candidate and a hash of the document: for broad, slices at multiples of 3 |
| `PassageLaws.WindowWordsMatch` | apps/proveria-cli/src/main.rs:4480-4494 | 7 shared words anywhere match for standard, 12 at multiples of 3 for broad, 4 anywhere for sensitive |
| `PassageLaws.SevenWordsMatch` | apps/proveria-cli/src/main.rs:4470-4504 | seven consecutive words shared with one paragraph of the document, at any place in either, always match a standard shingle, under every method |
| `PassageLaws.PassageVerifies` | apps/proveria-cli/src/main.rs:4470-4504 | the same from raw document to raw passage, whatever its line breaks, punctuation and other paragraphs, when both normalisers agree on it |
| `PassageLaws.MatchMeans` | apps/proveria-cli/src/main.rs:4553-4568 | from raw texts: a candidate that is a document hash comes from a window with the same preset, method and words, or the payloads of two windows collide |
| `PassageLaws.SameTextSameTokens` | packages/shingling/src/hash.ts:63-84 | equal window texts are equal token windows |

## Left out

- SHA-256 and Ed25519: library calls; SHA-256 is a parameter, signatures are opaque values.
- HTTP, object storage, queues, PDF rendering, OCR engines and pages of the web application: input and output.
- File system errors: the ZIP and tar writers return the bytes that reach the file; a file left half written by an error is not modelled.
- Unicode tables: NFC with lowercasing is a given map `fold`; white space is the list that each language documents.
- Paragraphs.SplitThenWords: the expression for paragraph breaks is modelled as maximal runs of its blank characters with two or more newlines, not as a matching procedure.
- OcrPages.PagesDoNotMix: takes as given that `fold` does not reach across a form feed and makes nothing of the empty text; confidences and warnings of pages are not modelled.
- PassageLaws.PassageVerifies: for passages that both normalisers treat alike (`AgreeExactly`); on others the CLI may see other words.
- SecondPass.SecondPassExactly: the clause for texts that folding changes takes as given that it changes letters only; `fold` itself is a parameter.
- PassageLaws.SliceMatches: window texts of 4 GiB or more are outside it and the two lemmas after it, since the library refuses to hash them.
- AuditChainSafety.StepKeeps: each statement sees what is committed and its own rows (read committed), and an advisory lock lives as long as its transaction or savepoint; other isolation levels, lock queues, deletion of tenants and events, and the 32-bit width of the sequence column are not modelled.
- AuditStore.AuditStore.WriteAuditEvent: for a call that is not inside a transaction of its caller; when such a transaction rolls back, event and row go with it.
- AuditStore.ScriptRuns: lock numbers may coincide for two tenants, which only makes more writers wait; waiting itself is a step that cannot be taken yet.
- ManifestValidator.ValidateManifest: reads of properties are given as a record of values as JSON has them; getters, proxies, prototype chains and callable toString properties are not modelled, and the date parser is a parameter.
- ManifestBuilder.BuiltIsAccepted: asks for non-empty identifiers, natural counts and an ISO timestamp, which the builder does not look at but the validator does; the clock is a parameter.
- MatchPackage.ThrowsExactly: the conversion of the protocol version to a string is given, as a string or as a failure; the other fields have the types that the package declares.
- EvidenceRefs.RefsStand: a collection item that is null, at which the exporter throws, is not modelled; names of artifacts come in the order in which the platform lists them.
- EvidenceBundle.EvidencePasses: paths are those of a Unix system; the manifest, the time and the counts that a bundle carries besides its artifacts are left out.
- BundleArchive.ExportReadsBack: the JSON texts of the bundle, its manifest and its missing artifacts are given byte strings.
- DatasetRevision.BuildDatasetRevisionRecord: the fixed texts of the record are left out; reading a field (trimming, hexadecimal, unsigned range) is given as present or absent.
- RevisionBinding.RootBindsInventories: takes as given that paths and hashes are UTF-8 texts, as every string of the CLI is.
- ZipReader.RoundTrip: for a reader that does not know ZIP64, as the writer has none, and that gives names as bytes: bit 11 of the flags is clear, so names that are not ASCII may be taken for another encoding. Those of an exported bundle are ASCII (`ExportReadsBack`).
- CliJson.CliBytesDecide: numbers are integers; the CLI also writes floating-point ones. `CanonicalFormsAgree` is for ASCII names, on which both orders of names are one.
- The SDK's own stable JSON: it sorts by locale.
- The browser build of the shingling library: the same passes with another hash call.
- Plan tables, API keys, sessions, pairing, retry delays, webhook headers and metadata extraction: each is settled by reading a branch or two.
