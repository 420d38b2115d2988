# EduChain ledger core in Dafny

A model of the in-memory certificate ledger of EduChain (`blockchain/`), with
proofs of what it promises.

- **Certificates** (`certificate.dfy`): the certificate record.
  - A `Certificate` class whose constructor keeps a supplied id or generates
    `CERT-` plus 16 upper-case hex digits.
  - Its SHA-256 is taken over id, the five business fields and the timestamp,
    concatenated in that order.
  - `isValid()` requires the five fields to be non-empty and the stored hash
    to equal a recomputation.
  - Its storable form is a `Payload` tagged as a certificate.
  - `fromData` rebuilds a record and copies the stored timestamp and hash over
    the computed ones.
- **Blocks** (`block.dfy`): the block.
  - A `Block` class whose hash binds index, previous hash, timestamp, the
    serialized payload and the nonce, in that order.
  - `mineBlock` bumps `nonce` and rehashes until the hash starts with
    `difficulty` `'0'` characters.
  - `isValid()` re-checks the stored hash.
- **Ledger** (`blockchain.dfy`): the `Blockchain` class.
  - It owns `chain: seq<Block>`, which starts with a genesis block.
  - `addCertificate` is the only write path: it validates, builds, mines and
    pushes.
  - The read-only queries are linear scans: lookup by id, the two
    case-insensitive searches, the full listing, the chain check, the
    statistics and verification.
- **Strings** (`strings.dfy`): the JavaScript string behaviour the core relies
  on.
  - `String(n)` for non-negative integers.
  - ASCII `toLowerCase`/`toUpperCase` and `includes`.
  - Hex encoding.
  - Concatenation of an ordered list of parts.
- **Hashing** (`hashing.dfy`) and **Wrappers** (`wrappers.dfy`): the
  injectivity hypothesis, and `Option`/`Result`.

SHA-256 and `JSON.stringify` are not implemented. They are parameters: a
`Primitives` value for blocks and a `sha256: string -> string` argument for
certificates. Every tamper-detection lemma states that it assumes them
injective (`Hashing.Injective`). `Date.now()` readings are `nat` parameters.
The eight bytes of `crypto.randomBytes(8)` are likewise an `entropy`
parameter, or an unconstrained choice of eight bytes inside the ledger scans.
A thrown `Error` is a `Failure` result. A `null` lookup result is `None`.

Four behaviours of the code that a reader might not expect, all modelled as
written:
- A field counts as missing only when it is the empty string. Nothing is
  trimmed, and the issue date is never parsed.
- `fromData` overwrites `timestamp` and `certificateHash` after construction,
  so `Certificate` is a class and `FromData` assigns those two fields.
- `verifyCertificate` checks only the rebuilt record's own hash, never the
  block hash or the chain linkage. `VerifyCertificate` states exactly that.
- Certificate ids are not checked for uniqueness, and lookup returns the
  earliest block with the id (`FindByIdAppend`).

## Model

| member | source | states |
|---|---|---|
| Strings.DecimalString | blockchain/block.js:15 | `String(n)` of a non-negative integer: at least one character, all decimal digits, one digit exactly below 10 |
| Strings.DecimalStringInjective | blockchain/block.js:15 | different numbers print differently, so a number concatenated into a digest input cannot change unseen |
| Strings.ContainsMeansOccurs | blockchain/blockchain.js:66 | the `includes` scan is true exactly when the needle occurs at some position of the haystack |
| Strings.ContainsEmpty | blockchain/blockchain.js:83 | every string includes the empty string |
| Strings.HexEncode | blockchain/certificate.js:16 | `toString('hex')` gives two lower-case hex digits per byte |
| Strings.ConcatCancel | blockchain/certificate.js:21-22 | two concatenations of equally many parts that agree on all parts but one, and are equal, agree on that part too |
| Strings.ConcatAppend | blockchain/block.js:15 | joining one more part appends it to the join, so a list of parts joins to `a + b + c + ...` left to right |
| Strings.ConcatShift | blockchain/certificate.js:21-22 | moving characters across the boundary between two adjacent parts leaves the concatenation unchanged |
| Certificates.RandomBytes | blockchain/certificate.js:16 | `crypto.randomBytes(8)` yields exactly eight bytes, otherwise unconstrained |
| Certificates.HashedPartsJoin | blockchain/certificate.js:21-22 | the digested string is id, student, institution, course, grade, issue date and timestamp joined in that order with no separator |
| Certificates.RecomputedHash | blockchain/certificate.js:19-24 | the record digest is SHA-256 of id + student + institution + course + grade + issue date + timestamp, in that order |
| Certificates.GenerateCertificateId | blockchain/certificate.js:15-17 | the generated id is `CERT-` followed by exactly 16 upper-case hex digits |
| Certificates.MissingFieldInvalid | blockchain/certificate.js:28-30 | an empty business field makes a record invalid whatever its hash |
| Certificates.HashMismatchInvalid | blockchain/certificate.js:19-24 | a stored hash different from the recomputation makes a record invalid whatever its fields |
| Certificates.Format | blockchain/certificate.js:50-62 | the formatted view carries the record unchanged, and its `isValid` holds exactly when all fields are present and the hash matches |
| Certificates.Rebuild | blockchain/certificate.js:65-77 | `fromData` on a certificate payload keeps the five fields, the stored timestamp and hash, and the stored id when it is non-empty; otherwise it draws a well-formed generated id |
| Certificates.RebuiltFromStoredId | blockchain/certificate.js:65-77 | a payload with an id rebuilds to exactly its own fields, so its validity depends on the payload alone |
| Certificates.FieldTamperDetected | blockchain/certificate.js:19-32 | with an injective digest, editing any one field of a valid record, hash included, without rehashing makes it invalid |
| Certificates.BoundaryShiftUndetected | blockchain/certificate.js:19-24 | the limit of that detection: moving the last character of the student name to the front of the institution name gives a different record that is still valid |
| Certificates.Certificate.constructor | blockchain/certificate.js:4-13 | a non-empty supplied id is kept and an empty one replaced by a generated one; the fields are stored, the timestamp is `now`, the hash is the recomputation, and the record is valid when all five fields are non-empty |
| Certificates.Certificate.CalculateCertificateHash | blockchain/certificate.js:19-24 | `calculateCertificateHash()` is SHA-256 of the object's current id + student + institution + course + grade + issue date + timestamp, in that order |
| Certificates.Certificate.IsValid | blockchain/certificate.js:27-32 | `isValid()` holds exactly when the five fields are non-empty and the stored hash equals `calculateCertificateHash()` |
| Certificates.Certificate.GetCertificateData | blockchain/certificate.js:35-47 | the payload is tagged as a certificate and copies every field, the timestamp and hash included, without recomputing |
| Certificates.Certificate.GetFormattedCertificate | blockchain/certificate.js:50-62 | its `isValid` field equals `isValid()` and it shows the certificate's fields |
| Certificates.Certificate.FromData | blockchain/certificate.js:65-77 | a fresh certificate whose fields are what `Rebuild` describes: constructed from the payload, then timestamp and hash overwritten with the stored ones |
| Certificates.FromDataRoundTrip | blockchain/certificate.js:65-77 | rebuilding a certificate from its own storable form reproduces all of its fields, and therefore its validity |
| Blocks.BlockPartsJoin | blockchain/block.js:15 | the digested string is index, previous hash, timestamp, serialized payload and nonce joined in that order with no separator |
| Blocks.BlockHash | blockchain/block.js:13-17 | the block digest is SHA-256 of index + previous hash + timestamp + `JSON.stringify(data)` + nonce, in that order |
| Blocks.Target | blockchain/block.js:20 | the mining target is exactly `difficulty` `'0'` characters |
| Blocks.MeetsMeansLeadingZeros | blockchain/block.js:20-22 | the loop's exit test holds exactly when the hash starts with `difficulty` zero characters (a shorter hash never passes) |
| Blocks.FirstNonceUnique | blockchain/block.js:19-25 | mining is deterministic: two consistent blocks with the same fields, both mined to the first passing nonce, are equal |
| Blocks.BlockTamperDetected | blockchain/block.js:13-17 | with injective SHA-256 and serialization, editing any one field of a consistent block, hash included, makes it inconsistent |
| Blocks.Block.constructor | blockchain/block.js:4-11 | the fields are stored, nonce is 0, the hash is the digest of these fields at nonce 0, so the new block is valid |
| Blocks.Block.CalculateHash | blockchain/block.js:13-17 | `calculateHash()` is SHA-256 of the object's current index + previous hash + timestamp + `JSON.stringify(data)` + nonce, in that order |
| Blocks.Block.IsValid | blockchain/block.js:31-33 | `isValid()` holds exactly when the stored hash equals `calculateHash()` over the current fields |
| Blocks.Block.GetBlockInfo | blockchain/block.js:36-45 | the six fields, verbatim |
| Blocks.Block.MineBlock | blockchain/block.js:19-28 | on return the hash meets the target; only nonce and hash change; the nonce never decreases and stays put exactly when the hash already meets the target, in which case the hash is unchanged; after any step the hash is `calculateHash()`, so a valid block stays valid; no nonce skipped over meets the target |
| Ledger.SelectedBelowSpec | blockchain/blockchain.js:47-49 | a scan keeps exactly the certificate blocks at index 1 or more that pass its filter, in strictly increasing index order |
| Ledger.SelectedBelowPrefix | blockchain/blockchain.js:47-56 | scanning further only adds indices at the end, so the first hit of a partial scan is the first hit overall |
| Ledger.SelectedBelowExtend | blockchain/blockchain.js:39 | a block appended later does not change what a scan keeps below it |
| Ledger.SelectedAppend | blockchain/blockchain.js:39 | appending a block extends every scan by its index exactly when it passes the filter |
| Ledger.EmptySearchListsAll | blockchain/blockchain.js:61-92 | an empty search term selects exactly the certificates the full listing selects |
| Ledger.FindById | blockchain/blockchain.js:46-57 | the reported index is the first certificate block from index 1 on with an equal id, and none is reported only when no such block exists |
| Ledger.FindByIdAppend | blockchain/blockchain.js:46-57 | after an append the earliest block with an id still wins, and an id new to the chain is found at the new block |
| Ledger.ChainValidAppend | blockchain/blockchain.js:111-128 | a chain stays valid under an append exactly when the new block is consistent and linked to the last hash |
| Ledger.TamperedBlockBreaksChain | blockchain/blockchain.js:111-128 | with injective digests, editing one field of any block after the genesis block makes the chain check fail |
| Ledger.GenesisNotChecked | blockchain/blockchain.js:112 | the genesis block is never checked: changing it while keeping its hash keeps a valid chain valid |
| Ledger.InstitutionsOfMembers | blockchain/blockchain.js:135-139 | the set built from the listing holds exactly the institution names of its entries |
| Ledger.MatchedInstitutions | blockchain/blockchain.js:135-144 | the institutions of a full listing are exactly those of the chain's certificate blocks |
| Ledger.IssuedCertificateVerifies | blockchain/blockchain.js:39-58 | after a valid certificate with an id new to the chain is appended, lookup finds it at the new block and whatever `fromData` rebuilds from it is valid |
| Ledger.InfoOf | blockchain/blockchain.js:153 | one info per block, each the block's `getBlockInfo()`, in chain order |
| Ledger.Blockchain.constructor | blockchain/blockchain.js:5-19 | a new ledger holds exactly one block (index 0, previous hash `"0"`, the genesis payload, nonce 0, its own digest), the difficulty is 2, and that chain is valid |
| Ledger.Blockchain.CreateGenesisBlock | blockchain/blockchain.js:12-19 | the genesis block has index 0, previous hash `"0"`, a genesis payload with the fixed message, nonce 0 and is never mined |
| Ledger.Blockchain.GetLatestBlock | blockchain/blockchain.js:21-23 | the last block of the (never empty) chain |
| Ledger.Blockchain.GetFullChain | blockchain/blockchain.js:152-154 | one info per block, each the block's `getBlockInfo()`, in chain order |
| Ledger.Blockchain.AddCertificate | blockchain/blockchain.js:26-43 | an invalid certificate fails with "Invalid certificate data" and leaves the chain unchanged; a valid one appends exactly one fresh block, with earlier blocks unchanged, at the old length, linked to the old latest hash, carrying the certificate's payload, consistent, meeting the difficulty at the first passing nonce; a valid chain stays valid |
| Ledger.Blockchain.NewMinedBlock | blockchain/blockchain.js:31-38 | the built and mined block has the given fields, a consistent hash and the first nonce that meets the target |
| Ledger.Blockchain.Push | blockchain/blockchain.js:39 | the chain grows by exactly that block, earlier infos unchanged, and a consistent block linked to the latest hash keeps a valid chain valid |
| Ledger.Blockchain.GetCertificateById | blockchain/blockchain.js:46-57 | `null` exactly when no certificate block from index 1 on has the id; otherwise the first such block, its info, its index and the record `fromData` rebuilds from it |
| Ledger.Blockchain.CollectMatches | blockchain/blockchain.js:61-108 | one entry per certificate block from index 1 on that passes the filter, in chain order, each with its info, index and rebuilt record |
| Ledger.Blockchain.GetCertificatesByStudent | blockchain/blockchain.js:61-75 | exactly the certificate blocks whose lower-cased student name includes the lower-cased query, in chain order |
| Ledger.Blockchain.GetCertificatesByInstitution | blockchain/blockchain.js:78-92 | exactly the certificate blocks whose lower-cased institution name includes the lower-cased query, in chain order |
| Ledger.Blockchain.GetAllCertificates | blockchain/blockchain.js:95-108 | exactly the certificate blocks from index 1 on, in chain order |
| Ledger.Blockchain.IsChainValid | blockchain/blockchain.js:111-129 | true exactly when every block from index 1 on is consistent and its previous hash equals the hash of the block before it |
| Ledger.Blockchain.GetBlockchainStats | blockchain/blockchain.js:132-149 | changes nothing; total blocks is the chain length, total certificates the listing's count, institutions the number of distinct names, the validity the chain check and the latest hash the last block's |
| Ledger.Blockchain.DistinctInstitutions | blockchain/blockchain.js:135-139 | the set of institution names of the listing's entries |
| Ledger.Blockchain.VerifyCertificate | blockchain/blockchain.js:157-174 | a miss reports invalid with "Certificate not found in blockchain"; a hit reports the rebuilt record's own validity with the matching message, its formatted view and the block's info; when the id is non-empty that validity is the stored payload's |

## Left out

- `console.log` output (`blockchain/block.js:27`, `blockchain/blockchain.js:41`, `:118`, `:124`) is I/O and has no effect on state.
- The `pendingCertificates` and `miningReward` fields (`blockchain/blockchain.js:8-9`) are never read or written by any operation.
- The server, the PDF generator and the front end are not part of this model. They are HTTP plumbing, a foreign PDF library and a UI. The server checks field truthiness (`backend/server.js:87`) before calling the core; the core repeats that test in `isValid`.
- SHA-256 and `JSON.stringify` are uninterpreted parameters. Their collision resistance is never assumed globally: it is a hypothesis of the lemmas that need it.
- Blocks.Block.MineBlock: termination is not proved from the digest, which is impossible. The caller passes a ghost `goal`: the current hash already passes, or a later nonce whose hash does. `Ledger.Blockchain.AddCertificate` requires that such a nonce exists for a valid certificate.
- Certificates.Certificate.GetFormattedCertificate: `issuedTimestamp` uses `toLocaleString`, which depends on the locale. The model keeps the raw millisecond timestamp instead.
- Fields that are `undefined`, `null` or not strings are left out. Every field is a string and falsy means empty. `fromData` is modelled only on certificate payloads, the only ones the ledger passes to it.
- Case mapping covers ASCII letters only. `String(n)` is modelled for non-negative integers, the only numbers the core prints.
- The block constructor's default `previousHash = ''` (`blockchain/block.js:4`) is left out, because every caller passes the previous hash.
- Blocks.Block.GetBlockInfo: the source's info shares the block's `data` object with the caller, and `getFullChain`, `getCertificateById` and `verifyCertificate` hand it out. `BlockInfo` is a copy, so tampering with a chained block through a query result is not modelled.
- Queries return values (`Match`, `Verification`, `Stats`), not fresh JavaScript objects. The rebuilt `Certificate` objects appear as their `CertificateRecord` values, and `Format` on that record gives `getFormattedCertificate()`.
- `difficulty` is a constant 2. The source keeps it in a mutable field, but no operation writes to it.
