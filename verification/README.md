# Verified model of the Grain core and client store

This project models the deterministic core of Grain in Dafny and proves what the rest of the system
relies on. It covers five connected parts.

1. **Canonical CBOR** (`Cbor`, `CborParser`, `CborLocality`, `CborCanonical`, `CborText`, `CborModes`, `CborErrors`,
   `CborKeyOrder`, `CborSeq`, `SetArrays`). The cursor-moving parser and the appending encoder are classes and methods proved equal
   to a decoder and an encoder written as functions; about those, the main theorem says that in both
   canonical modes the decoder accepts exactly the encoder's output. What each of the three modes admits, what counts
   as text and which failure is reported otherwise is written out on bytes and values. Deterministic encoding follows
   section 4.2 of RFC 8949, sequences section 2 of RFC 8742.
2. **The client store** (`Identity`, `IdentityForms`, `IdentityTheorems`, `EventIds`, `Keyed`, `Store`, `MemoryStore`,
   `StoreInvariant`, `StoreTheorems`, `SyncTheorems`, `Replicas`, `StoreHistory`, `StoreOutcomes`, `ImportOutcomes`). Nine operations over scans,
   identity, counters and lifecycle events. `MemoryStore` is the store field by field, with its rollback transaction; each
   operation is proved to be one step of the state machine in `Store`, and `StoreOutcomes` and `ImportOutcomes` say field
   by field what a step answers and leaves behind. The invariant of every run, snapshot
   restore, counter safety, permanence of revocation, the merge as a least upper bound and the convergence
   of replicas are proved about that machine.
3. **Ledger reducer and manifest resolver** (`Ledger`, `LedgerTheorems`, `LedgerReadings`, `LedgerOrder`, `Manifest`). Reductions
   over lists of events, with closed forms and the exact condition under which only the set of events counts.
4. **From issuing to scanning** (`ServingOffer`, `ServingOfferTheorems`, `Cose`, `CoseTheorems`, `Ed25519Inputs`, `Base45`,
   `Scan`, `ScanTheorems`, `Issuer`). Whatever the issuer accepts, a scanner accepts, byte for byte; and what a scanner
   accepts is characterised from the QR text down to the entries of the offer. COSE_Sign1 follows sections 4.2 and 4.4 of RFC 9052, Base45
   section 4 of RFC 9285.
5. **Bit-level pieces** (`Cid`, `HandleTable`). Base32 grouping (section 6 of RFC 4648), varints, and the
   generation-tagged handles of the wasm bindings.

`Prelude`, `Lex`, `Texts`, `StableSort`, `Hex` and `Decimal` hold shared value types, orders, UTF-8, the stable sort of the
standard library, and the two number-to-text notations.

## What is assumed

- Hashing, signature checking and signing, zlib and standard Base64 are function values in `Scan.World`,
  `Cose.Crypto` and `Issuer.Signer`. The laws used are predicates named where they are needed:
  `Scan.Base64Laws` (a bijection onto the texts it accepts, with no white space at either end),
  `Scan.ZlibLaw` (inflation undoes deflation) and `Issuer.SignsProperly` (the signature made for this payload passes the
  input checks and verifies).
- SHA-256 is never assumed injective. Where identifiers must determine contents, `SyncTheorems.CollisionFree`
  says that no two of the finitely many inputs the two stores have hashed agree on the first half of their
  digests, and `EventIds.OneEventPerId` and `Scan.OneRecordPerScanId` ask it of the two records at hand.
- Random keys are arguments of the operations, `None` standing for a failed random source. A JSON or Base64
  wrapper around a bundle, envelope or snapshot is the decoded value, `None` standing for failed decoding.

## Results that qualify a claim

- **Counters can go back.** The comment at core/rust/grain-client-core/src/memory_store.rs:78 says that a
  restore must not reissue a used number. Restoring a snapshot without an identity keeps the counters but
  drops the identity; importing an earlier export of the same identity afterwards takes that export's counters,
  and the root's next number has been issued before (`StoreTheorems.CountersCanGoBack`). The exact condition
  under which no operation can lower a counter is `StoreTheorems.CountersSafeIff`.
- **Revocation holds until a restore reinstates the device.** One operation authorises a revoked device again:
  restoring a valid snapshot whose identity authorises it (`StoreHistory.ReauthorisedIff`, with
  `StoreHistory.RestoreUndoesRevocation` as the instance). Along runs that hold an identity before each step
  and whose restores bring identities that revoke the device too, revocation is permanent
  (`StoreHistory.RevokedForGood`); without restores it always is (`StoreHistory.RevokedWithoutRestore`).
- **Numbers are new on one replica, not across replicas.** Two clients of one root that each add a device while
  apart log both grants under one number; after a sync the store holds both
  (`StoreHistory.OfflineGrantsShareANumber`), which is what the ledger reducer treats as a sequence conflict.
  `StoreHistory.SharedNumberIff` says exactly when: the other replica already held an event under that number,
  which it did not if its root counter was not ahead.
- **Device names and the active key do not converge.** Merging keeps the local name of a shared device and the
  local active key. Names agree exactly when they agreed before (`IdentityTheorems.NamesConvergeIff`), active
  keys exactly when they did or one choice is revoked (`IdentityTheorems.ActiveConvergesIff`).
- **A second import is not always idle.** A store without identity takes a foreign bundle's texts as they
  are; importing it again then sorts revocations and rewrites counters in canonical decimal and reports
  something new. `SyncTheorems.ImportAgain` says exactly when it is idle, `SyncTheorems.SecondImportCanChange`
  gives a bundle on which it is not.
- **Ledger order independence** is not unconditional: `LedgerOrder.OrderMattersOtherwise` shows two bodies under
  one identity where the first wins. Content addressing is enough but not needed; `LedgerOrder.SameSumsIff`
  gives the exact condition on the sums, and `LedgerOrder.SameAnswersIff` carries it over to the answers.
- **Key orders.** On text keys the length-first order of the codec is the plain bytewise order; on mixed key
  types, which generic mode allows, it need not be (`CborKeyOrder.MixedKeyOrdersDiffer`;
  `CborKeyOrder.KeyOrdersAgreeIff` says exactly when).
- **Guards that never fire**: the re-encode comparisons of COSE verification, the event re-check on identity
  import in a valid store, the closing validation of a merge, the `used == 0` branch of the sequence parser,
  and the `seen` branch of text sets are each proved idle.

## Model

| member | source | states |
|---|---|---|
| CborParser.Parser.ReadU8 | core/rust/grain-core/src/cbor.rs:124-131 | the next byte and a cursor one further on, or truncation with the cursor unmoved |
| CborParser.Parser.ReadExact | core/rust/grain-core/src/cbor.rs:133-148 | the next n bytes, or truncation |
| CborParser.Parser.ParseUintArg | core/rust/grain-core/src/cbor.rs:150-187 | reads the argument that `Cbor.UintArg` describes on the remaining input and advances by its width |
| CborParser.Parser.ParseItem | core/rust/grain-core/src/cbor.rs:189-341 | the cursor parser answers as `Cbor.Item` does on the remaining input, for every option set and depth, and advances by exactly the bytes consumed |
| CborParser.Parser.ParseSimple | core/rust/grain-core/src/cbor.rs:299-337 | major type 7: the accepted simple values, and which failure the rest give |
| CborParser.Parser.ParseBody | core/rust/grain-core/src/cbor.rs:201-298 | the content after the head, per major type, with limits before content, as `Cbor.Body` on the remaining input; text as `CborText` describes it |
| CborParser.Parser.ParseArray | core/rust/grain-core/src/cbor.rs:226-237 | the accumulating loop yields the whole array and stops at the first failing item |
| CborParser.Parser.ParseMap | core/rust/grain-core/src/cbor.rs:238-282 | the loop with `seen` and `prev_key_encoded` yields the whole map and stops at the first failing entry |
| CborParser.Parser.ParsePair | core/rust/grain-core/src/cbor.rs:247-278 | key, then the key checks in source order on its raw bytes, then value |
| CborParser.RunParseOne | core/rust/grain-core/src/cbor.rs:343-347 | one item off the front, with the number of bytes consumed |
| CborParser.WriteHead | core/rust/grain-core/src/cbor.rs:429-445 | appends the shortest head and nothing else |
| CborParser.WriteCanonical | core/rust/grain-core/src/cbor.rs:373-427 | appends the canonical encoding to whatever the buffer held |
| CborParser.WriteEntries | core/rust/grain-core/src/cbor.rs:394-409 | map entries go out in the order of their encoded keys, key before value |
| CborCanonical.HeadOfArg | core/rust/grain-core/src/cbor.rs:150-187 | an argument read canonically is written back by the very same head bytes |
| CborCanonical.ArgOfHead | core/rust/grain-core/src/cbor.rs:429-445 | every 64-bit argument's head reads back as that number, whatever follows |
| CborCanonical.ItemIsEncoding | core/rust/grain-core/src/cbor.rs:189-341 | an accepted item's bytes are the encoding of the value returned, and that value is well formed with its maps in order |
| CborCanonical.EncodingIsItem | core/rust/grain-core/src/cbor.rs:373-427 | the encoding of an ordered well-formed value, followed by anything, is accepted as that value |
| CborCanonical.CanonicalItems | core/rust/grain-core/src/cbor.rs:189-427 | acceptance as v with u bytes consumed, if and only if v is well formed and ordered and its u-byte encoding starts the input |
| CborCanonical.CanonicalParseExactly | core/rust/grain-core/src/cbor.rs:349-355 | in strict DAG-CBOR and generic canonical mode `parse_exact` accepts exactly the encodings of ordered well-formed values; `CborModes` says which those are |
| CborCanonical.OneEncodingPerValue | core/rust/grain-core/src/cbor.rs:349-355 | no value has two accepted encodings |
| CborCanonical.CanonSameEncoding | core/rust/grain-core/src/cbor.rs:394-409 | the encoder does not see the order in which maps, at any level, list their entries |
| CborCanonical.CanonIsAccepted | core/rust/grain-core/src/cbor.rs:394-409 | sorting the maps of a well-formed value with distinct keys gives an accepted value |
| CborCanonical.RoundTrip | core/rust/grain-core/src/cbor.rs:343-427 | for every well-formed value with distinct keys and every suffix, decoding its encoding gives the value with maps sorted and consumes exactly the encoding |
| CborCanonical.PrefixFree | core/rust/grain-core/src/cbor.rs:373-427 | one encoding is a prefix of another only when the values are equal up to map order |
| CborCanonical.OrderedInjective | core/rust/grain-core/src/cbor.rs:373-427 | the encoder is injective on ordered values |
| CborText.StringsAreValid | core/rust/grain-core/src/cbor.rs:215-225 | the UTF-8 bytes of every string pass the text check |
| CborText.ValidIff | core/rust/grain-core/src/cbor.rs:215-225 | bytes pass the text check if and only if they are the UTF-8 form of a string of Unicode scalar values |
| CborText.TextItems | core/rust/grain-core/src/cbor.rs:215-225 | in every mode, whatever follows, the encoding of a string within the size limit is read as that string, and of a longer one is Limit |
| CborText.DecodedText | core/rust/grain-core/src/cbor.rs:215-225 | decoded text is the UTF-8 form of a string within the limit |
| CborText.TextRoundTrip | core/rust/grain-core/src/cbor.rs:349-355 | the encoding of every string within the limit decodes to that string |
| CborModes.StrictAcceptsExactly | core/rust/grain-core/src/cbor.rs:69-77 | strict DAG-CBOR accepts exactly the encodings of ordered values with text keys, tag 42 over bytes that start with zero, no undefined and no simple values, 32 levels, 4096 entries or items, 1024 bytes of text |
| CborModes.GenericAcceptsExactly | core/rust/grain-core/src/cbor.rs:79-86 | generic canonical mode likewise, with any keys and tags, undefined, and simple values outside 20 to 31 |
| CborModes.LenientAcceptsExactly | core/rust/grain-core/src/cbor.rs:88-98 | lenient mode accepts exactly the spellings of values: every head in any width that fits, no two keys of a map spelled alike |
| CborModes.HeadForms | core/rust/grain-core/src/cbor.rs:429-445 | the bytes of a head, for each of its five widths |
| CborModes.MajorTypes | core/rust/grain-core/src/cbor.rs:373-427 | which major type each kind of value is written under |
| CborModes.EmptyOnTheWire | core/rust/grain-core/src/cbor.rs:373-427 | the single bytes of empty strings, arrays and maps and of the values without argument |
| CborErrors.AfterHead | core/rust/grain-core/src/cbor.rs:189-200 | a shortest head is read alike in every mode and leads to the content |
| CborErrors.ReservedHeads | core/rust/grain-core/src/cbor.rs:150-187 | additional information 28 to 30 is an invalid initial byte and 31 NonCanonical, in every mode |
| CborErrors.WiderThanNeeded | core/rust/grain-core/src/cbor.rs:150-187 | an argument in a wider form than it needs is NonCanonical exactly in the canonical modes |
| CborErrors.DeepArrays | core/rust/grain-core/src/cbor.rs:189-193 | arrays opened past the depth limit are Limit, whatever follows |
| CborErrors.TooMany | core/rust/grain-core/src/cbor.rs:226-243 | too many items or entries are Limit before any is read |
| CborErrors.BadText | core/rust/grain-core/src/cbor.rs:215-225 | bytes that no string has as its UTF-8 form are NonCanonical as text |
| CborErrors.ShortString | core/rust/grain-core/src/cbor.rs:133-148 | a string that ends early is truncated |
| CborErrors.TagVerdict | core/rust/grain-core/src/cbor.rs:283-298 | a tag other than 42 is TagForbidden where only 42 may stand, and tag 42 over anything but a CID is BadCidLink in strict mode |
| CborErrors.SimpleVerdict | core/rust/grain-core/src/cbor.rs:299-337 | every byte of major type 7 with its value or failure, in every mode; floats are refused |
| CborErrors.MapVerdict | core/rust/grain-core/src/cbor.rs:238-282 | entries in any order: the map if the keys ascend, else DupMapKey or NonCanonical by the first key that does not |
| CborErrors.KeyMustBeText | core/rust/grain-core/src/cbor.rs:247-255 | a map that starts with a non-text key is NonCanonical in strict mode |
| CborErrors.WholeInput | core/rust/grain-core/src/cbor.rs:349-355 | anything behind the one item is NonCanonical |
| CborLocality.ItemExtends | core/rust/grain-core/src/cbor.rs:189-341 | any verdict but truncation survives every continuation of the input |
| CborLocality.PrefixIsTruncated | core/rust/grain-core/src/cbor.rs:124-148 | an accepted item cut short anywhere is reported as truncated, in every mode |
| CborLocality.ItemCut | core/rust/grain-core/src/cbor.rs:189-341 | dropping bytes behind an accepted item changes nothing |
| CborLocality.SuffixIsIrrelevant | core/rust/grain-core/src/cbor.rs:343-347 | acceptance depends only on the bytes consumed |
| CborKeyOrder.HeadOrder | core/rust/grain-core/src/cbor.rs:429-445 | a smaller argument has a head that is no longer and bytewise smaller, whatever follows |
| CborKeyOrder.TextKeyOrders | core/rust/grain-core/src/cbor.rs:369-371 | on text keys the codec's order, the bytewise order of encodings and the length-first order of the raw text agree |
| CborKeyOrder.KeyOrdersAgreeIff | core/rust/grain-core/src/cbor.rs:369-371 | on number and string keys the two RFC orders agree exactly within one type, or when the key of the lower type is encoded no longer |
| CborKeyOrder.MixedKeyOrdersDiffer | core/rust/grain-core/src/cbor.rs:369-371 | two non-text keys on which length-first and bytewise order differ |
| CborSeq.ParseStream | core/rust/grain-core/src/cborseq.rs:7-60 | the loop answers as the recursive cutting of the stream does, limits and error choice included; it ends, and its `used == 0` branch is never taken |
| CborSeq.AcceptedIffSplit | core/rust/grain-core/src/cborseq.rs:7-60 | within limits a stream is accepted if and only if it divides into whole items; the division is unique and the answer is one hash per item in order |
| CborSeq.StreamsConcatenate | core/rust/grain-core/src/cborseq.rs:7-60 | accepted streams concatenate to concatenated answers, or to Limit when a limit is passed |
| CborSeq.PrefixesOfAccepted | core/rust/grain-core/src/cborseq.rs:39-55 | a prefix of an accepted stream is accepted exactly at item boundaries and otherwise reports CborseqTruncated |
| CborSeq.StreamVerdict | core/rust/grain-core/src/cborseq.rs:7-60 | the verdict on whole items followed by what is no item: the limits, 64 million bytes and a million items, then one hash per item, CborseqTruncated, CborseqInvalidInitialByte or CborseqGarbageTail |
| CborSeq.EveryStream | core/rust/grain-core/src/cborseq.rs:7-60 | every stream divides so |
| SetArrays.ValidateTextSet | core/rust/grain-core/src/dagcbor.rs:85-131 | the loops over total size, order and duplicates give the first fault in source order; the `seen` branch is dead |
| SetArrays.TextSetAccepted | core/rust/grain-core/src/dagcbor.rs:85-131 | accepted if and only if all items are text, strictly increasing, and within the crit limits |
| SetArrays.TextSetUnique | core/rust/grain-core/src/dagcbor.rs:106-128 | a set of texts has at most one accepted arrangement |
| SetArrays.TextSetExists | core/rust/grain-core/src/dagcbor.rs:106-128 | every finite set of texts has an accepted arrangement, its sorted one |
| SetArrays.ValidateItemSet | core/rust/grain-core/src/typed_object.rs:316-341 | item faults first, then the first adjacent pair of encodings out of order or equal |
| SetArrays.ItemSetAccepted | core/rust/grain-core/src/typed_object.rs:316-341 | accepted if and only if every item is valid and encodings strictly increase |
| SetArrays.ItemSetUnique | core/rust/grain-core/src/typed_object.rs:316-341 | decoded structured items have at most one accepted arrangement, by injectivity of the encoder |
| SetArrays.ItemSetExists | core/rust/grain-core/src/typed_object.rs:316-341 | and distinct valid ones have one |
| SetArrays.TextSetVerdict | core/rust/grain-core/src/dagcbor.rs:85-131 | which fault a text set has: not an array, more than 64 or a non-text or more than 4096 bytes in critical fields, then the first text not above its predecessor, a repeat or out of order |
| SetArrays.ItemSetVerdict | core/rust/grain-core/src/typed_object.rs:316-341 | which fault a set of structured items has: that of the first faulty item, else the first encoding not above its predecessor |
| Base45.Base45Encode | core/rust/grain-issuer-kit/src/lib.rs:162-181 | the chunk loop writes the Base45 text of the whole input |
| Base45.Base45Decode | core/rust/grain-core/src/qr.rs:36-78 | the cursor loop decodes the whole text or fails where the grouping fails |
| Base45.DecodeOfEncode | core/rust/grain-issuer-kit/src/lib.rs:162-181 | decoding undoes encoding on all byte strings |
| Base45.EncodeOfDecode | core/rust/grain-core/src/qr.rs:36-78 | encoding undoes decoding on all accepted texts, so no two decode alike |
| Base45.EncodedDigits | core/rust/grain-core/src/qr.rs:9-10 | every pair of bytes is three characters of the alphabet that denote its number in base 45, least significant first, a last odd byte two |
| Cid.Base32 | core/rust/grain-core/src/cid.rs:40-63 | the shift-register loop writes the input's bits in groups of five, most significant first, zero-padded, in spite of stale bits in its 32-bit buffer |
| Cid.Base32Injective | core/rust/grain-core/src/cid.rs:40-63 | one letter per five bits rounded up, and different inputs of any lengths give different texts |
| Cid.Base32Denotes | core/rust/grain-core/src/cid.rs:40-63 | read in base 32 over the alphabet a-z2-7 the text is the number the bytes denote, shifted by the zero bits that fill the last letter |
| Cid.PushVarint | core/rust/grain-core/src/cid.rs:26-38 | appends the base-128 groups of the number, least significant first, continuation bit on all but the last |
| Cid.VarintPrefixFree | core/rust/grain-core/src/cid.rs:26-38 | varints are self-delimiting |
| Cid.VarintDenotes | core/rust/grain-core/src/cid.rs:26-38 | a varint denotes its number in base 128, least significant first; the top bit is set on all bytes but the last, and no shorter form exists |
| Cid.DeriveCid | core/rust/grain-core/src/cid.rs:5-17 | the CID text of the digest: version, codec, hash code, length, digest |
| Cid.CidDeterminesDigest | core/rust/grain-core/src/cid.rs:5-17 | equal CID texts come from equal digests |
| HandleTable.Table.StoreNew | core/rust/grain-client-wasm/src/lib.rs:47-63 | reuses the first free slot, else grows, else returns 0 with the table unchanged |
| HandleTable.Table.StoreFree | core/rust/grain-client-wasm/src/lib.rs:66-79 | a current handle empties its slot and moves the generation on; any other handle changes nothing |
| HandleTable.Table.WithStoreMut | core/rust/grain-client-wasm/src/lib.rs:428-438 | a current handle updates its own slot only; any other handle changes nothing |
| HandleTable.LiveHandlesDistinct | core/rust/grain-client-wasm/src/lib.rs:440-458 | in every run live handles are non-zero, distinct, and resolve to their own slot |
| HandleTable.NewFailsWhenFull | core/rust/grain-client-wasm/src/lib.rs:47-63 | in every run `new` returns 0 exactly when 65535 stores are live, and otherwise a handle to a slot that held none |
| HandleTable.StaleHandles | core/rust/grain-client-wasm/src/lib.rs:416-458 | an old handle resolves exactly when its slot is live and was freed a multiple of 65535 times since; never after 1 to 65534 frees |
| HandleTable.ResolveExactly | core/rust/grain-client-wasm/src/lib.rs:416-458 | a number refers to a live slot if and only if it is 65536 times the generation plus the slot counted from one |
| HandleTable.NewExactly | core/rust/grain-client-wasm/src/lib.rs:47-63 | a new store takes the first free slot under its generation, else a new one under generation 1, else nothing at 65535 slots |
| HandleTable.FreeExactly | core/rust/grain-client-wasm/src/lib.rs:66-79 | freeing empties the slot referred to and moves its generation on, from 65535 to 1 |
| Ledger.CollectConflicted | core/rust/grain-core/src/ledger.rs:140-153 | the sequence numbers under which two events carry different payloads |
| Ledger.CollectKeys | core/rust/grain-core/src/ledger.rs:31-59 | keys granted and revoked by unconflicted root events, and whether someone else tried |
| Ledger.SelectAuthorized | core/rust/grain-core/src/ledger.rs:61-80 | the events that count, in order, and whether a revoked key lost any |
| Ledger.ReduceLedger | core/rust/grain-core/src/ledger.rs:24-138 | below 2^63 events the 128-bit sums cannot overflow and the passes give the reduction that `Ledger.Reduce` defines on the event list and `LedgerReadings` describes |
| LedgerTheorems.ReduceIsSumOfFirsts | core/rust/grain-core/src/ledger.rs:24-138 | for every list, over the first counted intake event of each identity: Schema for a misshapen reading, Overflow outside the signed 64-bit range, else the sum of the means, the sum of the variances and the diagnostics of the event set |
| LedgerTheorems.ReduceIsClosedForm | core/rust/grain-core/src/ledger.rs:24-138 | under content addressing the same over the set of distinct counted intake events |
| LedgerOrder.OrderAndRepetitionIrrelevant | core/rust/grain-core/src/ledger.rs:24-138 | lists with the same members have the same totals, diagnostics or error, if counted events of one identity contribute alike or some identity is misshapen throughout |
| LedgerOrder.SameSumsIff | core/rust/grain-core/src/ledger.rs:82-116 | order and repetition have no part in the sums if and only if that condition holds |
| LedgerOrder.OrderShows | core/rust/grain-core/src/ledger.rs:82-116 | without it two permutations of one list add up differently |
| LedgerOrder.SameAnswersIff | core/rust/grain-core/src/ledger.rs:24-138 | the condition decides the answers themselves wherever no order overflows |
| LedgerOrder.ContentAddressedAgrees | core/rust/grain-core/src/ledger.rs:82-116 | content addressing meets the condition |
| LedgerOrder.OrderMattersOtherwise | core/rust/grain-core/src/ledger.rs:87-94 | two orders of two events with one identity give different totals |
| LedgerTheorems.ErrorsExactly | core/rust/grain-core/src/ledger.rs:96-123 | for every list, Schema exactly on a misshapen reading among those added up, else Overflow exactly when an exact sum leaves the signed 64-bit range |
| LedgerTheorems.RetroactiveRevoke | core/rust/grain-core/src/ledger.rs:48-80 | for every list, a root revoke at an unused root number, inserted anywhere, gives the totals of deleting that device's events |
| LedgerReadings.ReadingExactly | core/rust/grain-core/src/ledger.rs:96-113 | a reading is the number under mean.kcal, in the signed 64-bit range, and the one under var.kcal, not negative |
| LedgerReadings.GrantedKeyExactly | core/rust/grain-core/src/ledger.rs:31-47 | a grant names the text under grant_ak |
| LedgerReadings.RevokedKeyExactly | core/rust/grain-core/src/ledger.rs:48-59 | a revoke names the text under revoke_ak |
| LedgerReadings.CountsExactly | core/rust/grain-core/src/ledger.rs:61-80 | an event counts if and only if no other has its key and number with another payload, and its key is the root or granted and not revoked by the root |
| LedgerReadings.AddedExactly | core/rust/grain-core/src/ledger.rs:82-116 | added up are the counting intake events at the first place of their key, number and payload |
| LedgerReadings.TotalsExactly | core/rust/grain-core/src/ledger.rs:118-137 | the totals are the sum of the means and the sum of the variances, each under kcal, with the diagnostics |
| LedgerReadings.DiagnosticsExactly | core/rust/grain-core/src/ledger.rs:24-80 | SeqConflict, AkRevoked and UnauthorizedGrantIgnored, in this order, each on its own condition on the events |
| Manifest.ResolveManifest | core/rust/grain-core/src/manifest.rs:27-113 | the least capability put with a single content hash; unresolvable exactly on an eligible tombstone or when none is left; conflicts flagged |
| Manifest.LeastIsUnique | core/rust/grain-core/src/manifest.rs:78-89 | at most one capability can be the answer |
| Manifest.DependsOnEligibleSetOnly | core/rust/grain-core/src/manifest.rs:27-96 | order, repeats and ineligible records never change the answer |
| Manifest.ManifestAnswer | core/rust/grain-core/src/manifest.rs:27-113 | on the records: ManifestOp exactly if one is neither a put with both fields nor a delete with none; a tombstone ends it; else the bytewise least capability that all its puts give one content hash, and a diagnostic exactly if one is put with two |
| ServingOffer.IssuerAcceptsWhatScannersAccept | core/rust/grain-issuer-kit/src/lib.rs:200-234 | the issuer accepts exactly the payloads the scanner's validator accepts for its key; which those are is `ServingOfferTheorems.OfferAcceptedExactly` |
| ServingOfferTheorems.OfferAcceptedExactly | core/rust/grain-core/src/typed_object.rs:15-120 | a payload is accepted for a key identifier if and only if it is at most 2048 bytes of strict DAG-CBOR whose map has only the nine fields, v 1, t ServingOffer, the 16-byte identifier as issuer_kid, serving_g, mean and var in range, nonce, ext and crit as allowed, and CID links only |
| ServingOfferTheorems.OfferVerdict | core/rust/grain-core/src/typed_object.rs:15-120 | which diagnostic is reported otherwise, in the order of the checks |
| ServingOfferTheorems.LinksAreCids | core/rust/grain-core/src/typed_object.rs:343-375 | a link passes if and only if it is a zero byte and the bytes of an identifier as `Cid.DeriveCid` makes it, for some 32-byte digest |
| ServingOfferTheorems.IssuerVerdict | core/rust/grain-issuer-kit/src/lib.rs:200-234 | the issuer's error: strict decoding and schema first, then type, missing and mismatched key identifier, then the scanner's diagnostic |
| Cose.LeBytesLessThan | core/rust/grain-core/src/cose.rs:254-267 | the scan from the top byte compares the numbers the 32 bytes denote |
| Cose.VerifyCose | core/rust/grain-core/src/cose.rs:74-203 | the header loop and checks give the verdict of `Cose.VerifyWith` for every message, key and external data |
| Cose.RecheckIsIdle | core/rust/grain-core/src/cose.rs:85-130 | the two re-encode comparisons never reject |
| Cose.SigStructureBytes | core/rust/grain-core/src/cose.rs:177-183 | the bytes signed: the context string, the protected header, no external data, the payload |
| Cose.CoseArrayBytes | core/rust/grain-issuer-kit/src/lib.rs:142-153 | the bytes of the message: header, an empty map, payload, signature |
| CoseTheorems.AcceptedExactly | core/rust/grain-core/src/cose.rs:74-203 | a message is accepted with this payload and key identifier if and only if the identifier is the first half of the key's digest, the bytes are, one by one, the four-item message of RFC 9052 over the two-field header for some signature, and that signature passes the input checks and verifies over the written-out signed bytes |
| CoseTheorems.OneMessagePerSignature | core/rust/grain-core/src/cose.rs:74-203 | accepted messages under one key are equal exactly when payload and signature are: header and envelope leave no room for variation |
| CoseTheorems.RefusedWith | core/rust/grain-core/src/cose.rs:74-130 | which refusal: the three short forms of tag 18 first, then what the decoder says of message and header, else CoseProfile; external data is always refused |
| Ed25519Inputs.InputsExactly | core/rust/grain-core/src/cose.rs:205-267 | the input checks pass if and only if both points have a y below 2^255 - 19 that is none of the five of small order, and the scalar is below the group order, in numbers |
| Ed25519Inputs.OrderEight | core/rust/grain-core/src/cose.rs:17-64 | the two tabled order-eight coordinates satisfy the equation of points whose double has y = 0, and are negatives of each other |
| Cose.HeaderEncoding | core/rust/grain-issuer-kit/src/lib.rs:132-140 | the issuer's protected header is canonical, with its exact bytes |
| Cose.EnvelopeEncoding | core/rust/grain-issuer-kit/src/lib.rs:142-153 | for every payload below 2^64 bytes the message is canonical and longer than its payload by exactly 90 bytes and a length head |
| Cose.HonestMessageVerifies | core/rust/grain-core/src/cose.rs:74-203 | the encoding of a message whose signature verifies over the encoded signature structure is accepted, whatever the payload, and gives back payload and key identifier |
| Issuer.IssuePayload | core/rust/grain-issuer-kit/src/lib.rs:71-103 | refuses with the validation error; else signs exactly the bytes that section 4.4 of RFC 9052 prescribes, and returns the texts of the message made of them, of the public key and of the key identifier |
| Issuer.MessageSize | core/rust/grain-issuer-kit/src/lib.rs:71-103 | the payload limit keeps every issued message at or below 2141 bytes |
| Issuer.IssuedIsAccepted | core/rust/grain-client-core/src/scan.rs:37-51 | every issued QR text is accepted under the issuer's key and yields the issuer's exact bytes; the 16 KiB limit is out of reach (what else is accepted: `ScanTheorems.AcceptedScans`) |
| Scan.PreparedIsValid | core/rust/grain-client-core/src/accepted_scan.rs:12-38 | a prepared scan record always re-validates |
| Scan.OneRecordPerScanId | core/rust/grain-client-core/src/accepted_scan.rs:12-48 | valid records with one scan identifier are equal, unless the hash collides on them |
| ScanTheorems.Gr1Verdict | core/rust/grain-core/src/qr.rs:12-34 | a text decodes to what inflation yields from the bytes it is the Base45 form of; QrPrefix, Schema and Limit above 16384 bytes otherwise |
| ScanTheorems.WhiteSpace | core/rust/grain-client-core/src/trust.rs:6-20 | a trust text is blank if it has nothing but the 25 white-space characters of Unicode |
| ScanTheorems.ScanVerdict | core/rust/grain-client-core/src/scan.rs:37-51 | which error, step by step: text, trust required, trust invalid, signature, payload; else the record |
| ScanTheorems.AcceptedScans | core/rust/grain-client-core/src/accepted_scan.rs:12-27 | a scan is accepted if and only if the text carries a message, the trust text gives a key, the message is that key holder's for some payload and signature, and the payload is an offer for the key; with the record it becomes |
| ScanTheorems.RecordExactly | core/rust/grain-client-core/src/accepted_scan.rs:29-48 | which stored records re-validate, likewise |
| Decimal.ParseOfPrint | core/rust/grain-client-core/src/identity.rs:147-162 | a counter written as decimal text parses back |
| Decimal.PrintByDigits | core/rust/grain-client-core/src/identity.rs:147-162 | counters are written in decimal digits without leading zeros |
| Decimal.ParseExactly | core/rust/grain-client-core/src/identity.rs:147-162 | the texts read as a number are its decimal form with any leading zeros and at most one plus sign |
| Hex.EncodedDigits | core/rust/grain-client-core/src/identity.rs:220-227 | two lower-case digits a byte, the high one first |
| IdentityForms.BundleExactly | core/rust/grain-client-core/src/identity.rs:249-308 | a bundle validates if and only if it is made of a root key, a secret and device keys: every text encodes them, every identifier is 32 digits of its key's digest, none comes twice, the root is listed, the active key usable, the counters decimal |
| IdentityForms.EventExactly | core/rust/grain-client-core/src/device.rs:109-175 | an event validates if and only if it is a grant or revoke of a listed non-root device, a revoke of a revoked one, under a root number from 1 to the counter, named by the digest of kind, root, number and target |
| IdentityForms.MergesIff | core/rust/grain-client-core/src/identity.rs:105-138 | two valid bundles merge if and only if root, secret and the keys of shared devices agree, else IdentityConflict |
| IdentityForms.MergeContents | core/rust/grain-client-core/src/identity.rs:105-189 | the merged bundle record by record: devices with names, revocations, counter texts and the active key |
| Identity.ValidateBundle | core/rust/grain-client-core/src/identity.rs:249-308 | the checking loops accept exactly the bundles `ValidBundle` describes; a wrong version has its own error |
| Identity.MergeBundle | core/rust/grain-client-core/src/identity.rs:105-189 | the stepwise edit of a working copy ends in the bundle, or the error, that `Merge` gives |
| IdentityTheorems.JoinCommutes | core/rust/grain-client-core/src/identity.rs:105-189 | views join alike in both orders when no device clashes |
| IdentityTheorems.JoinAssociates | core/rust/grain-client-core/src/identity.rs:105-189 | three views join in both groupings, or in neither, with one result |
| IdentityTheorems.JoinIsLeastUpperBound | core/rust/grain-client-core/src/identity.rs:105-189 | the join is above both views and below every view that is; the order is antisymmetric |
| IdentityTheorems.MergeIsJoin | core/rust/grain-client-core/src/identity.rs:105-189 | on valid bundles a merge succeeds if and only if root material agrees and no device clashes, every refusal is a conflict, the result is valid, and its view is the join |
| IdentityTheorems.MergeLayout | core/rust/grain-client-core/src/identity.rs:124-145 | known devices keep their order in front, new ones follow strictly by identifier, revocations are sorted |
| IdentityTheorems.MergeCommutes | core/rust/grain-client-core/src/identity.rs:105-189 | both directions succeed or fail alike, with one view |
| IdentityTheorems.MergeAssociates | core/rust/grain-client-core/src/identity.rs:105-189 | both groupings succeed or fail alike, with one view |
| IdentityTheorems.MergeAgain | core/rust/grain-client-core/src/identity.rs:105-189 | merging the same bundle a second time changes nothing, down to texts and order |
| IdentityTheorems.MergeSelf | core/rust/grain-client-core/src/identity.rs:140-162 | merging a bundle with itself gives that bundle exactly when its revocations are sorted and its counters canonical |
| IdentityTheorems.EventsAreMonotone | core/rust/grain-client-core/src/device.rs:109-160 | a lifecycle event stays valid when the bundle says more |
| IdentityTheorems.EventsSurviveMerge | core/rust/grain-client-core/src/device.rs:109-160 | events valid for either side are valid for the merge |
| IdentityTheorems.NamesConvergeIff | core/rust/grain-client-core/src/identity.rs:119-138 | the two merges list the same device records if and only if shared devices already had one name |
| IdentityTheorems.ActiveConvergesIff | core/rust/grain-client-core/src/identity.rs:164-185 | the two merges have one active key if and only if the sides had one, or either side's choice is revoked by either |
| Texts.Utf8Injective | core/rust/grain-client-core/src/device.rs:170-175 | different texts have different UTF-8 bytes |
| Texts.StringOrder | core/rust/grain-client-core/src/identity.rs:124-145 | comparing texts by code point is comparing their UTF-8 bytes |
| EventIds.TextInjective | core/rust/grain-client-core/src/device.rs:170-175 | under one root the hashed text determines kind, number and target |
| EventIds.OneEventPerId | core/rust/grain-client-core/src/device.rs:92-175 | valid events with one identifier are one event, unless the hash collides on them |
| Keyed.PutAllAdds | core/rust/grain-client-core/src/sync.rs:92-103 | putting a list of records fails exactly on a contradiction; otherwise it adds the missing ones, keeps the rest, and reports whether any was new |
| Keyed.PutListing | core/rust/grain-client-core/src/sync.rs:92-103 | putting all records of another store is the union of the two maps |
| Keyed.ListingIndex | core/rust/grain-client-core/src/memory_store.rs:135-178 | indexing the listing of a map gives the map back |
| Keyed.List | core/rust/grain-client-core/src/memory_store.rs:255-257 | the values in the order of their keys |
| Keyed.IndexChecked | core/rust/grain-client-core/src/memory_store.rs:135-178 | succeeds exactly when every record passes its check and no key repeats, with the map of all records |
| MemoryStore.MemoryClientStore.constructor | core/rust/grain-client-core/src/memory_store.rs:38-40 | a new store is empty and outside a transaction |
| MemoryStore.MemoryClientStore.Begin | core/rust/grain-client-core/src/memory_store.rs:212-227 | refuses nesting, else remembers the state |
| MemoryStore.MemoryClientStore.End | core/rust/grain-client-core/src/memory_store.rs:228-237 | after a failure all four fields are as remembered, else as written |
| MemoryStore.MemoryClientStore.PutAcceptedScan | core/rust/grain-client-core/src/memory_store.rs:240-253 | inserts a new record, finds an equal one, refuses a different one, and refuses outside a transaction |
| MemoryStore.MemoryClientStore.AppendLifecycleEvent | core/rust/grain-client-core/src/memory_store.rs:316-332 | the same for events |
| MemoryStore.MemoryClientStore.SaveIdentityBundle | core/rust/grain-client-core/src/memory_store.rs:265-283 | the bundle is held and the counters are exactly its parsed texts; says whether the bundle is new |
| MemoryStore.MemoryClientStore.ReserveNextSeq | core/rust/grain-client-core/src/memory_store.rs:285-299 | the key's counter goes up by one and is returned, other counters stay, and the 64-bit limit is a conflict |
| MemoryStore.MemoryClientStore.ImportSeqState | core/rust/grain-client-core/src/memory_store.rs:301-314 | the counters are exactly the parsed texts, or a conflict |
| MemoryStore.MemoryClientStore.IdentityCreateRoot | core/rust/grain-client-core/src/identity.rs:21-54 | one step of the machine, described by `StoreOutcomes.CreateRootOutcome` |
| MemoryStore.MemoryClientStore.IdentityImportBundle | core/rust/grain-client-core/src/identity.rs:71-103 | one step of the machine: validate, merge, re-check events, install, or roll back |
| MemoryStore.MemoryClientStore.DeviceAddKey | core/rust/grain-client-core/src/device.rs:12-42 | one step of the machine: a new device with its grant event under a reserved number, or roll back |
| MemoryStore.MemoryClientStore.DeviceRevokeKey | core/rust/grain-client-core/src/device.rs:44-75 | one step of the machine: the revocation with its event; an already revoked key is left alone |
| MemoryStore.MemoryClientStore.DeviceSetActive | core/rust/grain-client-core/src/device.rs:77-90 | one step of the machine: an authorised key becomes active |
| MemoryStore.MemoryClientStore.PairingAcceptEnvelope | core/rust/grain-client-core/src/pairing.rs:60-98 | one step of the machine: install where none is held, recognise an equal identity, refuse another |
| MemoryStore.MemoryClientStore.ScanAccept | core/rust/grain-client-core/src/scan.rs:57-73 | one step of the machine, described by `StoreOutcomes.ScanOutcome` and `ScanTheorems.AcceptedScans` |
| MemoryStore.MemoryClientStore.SyncImportBundle | core/rust/grain-client-core/src/sync.rs:65-126 | one step of the machine: merge, install, put scans and events, all or nothing, and say whether anything was new |
| MemoryStore.MemoryClientStore.CheckSync | core/rust/grain-client-core/src/sync.rs:128-150 | accepts exactly the bundles whose identity, scans and events all validate |
| MemoryStore.MemoryClientStore.SyncExportBundle | core/rust/grain-client-core/src/sync.rs:25-63 | a listing of everything held, in key order; nothing exactly when identity, scans and events are all absent |
| MemoryStore.MemoryClientStore.ExportStoreSnapshot | core/rust/grain-client-core/src/memory_store.rs:42-66 | the same for snapshots |
| MemoryStore.MemoryClientStore.RestoreStoreSnapshot | core/rust/grain-client-core/src/memory_store.rs:68-97 | one step of the machine: records and identity from the snapshot, each counter from whichever side is ahead, or no change |
| MemoryStore.MemoryClientStore.SnapshotMaps | core/rust/grain-client-core/src/memory_store.rs:121-178 | succeeds exactly on valid snapshots and indexes their records |
| MemoryStore.MemoryClientStore.KeepAhead | core/rust/grain-client-core/src/memory_store.rs:78-82 | the pointwise maximum of restored and current counters |
| StoreInvariant.AddDeviceKeeps | core/rust/grain-client-core/src/device.rs:12-42 | adding a device keeps the invariant and every counter |
| StoreInvariant.RevokeDeviceKeeps | core/rust/grain-client-core/src/device.rs:44-75 | so does revoking one, with the root as the fallback active key |
| StoreInvariant.ImportSyncKeeps | core/rust/grain-client-core/src/sync.rs:65-126 | so does a sync import of any bundle whatever |
| StoreInvariant.RestoreKeeps | core/rust/grain-client-core/src/memory_store.rs:68-97 | a restore of any snapshot keeps the invariant and lowers no counter, from every valid store |
| StoreInvariant.StepKeeps | core/rust/grain-client-core/src/memory_store.rs:212-238 | a rejected operation changes nothing; an accepted one keeps the invariant and, from a state with an identity, every counter |
| StoreInvariant.ReachableIsValid | core/rust/grain-client-core/src/memory_store.rs:29-40 | the invariant holds after every run of every length |
| StoreTheorems.SnapshotRestores | core/rust/grain-client-core/src/memory_store.rs:42-178 | a valid store's snapshot is accepted by every store and brings back scans, events and identity, with counters no lower than either side's |
| StoreTheorems.FreshStoreRestores | core/rust/grain-client-core/src/memory_store.rs:42-178 | in a fresh store it brings back the same state, counters equal as numbers |
| StoreTheorems.CountersOnlyRise | core/rust/grain-client-core/src/memory_store.rs:78-90 | along any run that holds an identity before each step, no counter goes back |
| StoreTheorems.CountersSafeIff | core/rust/grain-client-core/src/memory_store.rs:78-90 | no operation can lower a counter if and only if an identity is held or all counters are zero |
| StoreTheorems.CountersCanGoBack | core/rust/grain-client-core/src/memory_store.rs:68-97 | a run (root, device, empty snapshot restored, the root's earlier export imported) after which the same root's next number repeats one already issued |
| StoreTheorems.ReservedIsNew | core/rust/grain-client-core/src/memory_store.rs:285-299 | the root's next number is above that of every event held, and is refused only at the 64-bit limit |
| StoreTheorems.EventsNeverBlockImport | core/rust/grain-client-core/src/identity.rs:86-93 | in a valid store the event re-check never fires; an import of a valid bundle succeeds if and only if the merge does |
| StoreTheorems.PairingHandsOver | core/rust/grain-client-core/src/pairing.rs:21-98 | an envelope from a valid store pairs every store without identity with the same identity and counters; accepting it again changes nothing |
| StoreHistory.AddDeviceDoes | core/rust/grain-client-core/src/device.rs:12-42 | succeeds exactly with a fresh key and a number to log it under; the device map gains that key alone, authorised unless its identifier stood revoked, the root counter and the event log move by one, the rest stays |
| StoreHistory.RevokeDeviceDoes | core/rust/grain-client-core/src/device.rs:44-75 | succeeds exactly for a listed non-root device; the revoked set gains that key alone, a revoked active key gives way to the root, and a repeat changes nothing |
| StoreHistory.SetActiveUndone | core/rust/grain-client-core/src/device.rs:77-90 | setting a key active and then the former one leaves the store exactly as it was |
| StoreHistory.ScansCommute | core/rust/grain-client-core/src/scan.rs:57-73 | accepting two scans in either order gives one store, accepted or not, unless the hash collides on them |
| StoreHistory.OnlyRestoreForgets | core/rust/grain-client-core/src/memory_store.rs:212-238 | every operation but a restore keeps each scan, event, device, revocation, counter and the root material of a valid store |
| StoreHistory.HistoryOnlyGrows | core/rust/grain-client-core/src/memory_store.rs:212-238 | so does every run without a restore |
| StoreHistory.ReauthorisedIff | core/rust/grain-client-core/src/memory_store.rs:68-97 | an operation authorises a revoked device again if and only if it restores a valid snapshot whose identity authorises it |
| StoreHistory.RevokedForGood | core/rust/grain-client-core/src/identity.rs:310-318 | along every run that holds an identity before each step and whose accepted restores revoke the device too, it stays revoked and unauthorised, is never active, and cannot be made active |
| StoreHistory.RevokedWithoutRestore | core/rust/grain-client-core/src/identity.rs:310-318 | in particular along every run without a restore, which holds an identity throughout |
| StoreHistory.RestoreUndoesRevocation | core/rust/grain-client-core/src/memory_store.rs:68-97 | a snapshot from before a revocation makes the device authorised again |
| StoreHistory.SharedNumberIff | core/rust/grain-client-core/src/device.rs:26-37 | after adding a device under its next number and importing another replica's export, a store holds a rival event under that number if and only if the other replica held one; never if its root counter was not ahead |
| StoreHistory.OfflineGrantsShareANumber | core/rust/grain-client-core/src/device.rs:26-37 | two replicas with equal root counters that each add a device and then sync hold two grants under one number with different payloads |
| StoreOutcomes.CreateRootOutcome | core/rust/grain-client-core/src/identity.rs:21-54 | for every store: refused with an identity or without random keys, else the bundle field by field, its secret the one drawn, scans and events as they were |
| StoreOutcomes.AddDeviceOutcome | core/rust/grain-client-core/src/device.rs:12-42 | the four refusals in order, else the device record with its name behind the others, the counter and the grant event, and nothing else |
| StoreOutcomes.RevokeDeviceOutcome | core/rust/grain-client-core/src/device.rs:44-75 | the refusals in order, the idle repeat, else the sorted revocations, the active key, the counter and the revoke event, and nothing else |
| StoreOutcomes.SetActiveOutcome | core/rust/grain-client-core/src/device.rs:77-90 | refused without identity or for an unusable key, else that field alone |
| StoreOutcomes.PairingOutcome | core/rust/grain-client-core/src/pairing.rs:60-130 | which envelopes are valid, down to the digested text and the custody fields; then the three answers and what is installed |
| StoreOutcomes.MadeEnvelope | core/rust/grain-client-core/src/pairing.rs:21-44 | the envelope a store makes is valid and carries its bundle |
| StoreOutcomes.ScanOutcome | core/rust/grain-client-core/src/scan.rs:57-73 | Accepted, AlreadyAccepted, a conflict or the rejection, and what is put |
| ImportOutcomes.ImportIdentityOutcome | core/rust/grain-client-core/src/identity.rs:71-103 | in a valid store: no bundle, a wrong version, an invalid or an incompatible one, else the bundle or the merge installed with its counters |
| ImportOutcomes.ImportSyncOutcome | core/rust/grain-client-core/src/sync.rs:65-156 | which sync bundles are valid; then incompatible identities, contradicting records, or all of it taken in, and AlreadyImported exactly if the store stays as it is |
| ImportOutcomes.ExportedSync | core/rust/grain-client-core/src/sync.rs:25-63 | a sync export is valid and holds every record once, in the order of identifiers |
| ImportOutcomes.ExportedSnapshot | core/rust/grain-client-core/src/memory_store.rs:42-66 | so is a snapshot |
| ImportOutcomes.RestoreOutcome | core/rust/grain-client-core/src/memory_store.rs:68-178 | for every store: no snapshot, a wrong version, an invalid one, else exactly its records, and its identity with each counter the larger of the two |
| SyncTheorems.ImportOfExport | core/rust/grain-client-core/src/sync.rs:25-126 | importing another store's export succeeds if and only if not both hold different root material; it unites scans and events and merges identities |
| SyncTheorems.SyncConverges | core/rust/grain-client-core/src/sync.rs:25-126 | two clients of one root that import each other's export both succeed and agree on devices, revocations, counters, scans and events |
| SyncTheorems.ReachableReplicasConverge | core/rust/grain-client-core/src/sync.rs:25-126 | the same for any two stores grown from nothing by any operations |
| SyncTheorems.ImportAgain | core/rust/grain-client-core/src/sync.rs:79-108 | a second import of one bundle reports nothing new and changes nothing exactly when an identity was held before, none was carried, or its texts were tidy; the view never changes |
| SyncTheorems.SecondImportCanChange | core/rust/grain-client-core/src/sync.rs:79-108 | a valid bundle with a zero-padded counter that a fresh store's second import does change |
| Replicas.SyncInTurn | core/rust/grain-client-core/src/sync.rs:25-126 | one client imports the other's export and the other then imports the first one's new export: both succeed and have converged |
| Replicas.ImportedSum | core/rust/grain-client-core/src/sync.rs:65-126 | after any imports from a group of replicas, in any order and number, a member holds the least upper bound of what it and those members held |
| Replicas.AllConverge | core/rust/grain-client-core/src/sync.rs:65-126 | any number of replicas that have imported the same members' exports, in whatever order and however often, have converged |

## Left out

- Result records for callers (counts, status strings, Debug redaction), `client_lifecycle`, `scan_preview` and `pairing_preview_envelope`: reads of values the model already determines.
- The JSON and Base64 text of bundles, envelopes and snapshots: arguments are the decoded values, so what serde accepts (default custody, unknown fields, number syntax) is not modelled.
- The `atomic` closure is split into `Begin` and `End` around the transaction body; a panic inside the closure is not modelled.
- Convergence of device names and of the active key: they do not converge, see above; everything else in the identity is in the view.
- Typed-object productions other than ServingOffer and set arrays: each is settled by reading one branch. The set-array theorems take the item validator as a parameter.
- Internals of SHA-256, Ed25519 and zlib, key generation, HKDF and AES-GCM: function values or arguments.
- Streaming decompression: `Scan.DecodeGr1` sees the output produced and whether the stream then breaks, not the reads in between.
- Machine word size: lengths are unbounded naturals, so the branch that refuses a length above `usize` is not modelled; it cannot fire on 64-bit targets with inputs in memory.
- JSON bodies of ledger events keep only what the reducer reads; numbers that serde holds as floats are one opaque value.
- The wasm table stores any value type; allocation, raw pointers and the thread-local are not modelled.
- Python, TypeScript and Swift tooling, the conformance runner and the operation dispatcher.
