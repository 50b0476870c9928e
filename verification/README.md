# Xion: DKIM registry, its wire codec and the grant indexer

A Dafny model of three parts of the Xion chain and proofs about them.

- **The wire codec of `x/dkim`** (`Words`, `Varint`, `Skip`, `GroupTags`, `Messages`, `Codec`, `CodecLaws`, `CodecFields`, `Truncation`, `Writer`,
  `Reader`).
  The generated protobuf code for `IndexRange`, `PublicInputIndices`, `Params`, `DkimPubKey` and `GenesisState`:
  writers that fill a buffer backwards, readers that walk one, and the loop that skips unknown records.
  `Messages` says which bytes a message stands for and `Codec` what a reader computes; `Writer` and `Reader` are the
  imperative code, proved against them.
- **The DKIM key registry** (`Parameters`, `Registry`, `RegistryLaws`, `Genesis`, `DkimKeeper`, `DkimQuery`, `PageWalk`,
  `FieldText`, `Authenticate`). Three stores, four messages, genesis import and export, the paginated key query and the
  `Authenticate` query. `Registry` says what a message does to the stores, `DkimKeeper` is the keeper with its loops.
- **The authz and feegrant indexer** (`KeyedOps`, `Indexer`, `GranteeGrants`). A replica fed by change sets, with a
  secondary index by grantee, and the two iteration paths of `GranteeGrants`.

`Ordering` holds the iteration order of a key-value store, `Pagination` the page request and `Options` the optional value,
used throughout.

## What is taken as given

- Integers are unbounded; 32- and 64-bit wrap-around is written out (`Words`). A buffer is shorter than 2^63 bytes, as
  every Go slice is. Bitwise or is defined bit by bit and shown to be addition where the readers use it.
- Strings are byte strings. RSA and PEM parsing, canonicalisation, base64 and the Poseidon hash are arbitrary functions
  (`Registry.Crypto`), as are decimal parsing, the subject policy and the proof verifier (`Authenticate.Outside`) and the
  key and value codecs of the authz and feegrant modules (`Indexer.Codecs`). Lemmas that need more say so
  (`Genesis.DigestSized`, `Indexer.Agrees`, which the documented key formats meet, and distinct stored keys of the
  index entries in `GranteeGrants`, which the documented index keys have).
- The collections library stores a (domain, selector) pair as `domain 0x00 selector`, refuses a domain that contains the
  delimiter, iterates in byte order, and encodes a non-terminal pair as `domain 0x00 selector 0x00` into a buffer of 1024
  bytes. An encoding error and a buffer overflow are one failure here. An indexed map keeps one reference per key.
- An address in a grant or allowance key has 1 to 255 bytes and stands behind its length in one byte.
- Errors are told apart by what they mean: a key below the size floor has an error of its own here, where the source
  reuses the one for an invalid key, and a key that is not RSA counts as invalid, where the source has a name for it.
- A message that fails leaves the stores as they were, because the transaction around it is rolled back
  (`DkimKeeper.Keeper.DeliverTx`). The handlers themselves may fail with part of their work done.

## Where the code says something else than expected

- Total in a page response: a key page with `CountTotal` counts only from the key on, and one without reports at most one
  more than the page (`PageWalk.KeyPage`); the standard path of `GranteeGrants` leaves out what the offset skipped
  (`GranteeGrants.StandardPageIsSlice`). The models follow the code.
- Exports do not always import again: `UpdateParams` may lower the size limit below a stored key or revocation
  (`Genesis.LoweredLimitRejectsExport`). The exact conditions are `Genesis.UpdateKeepsExportIff` for one update and
  `Genesis.ExportImportsIff` for whole runs.
- A revocation listed in a genesis file as a whole RSA key bars nothing (`Genesis.LegacyEntryBarsNothing`); the exact
  condition is `Genesis.ListedKeyBarredIff`.
- Text packed into field elements does not always come back: a zero byte at the end of a 31-byte chunk is dropped
  (`FieldText.ChunkEndZeroLost`), which concerns transaction bytes. The exact condition is `FieldText.TextRoundTripIff`.
- The key lookup of `Authenticate` ignores an empty domain and a zero hash (`Authenticate.OtherRecordAccepted`);
  `Authenticate.AcceptedVouchesIff` says exactly when acceptance vouches for both.
- A replica that meets a value it cannot decode keeps the old grant until the key is written or deleted again
  (`Indexer.HeldUnderKey`, with such runs in `Indexer.StaleAfterBadWrite` and `Indexer.HealedByWrite`);
  `Indexer.ReplicatesIffDecodable` is the exact condition for equality over runs.
- Any end tag closes a group when an unknown record is skipped, while the Protocol Buffers encoding asks for the group's
  field number (`GroupTags.AnyEndTagClosesGroup`). `GroupTags.SkippedIsEncodedIff` says exactly when skipped bytes are a
  record of the encoding.
- A record whose names have no page key can be stored; a listing that needs that key fails. The exact conditions are
  `PageWalk.ListingSucceedsIff` and, for the lookup of `Authenticate`, `Authenticate.KeyFoundIff`.
- A batch with a domain that cannot be encoded fails with the records before it already set (`DkimKeeper.Keeper.Add`);
  the transaction around the handler undoes that.
- `ValidateBasic` of `MsgRevokeDkimPubKey` speaks of a full-table scan for an empty domain; a prefix range over the empty
  domain visits only records whose domain is empty (`Registry.PrefixIsDomain`).

## Model

| member | source | states |
|---|---|---|
| Varint.SovIsEncodedLength | x/dkim/types/genesis.pb.go:767-769 | for every value the closed form (Len64(x\|1)+6)/7 is the number of bytes the varint writer emits |
| Varint.EncodedLengthIs1To10 | x/dkim/types/genesis.pb.go:675-685 | every 64-bit value takes one to ten bytes |
| Varint.EncodeVarintAt | x/dkim/types/genesis.pb.go:675-685 | the writer fills exactly the reserved bytes below the offset with the varint of the value and changes nothing else |
| Varint.AccumulateGroup | x/dkim/types/genesis.pb.go:1262-1264 | shifting a seven-bit group into place and or-ing it in is the next partial sum of base 128 groups modulo the word, for 32- and 64-bit words and all shifts up to 63 |
| Varint.ReadGroups | x/dkim/types/genesis.pb.go:1255-1268 | the reading loop stops at the first byte without continuation bit, yields the base 128 value modulo the word width, and reports overflow after ten bytes and end of input before that |
| Varint.VarintRoundTrip | x/dkim/types/genesis.pb.go:675-685 | reading a written varint gives the value back and stops right behind it, whatever follows |
| Skip.ScanItemAt | x/dkim/types/genesis.pb.go:1390-1438 | one turn of the switch on the wire type, with every error it can raise |
| Skip.SkipRecord | x/dkim/types/genesis.pb.go:1370-1447 | the skipping loop terminates on every buffer without reading outside it and computes the scan with wrapping 64-bit positions |
| Skip.SkipsRecord | x/dkim/types/genesis.pb.go:1370-1447 | a well-formed record of any kind, groups nested to any depth included, is passed over exactly, at any nesting depth |
| Skip.SkippedIsRecord | x/dkim/types/genesis.pb.go:1370-1447 | whatever the loop passes over inside the buffer is one well-formed record |
| Skip.SkipMatchesGrammar | x/dkim/types/genesis.pb.go:1370-1447 | the nesting counter accepts the first n bytes if and only if they are a record of the recursive grammar |
| GroupTags.RecordUnique | x/dkim/types/genesis.pb.go:1370-1447 | unique reading: no two records of the grammar have the same bytes, and none is a prefix of another |
| GroupTags.SkippedIsEncodedIff | x/dkim/types/genesis.pb.go:1427-1433 | the bytes skipped are a record of the encoding if and only if each end tag met carries the field number of the group it closes, as a loop with a stack in place of the counter finds out |
| GroupTags.AnyEndTagClosesGroup | x/dkim/types/genesis.pb.go:1427-1433 | a group of one field closed by the end tag of another is passed over and is no record of the encoding |
| Messages.SizeIsEncodedLength | x/dkim/types/genesis.pb.go:686-765 | for every message the size computed in advance is the length of its bytes |
| Writer.PutHeader | x/dkim/types/genesis.pb.go:574-583 | tag and length end up in front of a payload already written, which stays as it was |
| Writer.WriteRange | x/dkim/types/genesis.pb.go:536-552 | writes the last Size() bytes below the index, returns Size(), touches nothing else |
| Writer.WriteIndices | x/dkim/types/genesis.pb.go:569-630 | the same with four embedded ranges, fields in ascending order although written backwards |
| Writer.WriteParams | x/dkim/types/genesis.pb.go:647-673 | the same for Params with its embedded message |
| Writer.WritePubKey | x/dkim/types/state.pb.go:213-257 | the same for DkimPubKey: empty strings and zero enums leave no bytes, negative enums are sign-extended |
| Writer.WriteGenesis | x/dkim/types/genesis.pb.go:480-519 | the same for GenesisState with its repeated fields |
| Writer.WritePubKeys | x/dkim/types/genesis.pb.go:494-507 | walking the list from its end leaves the keys in list order |
| Writer.WriteRevoked | x/dkim/types/genesis.pb.go:485-493 | walking the list from its end leaves the entries in list order |
| Writer.Marshal | x/dkim/types/genesis.pb.go:632-640 | a buffer of the reported size is filled completely with the bytes of the message |
| Reader.ReadTag | x/dkim/types/genesis.pb.go:1253-1276 | field number as a signed 32-bit value and wire type of a tag; end-group and non-positive tags fail every message |
| Reader.ReadBlob | x/dkim/types/genesis.pb.go:1320-1344 | the payload of a length-delimited field, with negative, wrapping and oversized lengths told apart |
| Reader.SkipField | x/dkim/types/genesis.pb.go:1349-1361 | an unknown field is skipped from its tag on, or fails as the source does |
| Reader.RangeMessage.Unmarshal | x/dkim/types/genesis.pb.go:922-1009 | on every buffer the reader terminates in bounds and leaves the fold of the buffer over the fields it started with, or the exact error |
| Reader.IndicesMessage.Unmarshal | x/dkim/types/genesis.pb.go:1010-1248 | the same, embedded ranges being updated in place |
| Reader.ParamsMessage.Unmarshal | x/dkim/types/genesis.pb.go:1249-1369 | the same for Params |
| Reader.PubKeyMessage.Unmarshal | x/dkim/types/state.pb.go:307-524 | the same for DkimPubKey, enums read in 32-bit arithmetic |
| Reader.GenesisMessage.Unmarshal | x/dkim/types/genesis.pb.go:773-921 | the same for GenesisState, repeated fields growing |
| CodecLaws.DecodeConcat | x/dkim/types/genesis.pb.go:922-1369 | decoding is a fold: bytes that decode on their own can be decoded first and the rest continues from their result |
| CodecLaws.DecodeAnywhere | x/dkim/types/genesis.pb.go:1338-1344 | where a buffer starts decides at most which error is reported, never success or the message |
| CodecLaws.UnknownRecordTransparent | x/dkim/types/genesis.pb.go:1349-1361 | inserting any well-formed record with an unused field number between records does not change the outcome |
| CodecLaws.DecodeMerges | x/dkim/types/genesis.pb.go:773-1369 | decoding the bytes of b into a, with anything behind them, continues from the field-wise merge of b into a |
| CodecLaws.RoundTrip | x/dkim/types/genesis.pb.go:465-1369 | every message of the module is read back unchanged from its bytes |
| CodecLaws.RangeRoundTrip | x/dkim/types/genesis.pb.go:521-552 | for all IndexRange values, with no bound on the fields |
| CodecLaws.IndicesRoundTrip | x/dkim/types/genesis.pb.go:554-630 | for all PublicInputIndices values |
| CodecLaws.ParamsRoundTrip | x/dkim/types/genesis.pb.go:632-673 | for all Params values |
| CodecLaws.LastOneWins | x/dkim/types/genesis.pb.go:922-1369 | two encodings in a row read as their merge: later scalars win, embedded messages merge, repeated fields add up |
| CodecLaws.EncodeInjective | x/dkim/types/genesis.pb.go:465-673 | no two messages of a type share their bytes |
| CodecFields.RangeFields | x/dkim/types/genesis.pb.go:95-97 | the bytes of field 1 set the start of a range and those of field 2 its end, for every value, zero included, and nothing else |
| CodecFields.IndicesScalars | x/dkim/types/genesis.pb.go:151-157 | fields 1, 2 and 4 set minimum length, email hash index and DKIM hash index |
| CodecFields.IndicesRanges | x/dkim/types/genesis.pb.go:155-165 | fields 3, 5, 6 and 7 read into the domain, transaction, host and subject range as they are |
| CodecFields.ParamsFields | x/dkim/types/genesis.pb.go:253-259 | fields 1 and 2 set key identifier and size limit, field 3 reads into the indices |
| CodecFields.PubKeyFields | x/dkim/types/state.pb.go:76-86 | fields 1 to 4 set domain, key, hash and selector; fields 5 and 6 version and key type from the low 32 bits |
| CodecFields.GenesisFields | x/dkim/types/genesis.pb.go:30-34 | field 1 reads into the parameters, fields 2 and 3 add one key and one revocation at the end |
| CodecFields.KnownFields | x/dkim/types/genesis.pb.go:799-911 | a message knows the field numbers from 1 to its last and no others |
| CodecFields.BadTagRefused | x/dkim/types/genesis.pb.go:792-804 | end-group tags, field numbers that are not positive as signed 32-bit values, and known fields of another wire type are refused, each with its own error |
| CodecFields.BlobOutcome | x/dkim/types/genesis.pb.go:820-834 | what becomes of a length-delimited field, by the length announced: negative, wrapping, past the end, or taken |
| CodecFields.WrittenInOrder | x/dkim/types/genesis.pb.go:480-673 | the records a writer leaves are exactly the fields present, in ascending order: scalars unless zero, strings unless empty, embedded messages always, repeated fields as often as they occur |
| CodecFields.NegativeEnumTakesTenBytes | x/dkim/types/state.pb.go:218-227 | a negative enum is written sign-extended, in ten bytes |
| Truncation.StepCut | x/dkim/types/genesis.pb.go:922-1369 | a field of any kind, unknown groups included, cut anywhere, is refused as ending unexpectedly |
| Truncation.DecodeCut | x/dkim/types/genesis.pb.go:773-1369 | a buffer that reads, canonical or not, cut anywhere, reads up to there or is refused as ending unexpectedly |
| Truncation.SkipRefuses | x/dkim/types/genesis.pb.go:1390-1438 | wire types 6 and 7, an end tag outside groups and a negative length are refused, each with its own error |
| Registry.PrefixIsDomain | x/dkim/keeper/msg_server.go:128-137 | the prefix range of a domain visits exactly the records of that domain |
| Registry.BatchValidIffEach | x/dkim/types/msgs.go:180-221 | a batch validates if and only if each of its keys does |
| RegistryLaws.SaveAllOverlays | x/dkim/keeper/msg_server.go:37-44 | saving a batch overlays it on the store, the last record per key winning, all other keys untouched |
| RegistryLaws.AddSucceedsIff | x/dkim/keeper/msg_server.go:47-79 | an Add is taken if and only if the authority sent it and every key is admissible, hashable and storable; it comes to the point of writing only if all are admissible and hashable; if it is not taken the registry stays as it was |
| RegistryLaws.AddExact | x/dkim/keeper/msg_server.go:37-79 | an Add that is taken leaves under each key the last record of the batch for it, with its own hash, and everything else as it was |
| RegistryLaws.DeliveredAdd | x/dkim/keeper/msg_server.go:47-79 | a delivered Add by the authority of admissible, hashable, storable records leaves under each key the last of them for it with its own hash and all else as before; any other leaves everything as it was |
| RegistryLaws.DeliveredRemove | x/dkim/keeper/msg_server.go:82-91 | a delivered Remove by the authority takes the record under that domain and selector and nothing else |
| RegistryLaws.DeliveredRevoke | x/dkim/keeper/msg_server.go:94-162 | a delivered Revoke takes exactly the records of the domain with that key and marks the key if and only if one went, or changes nothing |
| RegistryLaws.DeliveredUpdate | x/dkim/keeper/msg_server.go:164-178 | new parameters are taken if and only if the authority sent them, the key identifier is positive, every range has an index and every index is below the minimum length; they are then as sent, with 512 for a size cap of zero |
| RegistryLaws.KeySizeFloor | x/dkim/types/msgs.go:202-204 | on the message path a modulus is refused for its size if and only if it is below 2^1023, on the genesis path never |
| RegistryLaws.ComplaintMeans | x/dkim/types/msgs.go:187-219 | which complaint is made about a key, and exactly when |
| RegistryLaws.BatchReportsFirst | x/dkim/types/msgs.go:187-219 | a batch is refused with the complaint about its first bad key |
| RegistryLaws.FailureMeans | x/dkim/keeper/msg_server.go:47-178 | exactly when a message fails for its signer, its parameters, its private key or the hash |
| RegistryLaws.UnreadableMeans | x/dkim/keeper/msg_server.go:138-147 | a Revoke over unreadable records fails for the first of them in store order, as too large or as invalid |
| RegistryLaws.RevokeExact | x/dkim/keeper/msg_server.go:94-162 | when a Revoke succeeds; it then removes precisely the records of the domain with that modulus and exponent, leaves all else, and marks the canonical key if and only if a record went |
| RegistryLaws.StepEntry | x/dkim/keeper/msg_server.go:47-178 | after any message each stored record was there before unchanged or was admitted by an Add against the limit and revocations of that moment |
| RegistryLaws.InvariantRun | x/dkim/keeper/msg_server.go:28-178 | over every run of messages each record sits under its own domain and selector, is RSA and DKIM1, decodes and parses, and carries its own hash |
| RegistryLaws.RevocationsOnlyGrow | x/dkim/keeper/msg_server.go:152-157 | over every run no revocation is taken back |
| RegistryLaws.RevokedKeysNeverComeIn | x/dkim/types/msgs.go:206-218 | over every run a stored record whose key was already revoked at the start has been there unchanged all along |
| RegistryLaws.BarredForever | x/dkim/keeper/msg_server.go:138-159 | a domain free of a revoked key stays free of it over every run |
| RegistryLaws.NoResurrection | x/dkim/keeper/msg_server.go:94-162 | once a Revoke removed a key from a domain no later state holds the key there, in any encoding |
| Genesis.ImportEstablishes | x/dkim/keeper/keeper.go:87-122 | an import leaves a sound registry in which everything fits the limit; the hash invariant holds if and only if the surviving records brought their own hashes |
| Genesis.ImportExact | x/dkim/keeper/keeper.go:87-122 | on stores of any content the keys of the file are laid over the stored ones, its revocations join them and its parameters are in force |
| Genesis.ExportInStoreOrder | x/dkim/keeper/keeper.go:125-174 | an export lists keys by domain, delimiter and selector and revocations by their text, in byte order |
| Genesis.GenesisRoundTrip | x/dkim/keeper/keeper.go:87-174 | export then import on empty stores restores keys, revocations and parameters, and goes through if and only if the export validates |
| Genesis.ExportValidIff | x/dkim/types/genesis.go:85-117 | an export of a sound registry validates if and only if every stored key and revocation decodes to at most the limit in force and every revocation is a digest or an RSA key |
| Genesis.UpdateKeepsExportIff | x/dkim/keeper/msg_server.go:164-178 | for a sound registry that fits, the export after an accepted parameter update validates if and only if every stored key and revocation decodes to at most the new limit |
| Genesis.ExportImportsIff | x/dkim/keeper/keeper.go:87-174 | after every run from an imported genesis, the export imports back to the same registry if and only if everything stored decodes to at most the limit then in force |
| Genesis.ExportsStayImportable | x/dkim/types/genesis.go:85-117 | every run from an imported genesis with a limit of at least 32 that never lowers the limit ends in a registry whose export validates and imports back to the same registry |
| Genesis.LoweredLimitRejectsExport | x/dkim/keeper/msg_server.go:164-178 | an importable genesis and one parameter update after which the export no longer validates |
| Genesis.ListedKeyBarredIff | x/dkim/types/genesis.go:96-115 | after an import, an otherwise fit key is refused if and only if its canonical form is on the revocation list |
| Genesis.LegacyEntryBarsNothing | x/dkim/types/genesis.go:101-114 | a key listed as revoked by its own text imports and can still be added |
| DkimKeeper.ValidateBatch | x/dkim/types/msgs.go:180-221 | the early-exit loop reports the first complaint about the batch |
| DkimKeeper.Keeper.SaveDkimPubKeys | x/dkim/keeper/msg_server.go:37-44 | the loop leaves the overlay of the batch; at an unencodable domain it fails with exactly the records before it set |
| DkimKeeper.Keeper.Add | x/dkim/keeper/msg_server.go:47-79 | the handler validates, hashes and stores as the message semantics says, and on a failed validation or hash it has written nothing |
| DkimKeeper.Keeper.Remove | x/dkim/keeper/msg_server.go:82-91 | the handler removes one record or leaves the stores alone |
| DkimKeeper.Keeper.RevokeRange | x/dkim/keeper/msg_server.go:138-159 | the loop removes all records that match and marks the key once; at the first unreadable record it stops with exactly the matching ones before it gone |
| DkimKeeper.Keeper.Revoke | x/dkim/keeper/msg_server.go:94-162 | the handler has exactly the effect of a revocation, and on failure the stores are as stated for the loop, or untouched before it |
| DkimKeeper.Keeper.StoreParams | x/dkim/keeper/keeper.go:190-200 | only valid parameters are ever stored |
| DkimKeeper.Keeper.Update | x/dkim/keeper/msg_server.go:164-178 | the handler stores the parameters or leaves the stores alone |
| DkimKeeper.Keeper.DeliverTx | x/dkim/keeper/msg_server.go:47-178 | a message takes effect as a whole or not at all |
| DkimKeeper.Keeper.Import | x/dkim/keeper/keeper.go:87-122 | the import loops leave parameters, revocations and keys of the genesis; on failed validation nothing, and at an unencodable domain all but the keys from there on |
| DkimKeeper.Keeper.Export | x/dkim/keeper/keeper.go:125-174 | the export loops list keys and revocations in store order with the parameters in force |
| DkimQuery.PageKeysOrderAsStore | x/dkim/keeper/query_server.go:113-121 | page keys compare exactly as the store iterates |
| DkimQuery.PageKeyIff | x/dkim/keeper/query_server.go:113-118 | a record has a page key if and only if its names are free of the delimiter and the encoded key fits 1024 bytes |
| DkimQuery.Seek | x/dkim/keeper/query_server.go:107-123 | the fast-forward loop stops at the first record not below the key, or fails at one without page key |
| DkimQuery.Collect | x/dkim/keeper/query_server.go:125-176 | the loop with its counters yields the clipped slice of the matching records, the first record behind it, and the count, also when it stops early |
| DkimQuery.DkimPubKeys | x/dkim/keeper/query_server.go:50-198 | the whole query, direct lookup and errors included, answers as specified on filter, order and slice |
| PageWalk.AllMatchingExact | x/dkim/keeper/query_server.go:92-142 | the matching records are exactly the stored ones with that domain and hash, each once, in store order |
| PageWalk.DirectLookup | x/dkim/keeper/query_server.go:52-70 | with domain and selector the query succeeds if and only if a record is stored under the two, and answers with that record alone, whatever else is asked |
| PageWalk.SeekSucceedsIff | x/dkim/keeper/query_server.go:107-123 | the fast-forward succeeds if and only if every record it gets to has a page key |
| PageWalk.ListingSucceedsIff | x/dkim/keeper/query_server.go:92-192 | whatever is stored, a listing succeeds if and only if its seek does and the first record behind the page, if any, has a page key |
| PageWalk.OffsetPageIsSlice | x/dkim/keeper/query_server.go:72-192 | with offset and limit as in the request, 100 at most, the page is matching[offset..offset+limit], the total counts all matches, and a next key is given if and only if records are left, naming the first of them |
| PageWalk.RemainingExact | x/dkim/keeper/query_server.go:107-123 | the records at or behind a page key are the matching ones whose page key is not below it, in store order |
| PageWalk.KeyedPage | x/dkim/keeper/query_server.go:79-192 | a request with a key gets the first of those, as many as it asks for and 100 at most, whatever its offset |
| PageWalk.KeyPage | x/dkim/keeper/query_server.go:106-192 | a key page holds the first limit records at or behind the key, and its next key leaves exactly the rest |
| PageWalk.WalkIsComplete | x/dkim/keeper/query_server.go:72-192 | for every store, filter and limit, following next keys ends, and the pages put together are the matching records in order, each exactly once |
| FieldText.ToLittleEndianTrimmed | x/dkim/types/poseidon.go:110-132 | the loops reverse an element, drop the zeros that were in front and turn all zeros into one zero byte |
| FieldText.TrimmedElement | x/dkim/types/poseidon.go:84-96 | applied to a fixed-width element the loops give its base 256 digits, whatever the width |
| FieldText.ElementBytesIsLoop | x/dkim/types/poseidon.go:87-92 | the bytes an element contributes are what the loops make of its 32-byte form |
| FieldText.ElementValue | x/dkim/types/poseidon.go:87-92 | an element contributes its residue modulo the field order in base 256, least significant digit first |
| FieldText.TextFromElements | x/dkim/types/poseidon.go:83-96 | the conversion loop joins the bytes of all elements and cuts the zeros off the end |
| FieldText.TextRoundTripIff | x/dkim/types/poseidon.go:83-96 | text packed 31 bytes to an element, with any number of spare elements, comes back if and only if neither its last byte nor the last byte of an earlier chunk is zero |
| FieldText.ChunkEndZeroLost | x/dkim/types/poseidon.go:110-132 | a text that loses a zero byte inside it |
| Authenticate.IsSubset | x/dkim/keeper/query_server.go:356-370 | true if and only if every element of the first list is in the second |
| Authenticate.ParseInputs | x/dkim/types/poseidon.go:70-81 | the conversion loop yields all numbers in order or fails if one input is no number |
| Authenticate.Check | x/dkim/keeper/query_server.go:200-342 | with stored parameters no index or slice is out of range for any request, the query succeeds if and only if every check holds, and a rejection is that of the first check that fails, in the order of the source, with a true reason |
| Authenticate.AcceptedIffAllHold | x/dkim/keeper/query_server.go:200-342 | a request is accepted with some verdict if and only if it passes all fifteen checks |
| Authenticate.HonestRequestIff | x/dkim/keeper/query_server.go:200-342 | with the texts packed into the ranges the parameters name, a request is accepted with a verdict if and only if proof size, email hash, transaction, key lookup, host, subject and verifier all say so |
| Authenticate.KeyFoundIff | x/dkim/keeper/query_server.go:260-270 | whatever is stored, the lookup answers with a record if and only if one matches and, beyond a full page, the next one has a page key |
| Authenticate.HashBytesValue | x/dkim/keeper/query_server.go:254-264 | a hash is looked up by the base 256 digits of its absolute value, most significant first, without a zero in front |
| Authenticate.LongProofRefused | x/dkim/keeper/query_server.go:215-222 | a proof of more than 4096 bytes is refused by the second check |
| Authenticate.HashBytesInjective | x/dkim/keeper/query_server.go:254-264 | hashes looked up by the same bytes are the same up to sign |
| Authenticate.AcceptedIsVouched | x/dkim/keeper/query_server.go:245-295 | an accepted request with a domain and a non-zero hash is backed by a stored record with both, and its host is non-empty and allowed |
| Authenticate.AcceptedVouchesIff | x/dkim/keeper/query_server.go:245-270 | for any parser, policy, verifier and hash function in a workable setting, over all sound registries and all requests that name a domain and a hash, acceptance vouches for a record with both if and only if the domain is not empty and the hash not zero (a domain that cannot be encoded is never accepted) |
| Authenticate.OtherRecordAccepted | x/dkim/keeper/query_server.go:260-270 | in every workable setting, for every encodable domain and hash of which one is empty or zero, a sound registry and a request of printed numbers that is accepted on another record |
| Authenticate.RevokedKeyNeverBacks | x/dkim/keeper/query_server.go:260-270 | after a Revoke and any further messages an accepted request for the domain is backed by a correctly hashed record with a different key |
| Indexer.IndexedMap.Set | indexer/authz_handler.go:90-93 | writing keeps the index the exact projection of the primary map |
| Indexer.IndexedMap.Remove | indexer/safe_handlers.go:38-45 | removing keeps the index the exact projection of the primary map |
| Indexer.StreamService.UpdateGrant | indexer/safe_handlers.go:17-74 | one authz change is a put, a delete or nothing on the primary map, and the index stays exact |
| Indexer.StreamService.UpdateAllowance | indexer/safe_handlers.go:77-158 | the same for feegrant, short and unparsable keys doing nothing |
| Indexer.StreamService.ListenCommit | indexer/streaming.go:134-159 | a change set is folded into both maps in order, other stores and prefixes ignored |
| Indexer.GrantIndexExact | indexer/authz_handler.go:36-55 | the index lists a grant under an address if and only if the primary map holds it and the address is its grantee |
| Indexer.AllowanceIndexExact | indexer/feegrant_handler.go:35-44 | the index pairs a grantee with a granter if and only if the primary map holds an allowance from the one to the other |
| Indexer.WhatIsIgnored | indexer/streaming.go:134-159 | exactly which changes leave the replica alone |
| Indexer.UndecodableGrantKey | indexer/authz_handler.go:118-138 | an authz key that does not decode acts on the empty triple |
| Indexer.ReplayHarmless | indexer/streaming.go:134-159 | for every change set, malformed ones included, replaying it right away changes nothing |
| Indexer.DocumentedFormatAgrees | indexer/safe_handlers.go:78-80 | the documented key formats, addresses of 1 to 255 bytes behind a length byte, are inverted by the parsers as refinement asks |
| Indexer.CommitFollows | indexer/safe_handlers.go:17-158 | one commit with arbitrary values keeps the replica equal to the chain wherever the value decodes, and without keys the chain has not |
| Indexer.ReplicaFollowsChain | indexer/streaming.go:134-159 | the same over every run of commits |
| Indexer.ReplicaRefinesChain | indexer/streaming.go:134-159 | after any run of commits whose values decode the replica is the decoded form of the chain's stores |
| Indexer.ReplicatesIffDecodable | indexer/safe_handlers.go:50-61 | after any run of commits with arbitrary values, in both stores, the replica equals the chain if and only if every value still stored decodes |
| Indexer.HeldUnderKey | indexer/safe_handlers.go:17-158 | after any run of commits, malformed ones included, each key holds the last write that decodes unless a delete came after it, and what it held before if there was neither |
| Indexer.StaleAfterBadWrite | indexer/safe_handlers.go:50-61 | for every key, a write that does not decode leaves the replica with the old grant and unequal to the chain |
| Indexer.HealedByWrite | indexer/safe_handlers.go:63-73 | one more write that decodes makes the two equal again |
| GranteeGrants.RenderedGrants | indexer/authz_querier.go:350-376 | each grant of a page carries its granter, the grantee asked for, and the stored authorization and expiration; the page exists if and only if all can be rendered |
| GranteeGrants.TakeGrants | indexer/authz_querier.go:455-503 | the loop takes the first limit entries of the grantee, no lookup in the primary map fails, and it stops right behind the last one taken |
| GranteeGrants.PrefixIsGrantee | indexer/authz_querier.go:285-288 | with the documented index keys the prefix range of a grantee visits exactly that grantee's entries |
| GranteeGrants.IndexKeysDistinct | indexer/authz_handler.go:36-55 | the documented index keys of different entries differ |
| GranteeGrants.StandardPage | indexer/authz_querier.go:284-416 | the path over the grantee's index, offset skipped |
| GranteeGrants.RawPage | indexer/authz_querier.go:421-546 | the path over the whole index from a raw key on |
| GranteeGrants.StandardPageIsSlice | indexer/authz_querier.go:335-409 | the page is the slice [offset, offset+limit) of the grantee's entries in index order; a next key is given if and only if entries are left; the total leaves out the skipped ones |
| GranteeGrants.StandardPageServes | indexer/authz_querier.go:284-416 | on the primary map: the standard path goes through the grants that name the grantee, each once, and shows those from the offset on, as many as the limit says or 100, each as stored |
| GranteeGrants.RawPageServes | indexer/authz_querier.go:421-546 | the same for the raw path with the grants whose index entry is not below the key |
| GranteeGrants.GranteeKeysExact | indexer/authz_handler.go:47-49 | the entries of a grantee stand for exactly the grants of the primary map that name the grantee |
| GranteeGrants.RawPageIsPrefix | indexer/authz_querier.go:455-539 | the page holds the first limit entries of the grantee at or behind the key; a next key is given if and only if there are that many and the whole index goes on behind the last of them, and names the entry right behind; without one none of the grantee is left |
| GranteeGrants.RawFailsIff | indexer/authz_querier.go:505-518 | the raw path fails if and only if a grant of its page cannot be rendered or the entry right behind, of whatever grantee, has no resume key |
| GranteeGrants.StandardFailsIff | indexer/authz_querier.go:378-392 | the standard path fails if and only if a grant of its page cannot be rendered or the grantee's next entry has no resume key |
| GranteeGrants.PathsAgree | indexer/authz_querier.go:273-282 | from any raw key not behind the grantee's first entry both paths give the same grants and total, and only a missing resume key can make one fail where the other does not |

## Left out

- Fields of a message after a failed Unmarshal: the readers state the error, not the half-updated message, which callers discard.
- MarshalTo, Equal, getters, descriptors and the other generated code: the same pattern, or plumbing.
- RSA, PEM, x509, SHA-256, base64, Poseidon and Groth16 themselves: functions of the model.
- The subject policy (`ValidateForcedSubject`) and the chunking of a modulus for Poseidon: functions of the model.
- `ValidateBasic` of the messages: stateless checks in front of the handlers. They refuse some messages the handlers take, such as a Revoke with an empty domain or a zero size cap; the theorems hold for all messages.
- `AppModule.InitGenesis`, module wiring, migrations and command lines: the genesis theorems are about the keeper's import and export.
- Page-to-page completeness of the grantee query: its resume key is written in one encoding and compared in another.
- `Grants`, `GranterGrants` and the feegrant queries: wrappers over a pagination helper of the SDK.
- `HandleUpdate` of both handlers: the variant without error swallowing, not used by the stream service.
- Logging, database opening, concurrency of queries with commits, and errors of the underlying database.
- GranteeGrants.StandardPage: encoding a resume key may fail for long keys; the model only says that the query then fails.
