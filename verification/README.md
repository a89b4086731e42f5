# Verified model of Signare's signing pipeline and registries

Signare builds the exact byte strings that a hardware security module signs, and keeps the
tables that say who may sign. This project models both in Dafny and proves, for all inputs and
all runs, what a signer, a node of the network and an operator rely on. `dafny verify dfyconfig.toml`
checks the whole project.

## What is modelled

**Signing byte pipeline.** `Bytes` and `Hex` hold big-endian numbers and hexadecimal text.
`Rlp` holds the encoder over the Go values it switches on and the prefix-driven decoder; both are
measured against one item tree (Yellow Paper, Appendix B). `Transactions` builds the signing
preimage and the broadcast form of legacy (EIP-155) and type-2 (EIP-1559) transactions through the
same text conversions as the code. `Preimages` shows what those bytes determine. Seven modules cover
EIP-712: `TypeTables` (dependency closure and type string), `TypeStrings` (what a type string
determines), `Nesting` (when encoding ends), `TypedData` (field encoding and digests), `LeafWords`
(the words, byte by byte), `TypeBinding` (what a digest says about the type table) and
`TypedRequests` (what a signature for a request binds).
`Signatures` shapes backend signatures (EIP-2), and `Signing` puts the three signing operations
together: whoever reads the result recovers the requested account. `Numbers` and `Addresses` cover
the 256-bit integer and EIP-55 address forms.

**State machines.** `TransactionalManager` covers nested transactions with after-commit callbacks,
`Migrator` and `ShippedMigrations` a version row with a dirty flag that can fail anywhere, and
`Registry`, `Deletions`, `Effects` and `RegistryStore` applications, modules, slots, users, accounts
and the hand-written integrity entries between them. The classes follow the code's order of reads and writes;
their methods are proved equal to functions on values, and the main theorems are lemmas about runs of
those functions.

## Assumptions

- Keccak-256 is an arbitrary function from byte strings to 32 bytes, a parameter everywhere. It is
  never taken to be injective: binding theorems say "equal, or two different strings hashed along
  the way collide", and name the sets of strings hashed.
- Public key recovery and the signing backend are arbitrary functions. Backend reachability, known
  HSM addresses and role checks are boolean or list inputs. Fresh UUIDs are unused numbers.
- Go lengths are ints, so statements about decoding require encodings of at most 2^63 - 1 bytes.
- The registry is sequential and its storage does not fail; users and accounts are stored without
  a surrounding transaction (app/pkg/graph/wire_gen.go:794-795), slots and modules with one.

## What the code does that its documentation does not say

- A nil `*[]byte` encodes as the empty RLP list (app/pkg/commons/rlp/rlp.go:84-87), although
  app/pkg/commons/rlp/rlp.go:37 describes nil pointers otherwise. Transactions never pass one.
- The RLP decoder slices up to the capacity of a Go slice and not up to its length. A nested list
  may read past its own end into its parent's bytes (`Rlp.OverrunReadsTwice`). For every input that
  decodes, encoding again takes no more bytes if and only if what is read twice is made up for by
  headers that were too long (`Rlp.NotLongerExactly`); nothing is read twice exactly when every
  payload lies inside its list. On such input the same bytes come back if and only if every header
  is minimal (`Rlp.DecodeEncodeExactly`).
- Gas 0 and chain id 0 are signed as one zero byte. For chain id 0 the V of the broadcast form does
  not lead back to what was signed; it does exactly for chain ids of at least 1
  (`Preimages.LegacyBroadcastShowsPreimage`), which is the guard at
  app/pkg/usecases/hsmconnector/hsm_connector.go:224-226.
- The comment on `HexInt256.Encode` says the sign is ignored; the code prints it, and the sign is
  what makes a negative chain id fail (`Hex.NegativeNumberRejected`).
- The EIP-712 encoder accepts any names. Over names without space, comma and parentheses a type
  string determines every definition behind it (`TypeStrings.TypeStringBinds`); each of the four
  characters alone makes it ambiguous.
- What a typed-data signature binds depends on the types. When domain and primary type are flat
  (plain names, no arrays, no nested structs) the declared values are bound against every request
  the guards accept, whatever its names, exactly when the primary type's field list is not JSON null
  (`TypedRequests.BindsExactly`). For all other types over readable names the same holds among
  requests over readable names (`TypedRequests.BindsReadableExactly`) and not beyond: an accepted
  request with a struct named like an array (`TypedRequests.ReadableIsNotEnough`), or with a field
  name that takes in a nested definition (`TypeBinding.NestedStructsBreakBinding`), can have the digest
  of a different value without a collision.
- Only declared fields are bound. The guards accept null field lists: with a null primary type
  neither its name nor the message is bound (`TypedRequests.UndeclaredPrimaryUnbound`), and with a
  null domain type the domain is free (`TypedRequests.UndeclaredDomainUnbound`). A signature is tied
  to one chain exactly when the domain type declares a field for the chain id
  (`TypedRequests.BindsChainExactly`).
- Encoding an absent struct encodes its fields as absent, in order, up to the first that fails. It
  never ends exactly when a chain of structs reached in this way comes to some type a second time
  (`Nesting.NeverEndsExactly`), and following it as deep as there are types decides which
  (`Nesting.EndsExactly`).
- A nested transactional call that panics comes back as success without a response, and its writes
  stay in the transaction (`TransactionalManager.NestedPanicIsSuccess`).
- Integrity entries outlive their resource after a bulk removal of accounts, and after creating a
  user or an account that exists already. From then on the parent can never be deleted
  (`Registry.PinnedUserStays`, `Registry.PinnedApplicationStays`), and there is no other reason for
  refusing to delete a parent without live children (`Deletions.RefusedExactly`).
- The first down script of both dialects drops five tables by plural names (`cfg_admins` and so on,
  app/include/dbschemas/postgres/000001_initial_schema.down.sql:1-5 and
  app/include/dbschemas/sqlite/000001_initial_schema.down.sql:1-5), while the up scripts create
  singular ones. After a way down to version 0 the row says 0 and five tables are still there. All
  runs with targets of 1 or above are consistent (`ShippedMigrations.ShippedRunsConsistentExactly`).

## Model

| member | source | states |
|---|---|---|
| `Rlp.EncodeIsNormal` | app/pkg/commons/rlp/rlp.go:46-262 | Over every nested Go value, each encoder branch (both integer branches included) yields the reference encoding of the value's item tree, and fails exactly where there is none |
| `Rlp.HeaderBytes` | app/pkg/commons/rlp/rlp.go:226-233 | Below 56 one byte with the length in it; from 56 on a byte that counts the length bytes, and the length big-endian without leading zeros |
| `Rlp.StringItemBytes` | app/pkg/commons/rlp/rlp.go:73-82 | A byte below 0x80 is itself, any other string has a header from 0x80 up |
| `Rlp.ListItemBytes` | app/pkg/commons/rlp/rlp.go:100-175 | A list has a header from 0xc0 up with the length of its items, which follow in order |
| `Rlp.NilBytes` | app/pkg/commons/rlp/rlp.go:84-89 | The byte every nil pointer, zero number and empty list becomes |
| `Rlp.NumberItems` | app/pkg/commons/rlp/rlp.go:235-262 | Numbers are their big-endian bytes without leading zeros |
| `Rlp.EncodeValue` | app/pkg/commons/rlp/rlp.go:46-71 | The type switch, loops included, computes the specified encoding |
| `Rlp.EncodeList` | app/pkg/commons/rlp/rlp.go:100-175 | The list loop concatenates the element encodings in order, stops at the first failure, and puts the list header in front |
| `Rlp.EncodeStringArray` | app/pkg/commons/rlp/rlp.go:184-198 | The string-array loop gives the list encoding of its strings |
| `Rlp.ToIntWraps` | app/pkg/commons/rlp/rlp.go:541-553 | The recursive length reader is the big-endian value reduced to a signed 64-bit int, so long length fields wrap |
| `Rlp.HeaderRoundTrip` | app/pkg/commons/rlp/rlp.go:511-539 | Every header below 2^63 is read back with its own size, payload length and kind, whatever follows |
| `Rlp.DecodeList` | app/pkg/commons/rlp/rlp.go:555-579 | The decoding loop terminates on every input and equals the recursive reading; a slice outside the backing array is reported as failure |
| `Rlp.PaddedHeadersAccepted` | app/pkg/commons/rlp/rlp.go:511-539 | Headers that are longer than they need be are read all the same |
| `Rlp.HeaderRefusedExactly` | app/pkg/commons/rlp/rlp.go:511-539 | A header is refused exactly for no input, or when nothing stands behind its length field |
| `Rlp.RoundTrip` | app/pkg/commons/rlp/rlp.go:269-285 | Decoding the encoding of any item tree, with any trailing bytes and spare capacity, returns the tree and never slices out of range |
| `Rlp.ValueRoundTrip` | app/pkg/commons/rlp/rlp.go:46-285 | What the encoder makes of any Go value decodes to that value's normal form |
| `Rlp.PrefixFree` | app/pkg/commons/rlp/rlp.go:73-82 | No encoding is a prefix of another; in particular encodings are injective |
| `Rlp.UniqueSplit` | app/pkg/commons/rlp/rlp.go:100-175 | A concatenation of encodings splits into items in one way only |
| `Rlp.ReencodedLength` | app/pkg/commons/rlp/rlp.go:511-579 | For every input that decodes, the re-encoded length is the length of the input, without what longer headers save, with what is read twice |
| `Rlp.NotLongerExactly` | app/pkg/commons/rlp/rlp.go:511-579 | Re-encoding takes no more bytes if and only if no more is read twice than headers save |
| `Rlp.NoOverrunExactly` | app/pkg/commons/rlp/rlp.go:565-567 | Nothing is read twice if and only if every payload lies inside the list that encloses it |
| `Rlp.ReencodingBoundExactly` | app/pkg/commons/rlp/rlp.go:511-579 | With minimal headers, re-encoding takes at most the bytes of the input if and only if every payload lies inside the list that encloses it |
| `Rlp.DecodeEncodeExactly` | app/pkg/commons/rlp/rlp.go:226-285 | Decoding a contained input and encoding again gives the same bytes if and only if every header is minimal |
| `Rlp.ReencodingNotShorter` | app/pkg/commons/rlp/rlp.go:555-579 | With minimal headers re-encoding never takes fewer bytes, and takes more as soon as a payload leaves its list |
| `Rlp.ReencodingNotLonger` | app/pkg/commons/rlp/rlp.go:511-579 | Although non-minimal lengths are accepted, re-encoding what was decoded from a contained input takes at most the bytes consumed |
| `Rlp.ContainedIgnoresRest` | app/pkg/commons/rlp/rlp.go:555-579 | A contained input decodes without failure and alike whatever lies behind it |
| `Rlp.OverrunReadsTwice` | app/pkg/commons/rlp/rlp.go:565-567 | A five-byte input with a nested list reading past its end, whose decoding re-encodes to seven bytes |
| `Hex.NumberBytesOfText` | app/pkg/usecases/hsmconnector/types.go:668-674 | The even-length text of a number decodes to its minimal bytes, zero to one zero byte |
| `Hex.NegativeNumberRejected` | app/pkg/entities/encoding_types.go:282-289 | The text of a negative number never decodes to bytes |
| `Hex.DataBytesOfText` | app/pkg/entities/encoding_types.go:544-556 | Prefixed hex text of bytes decodes to those bytes |
| `Hex.NibbleTable` | app/pkg/entities/encoding_types.go:363-374 | A character is a digit exactly when it is one of the sixteen, in either case, and is worth its place among them |
| `Hex.EncodeHexAt` | app/pkg/entities/encoding_types.go:604-611 | Hex text is written high nibble first, byte by byte |
| `Bytes.BigEndian` | app/pkg/commons/rlp/rlp.go:254-262 | Bytes in front weigh more, and one byte is worth itself |
| `Numbers.ReadWord` | app/pkg/entities/encoding_types.go:202-216 | Up to sixteen nibbles accumulate in a 64-bit word without wrap-around to their positional value |
| `Numbers.ParseWords` | app/pkg/entities/encoding_types.go:198-219 | The word-chunked parse equals digit-by-digit positional evaluation, failures included |
| `Numbers.NewHexInt256FromString` | app/pkg/entities/encoding_types.go:192-220 | The parser returns the positional value, or the error of the first check that fails |
| `Numbers.UnmarshalText` | app/pkg/entities/encoding_types.go:250-279 | The same parse, with the empty text read as zero |
| `Numbers.AcceptsExactly` | app/pkg/entities/encoding_types.go:302-317 | Accepted are exactly the prefixed texts of one to 64 hex digits without superfluous zero, and their values are below 2^256 |
| `Numbers.RejectedExactly` | app/pkg/entities/encoding_types.go:192-220 | Which of the six errors a text gives, exactly, in the order in which they are looked for |
| `Numbers.ParseEncode` | app/pkg/entities/encoding_types.go:282-289 | Parsing the encoding of any number below 2^256 returns it |
| `Numbers.EncodeParse` | app/pkg/entities/encoding_types.go:192-220 | Encoding what was parsed gives back the text up to letter and prefix case |
| `Numbers.Int256.U256` | app/pkg/entities/encoding_types.go:94-97 | Masks the receiver in place to its residue modulo 2^256 |
| `Numbers.Int256.U256Bytes` | app/pkg/entities/encoding_types.go:100-102 | Always 32 bytes whose big-endian value is the residue modulo 2^256 |
| `Numbers.Int256.PaddedBytes` | app/pkg/entities/encoding_types.go:125-132 | Big-endian form of the absolute value, padded to n bytes and never cut |
| `Numbers.Int256.ReadBits` | app/pkg/entities/encoding_types.go:135-144 | The backward word and byte loops write byte j of the absolute value at distance j from the end, and leave the rest |
| `Numbers.SignedRoundTrip` | app/pkg/entities/encoding_types.go:94-111 | U256Bytes gives 32 bytes for every x, and reading them back with S256 returns x if and only if x is in [-2^255, 2^255) |
| `Addresses.ToText` | app/pkg/entities/address/address.go:87-104 | The in-place case loop yields the EIP-55 text for any hash function |
| `Addresses.ChecksumRule` | app/pkg/entities/address/address.go:87-104 | A letter is upper case exactly when the digit at its place of the hash's hex text is 8 or above |
| `Addresses.ChecksumRoundTrip` | app/pkg/entities/address/address.go:24-63 | The checksummed text is accepted by both address parsers and by hex-bytes decoding, all returning the address |
| `Addresses.ChecksummedInjective` | app/pkg/entities/address/address.go:87-104 | Different addresses have different checksummed texts |
| `Addresses.MixedCaseAccepted` | app/pkg/entities/address/address.go:50-63 | A mixed-case text is accepted as an address if and only if its digits are that address's checksummed digits |
| `Addresses.SingleCaseAccepted` | app/pkg/entities/address/address.go:50-63 | A text in one letter case is accepted if and only if it spells the address in hex |
| `Signatures.SignatureToLowS` | app/pkg/usecases/hsmconnector/utils.go:56-72 | The two copies at computed offsets give r unchanged and the normalised s, padded to equal halves, for every even length |
| `Signatures.LowSOfValid` | app/pkg/usecases/hsmconnector/utils.go:56-94 | On every validated signature: 64 bytes, r kept, s replaced by min(s, N - s) in [1, (N-1)/2], still valid, idempotent |
| `Signatures.ValidatesExactly` | app/pkg/usecases/hsmconnector/utils.go:79-94 | Valid exactly for 64 bytes with r and s from 1 to N - 1, and otherwise the first thing wrong |
| `Signatures.OrderInDecimal` | app/pkg/usecases/hsmconnector/utils.go:107-109 | The order and half order of secp256k1 |
| `Signatures.RecoverV` | app/pkg/usecases/hsmconnector/hsm_connector.go:369-393 | Tries 27 then 28 in byte 0 only, ends with the first candidate that decides, and success means that the signer is recovered |
| `Signatures.AssembleRecoverableSignature` | app/pkg/usecases/hsmconnector/hsm_connector.go:397-407 | Validation, low-S form and recovery in that order, with the exact failure of each |
| `Signatures.AssemblyRecovers` | app/pkg/usecases/hsmconnector/hsm_connector.go:397-407 | An assembled signature recovers the signer, keeps the backend's r and has its s in [1, (N-1)/2] |
| `Signatures.AssembledExactly` | app/pkg/usecases/hsmconnector/hsm_connector.go:369-407 | When there is a signature, with which V, and when the search ends with an error, in terms of what recovery says of 27 and 28 |
| `Signatures.ToHex` | app/pkg/usecases/hsmconnector/utils.go:121-135 | R, S and the low byte of V right-aligned in 65 bytes, as hex text |
| `Signatures.FormsAgree` | app/pkg/usecases/hsmconnector/utils.go:14-53 | EIP-155, yParity and hex forms of one signature carry the same parity, r and s; V gives back the chain id; the hex text gives back all 65 bytes |
| `Transactions.ConvertFieldsExact` | app/pkg/usecases/hsmconnector/types.go:518-559 | No text conversion ever fails and each returns the field it was made from |
| `Transactions.PrepareCommonFields` | app/pkg/usecases/hsmconnector/types.go:518-559 | The step-by-step assignment sets all five results to those exact fields |
| `Transactions.AccessListToRlp` | app/pkg/usecases/hsmconnector/types.go:494-515 | The nested loops keep every entry and key in order; no address text fails to decode |
| `Transactions.AccessListNormal` | app/pkg/usecases/hsmconnector/types.go:494-515 | The filled slices stand for the nested EIP-2930 item list |
| `Transactions.LegacyPreimageExact` | app/pkg/usecases/hsmconnector/types.go:357-432 | The preimage is the RLP list of nonce, gas price, gas, to, value, data, chain id, 0, 0; it fails exactly for negative integers, with the stated error |
| `Transactions.LegacyBroadcastExact` | app/pkg/usecases/hsmconnector/types.go:278-354 | The broadcast form is the same six items followed by V, R, S |
| `Transactions.Type2PreimageExact` | app/pkg/usecases/hsmconnector/types.go:617-666 | The preimage is 0x02 and the RLP list of the nine fields; it fails exactly for negative integers |
| `Transactions.Type2BroadcastExact` | app/pkg/usecases/hsmconnector/types.go:563-613 | The broadcast form is the same nine items followed by yParity, R, S |
| `Preimages.LegacyInjective` | app/pkg/usecases/hsmconnector/types.go:357-432 | Equal legacy preimages come from equal fields, an absent value counting as zero |
| `Preimages.Type2Injective` | app/pkg/usecases/hsmconnector/types.go:617-674 | Equal type-2 preimages come from equal fields, access list included |
| `Preimages.FamilyByte` | app/pkg/usecases/hsmconnector/types.go:617-666 | Legacy preimages start at 0xc0 or above, type-2 with 0x02, typed data with 0x19 |
| `Preimages.PreimagesInjective` | app/pkg/usecases/hsmconnector/types.go:357-674 | Over all three families equal preimages mean the same family and the same fields |
| `Preimages.LegacyBroadcastShowsPreimage` | app/pkg/usecases/hsmconnector/types.go:278-432 | Decoding the broadcast bytes, replacing V, R, S by (V-35)/2, 0, 0 and re-encoding gives the signed preimage if and only if the chain id is at least 1 |
| `Preimages.Type2BroadcastShowsPreimage` | app/pkg/usecases/hsmconnector/types.go:563-666 | The first nine decoded items of the broadcast re-encode to the signed preimage |
| `Preimages.LegacyBroadcastInjective` | app/pkg/usecases/hsmconnector/types.go:278-354 | Equal legacy broadcasts carry equal transactions and equal signatures |
| `Preimages.Type2BroadcastInjective` | app/pkg/usecases/hsmconnector/types.go:563-613 | Equal type-2 broadcasts carry equal transactions and equal signatures |
| `Preimages.BroadcastsInjective` | app/pkg/usecases/hsmconnector/types.go:278-613 | No legacy broadcast is a type-2 broadcast; equal broadcasts carry the same transaction and signature |
| `Signing.LegacySenderIs` | app/pkg/usecases/hsmconnector/hsm_connector.go:250-305 | What a node recovers from legacy broadcast bytes alone is what the signature recovers on the signed digest |
| `Signing.Type2SenderIs` | app/pkg/usecases/hsmconnector/hsm_connector.go:307-364 | The same for type-2 broadcasts |
| `Signing.SignLegacyTx` | app/pkg/usecases/hsmconnector/hsm_connector.go:211-305 | Refused exactly without a sender or a positive chain id, and encoding fails exactly for negative amounts; a signed result decodes to nonce, gas price, gas, recipient, amount and data of the request with its chain id in V, the bytes that were signed decode to the same fields and chain id, and every reader finds the requested account as the sender |
| `Signing.SignEIP1559Tx` | app/pkg/usecases/hsmconnector/hsm_connector.go:307-364 | The same for the twelve items of a type-2 request, access list included |
| `Signing.LegacyContents` | app/pkg/usecases/hsmconnector/hsm_connector.go:250-305 | Preimage and broadcast of a legacy request decode to its own fields, one by one |
| `Signing.Type2Contents` | app/pkg/usecases/hsmconnector/hsm_connector.go:307-364 | The same for a type-2 request |
| `Signing.LegacyPreimageFits` | app/pkg/usecases/hsmconnector/types.go:278-432 | The signed bytes are never longer than the broadcast bytes |
| `Signing.TypedSignerIs` | app/pkg/usecases/hsmconnector/hsm_connector.go:548-559 | Reading R, S, V out of the hex text recovers what the assembled signature recovers |
| `Signing.SignTypedData` | app/pkg/usecases/hsmconnector/hsm_connector.go:461-503 | Refused exactly by its guards; exact failures; a signature is given for the digest of the declared domain and message fields only, and recovers the requested account |
| `TypeTables.FindDependencies` | app/pkg/usecases/eip712/eip712.go:217-236 | Terminates on every table, cyclic ones included; adds only reachable types, and every reference out of an added type stays in the set |
| `TypeTables.Dependencies` | app/pkg/usecases/eip712/eip712.go:207-215 | Returns exactly the declared types reachable through field base types, each once, in any map order |
| `TypeTables.PathStaysIn` | app/pkg/usecases/eip712/eip712.go:217-236 | A set closed under field references holds everything reachable from its members |
| `TypeTables.SortLists` | app/pkg/usecases/eip712/eip712.go:177-181 | Sorting distinct names lists the same names in strictly ascending order |
| `TypeTables.CanonicalOrderUnique` | app/pkg/usecases/eip712/eip712.go:177-190 | Primary type first and the others ascending determines the order, whatever order the map was listed in |
| `TypeTables.EncodeType` | app/pkg/usecases/eip712/eip712.go:177-204 | For every listing order the result is the one canonical type string |
| `TypeTables.TypeStringSpelled` | app/pkg/usecases/eip712/eip712.go:177-204 | The type string lists the primary type, then every other reachable type once, each smaller at the first difference than those behind it |
| `TypeTables.LessExactly` | app/pkg/usecases/eip712/eip712.go:180-181 | The sorting order: the first differing byte decides, and a prefix comes first |
| `TypeTables.BaseTypeExactly` | app/pkg/usecases/eip712/eip712.go:227-231 | The base type is what stands in front of the first bracket |
| `TypeStrings.StandardExample` | app/pkg/usecases/eip712/eip712.go:177-204 | The example of EIP-712 with two referenced struct types gives the string printed there |
| `TypedData.EncodeField` | app/pkg/usecases/eip712/eip712.go:239-316 | Returns for every value whose encoding ends, with the 32-byte digest of its normal form or the first failure |
| `TypedData.EncodeData` | app/pkg/usecases/eip712/eip712.go:146-165 | Type hash and one word per declared field: exactly 32 * (1 + fields) bytes |
| `LeafWords.IntegerWords` | app/pkg/usecases/eip712/eip712.go:336-383 | Decimal text, decimal number literal, hex text with either prefix and big integer of any n below 2^256 give the 32-byte big-endian word of n, for every integer type |
| `LeafWords.IntegerFailures` | app/pkg/usecases/eip712/eip712.go:336-383 | Negative numbers, numbers of 2^256 or more, texts that are no number and values of other kinds, each with its failure |
| `LeafWords.FloatWords` | app/pkg/usecases/eip712/eip712.go:355-366 | Floating point numbers below 2^53 lose what is behind the point; from there on they are refused |
| `LeafWords.AddressWord` | app/pkg/usecases/eip712/eip712.go:318-334 | The address in bytes 12 to 31, zeros in front, from hex text of either case with or without the prefix |
| `LeafWords.BoolWord` | app/pkg/usecases/eip712/eip712.go:287-296 | One in byte 31 for true, all zeros for false |
| `LeafWords.HashedWords` | app/pkg/usecases/eip712/eip712.go:274-286 | Strings and byte strings are hashed as they are |
| `LeafWords.FixedWord` | app/pkg/usecases/eip712/eip712.go:300-316 | Fixed byte strings stand at the left of the word, zeros behind, cut off behind 32 bytes |
| `LeafWords.ArrayWord` | app/pkg/usecases/eip712/eip712.go:256-271 | An array is the hash of its elements' words in order |
| `LeafWords.StructWord` | app/pkg/usecases/eip712/eip712.go:137-165 | A struct is the hash of its type hash and its fields' words in the declared order |
| `LeafWords.ConcatAt` | app/pkg/usecases/eip712/eip712.go:146-165 | Word i stands at byte 32 i |
| `LeafWords.Shapes` | app/pkg/usecases/eip712/eip712.go:239-271 | An absent struct has no members; values of the wrong shape are refused, each with its failure |
| `LeafWords.PrefixedBytes` | app/pkg/usecases/eip712/eip712.go:412-415 | 0x19, 0x01, domain separator, message hash, place by place |
| `TypedData.HashStruct` | app/pkg/usecases/eip712/eip712.go:137-143 | The hash of that encoding, or its failure |
| `TypedData.CanonicalConforms` | app/pkg/usecases/eip712/eip712.go:239-397 | Every value that encodes has a normal form of the shape its field type asks for |
| `TypedData.IntWordInjective` | app/pkg/usecases/eip712/eip712.go:336-383 | Different integers below 2^256 have different words |
| `TypedData.DigestBinds` | app/pkg/usecases/eip712/eip712.go:239-397 | Normal forms of one field type with equal digests are equal, or two strings hashed along the way collide |
| `TypedData.DigestsBind` | app/pkg/usecases/eip712/eip712.go:146-165 | The same for sequences of fields or elements |
| `TypedData.HashStructBinds` | app/pkg/usecases/eip712/eip712.go:137-165 | Equal struct hashes: the same normal form in every declared field, or a collision |
| `TypedData.HashTypedData` | app/pkg/usecases/eip712/eip712.go:401-421 | Message hash and signed digest of domain and message, or the first failure |
| `TypedData.SignedDigestBinds` | app/pkg/usecases/eip712/eip712.go:401-421 | Under one table equal signed digests mean equal domain and message, or a collision |
| `Nesting.EndsExactly` | app/pkg/usecases/eip712/eip712.go:239-254 | Encoding an absent value ends if and only if it ends within as many nested structs as there are declared types |
| `Nesting.NeverEndsExactly` | app/pkg/usecases/eip712/eip712.go:239-254 | It never ends if and only if some chain of structs, each reached behind fields that encode, comes to a type twice |
| `Nesting.FieldDepth` | app/pkg/usecases/eip712/eip712.go:146-165 | A field of an absent struct that is reached is itself less deep, which bounds the recursion |
| `Nesting.AcyclicEnds` | app/pkg/usecases/eip712/eip712.go:239-316 | In a table without cycles of direct nesting every absent value ends |
| `Nesting.PlainFieldEnds` | app/pkg/usecases/eip712/eip712.go:239-316 | A struct ends if, behind fields that encode, it has one that is no declared struct |
| `TypedData.EndingExactly` | app/pkg/usecases/eip712/eip712.go:239-316 | Encoding a given value ends if and only if following absent structs as deep as there are declared types is enough for it |
| `TypedData.AlwaysEndingExactly` | app/pkg/usecases/eip712/eip712.go:239-316 | Every value ends under a table if and only if every absent struct of it does |
| `TypeStrings.RenderInjective` | app/pkg/usecases/eip712/eip712.go:188-204 | Over plain names the text of a type listing determines the listing and every definition in it |
| `TypeStrings.TypeStringBinds` | app/pkg/usecases/eip712/eip712.go:177-204 | If the names reachable from it are plain, a type string determines the primary type and the definition of every reachable type |
| `TypeStrings.FieldListExactly` | app/pkg/usecases/eip712/eip712.go:191-202 | The text of a field list belongs to no other list of as many fields if and only if no space occurs in it and no comma outside the first type and the last name |
| `TypeStrings.SpaceIsAmbiguous` | app/pkg/usecases/eip712/eip712.go:188-204 | Two tables with only spaces out of place and one type string |
| `TypeStrings.CommaIsAmbiguous` | app/pkg/usecases/eip712/eip712.go:188-204 | The same for the comma |
| `TypeStrings.OpenIsAmbiguous` | app/pkg/usecases/eip712/eip712.go:188-204 | The same for the opening parenthesis |
| `TypeStrings.CloseIsAmbiguous` | app/pkg/usecases/eip712/eip712.go:188-204 | The same for the closing parenthesis |
| `TypeBinding.Transport` | app/pkg/usecases/eip712/eip712.go:137-316 | Shape, digest and hashed strings depend on the definitions a value is made of only, not on the rest of the table, whatever the names |
| `TypeBinding.StructDigestBinds` | app/pkg/usecases/eip712/eip712.go:137-204 | Under any two tables with readable names, declared types or not, equal struct digests mean equal fields, and the same type and definitions where declared; or a collision |
| `TypeStrings.FlatTypeString` | app/pkg/usecases/eip712/eip712.go:177-204 | The type string of a flat type belongs to no other type with as many fields, over all tables and names |
| `TypeBinding.ArrayNamesBreakBinding` | app/pkg/usecases/eip712/eip712.go:240-276 | With a struct named like an array, different values have one digest without any collision |
| `TypeBinding.NestedStructsBreakBinding` | app/pkg/usecases/eip712/eip712.go:188-204 | A nested struct over the plainest names shares its digest with a flat one whose field name takes in the nested definition |
| `TypedRequests.DomainBinds` | app/pkg/usecases/eip712/eip712.go:401-421 | Equal digests of two accepted requests, the first with a flat domain type or both with readable ones: the same domain type, definitions and declared values, or a collision |
| `TypedRequests.MessageBinds` | app/pkg/usecases/eip712/eip712.go:401-421 | The same for the message |
| `TypedRequests.BindsExactly` | app/pkg/usecases/hsmconnector/hsm_connector.go:461-493 | For flat types a signature is good, in the declared values, for no other accepted request of whatever names if and only if the primary type carries a field list that is not null |
| `TypedRequests.BindsReadableExactly` | app/pkg/usecases/hsmconnector/hsm_connector.go:461-493 | For all types over readable names the same, among accepted requests over readable names, in the declared values |
| `TypedRequests.ReadableIsNotEnough` | app/pkg/usecases/eip712/eip712.go:108-126 | Two accepted requests, one over readable names with a declared primary type, with different values and one digest, and no further string hashed |
| `TypedRequests.UndeclaredPrimaryUnbound` | app/pkg/usecases/eip712/eip712.go:108-126 | With a null-listed primary type any message under any other such name is accepted and has the same digest |
| `TypedRequests.UndeclaredDomainUnbound` | app/pkg/usecases/eip712/eip712.go:108-126 | With a null-listed domain type every domain has the same digest |
| `TypedRequests.BindsChainExactly` | app/pkg/usecases/hsmconnector/hsm_connector.go:476-486 | For a flat domain type a signature is good on one chain only, against every accepted request, if and only if the domain type declares a field for the chain id |
| `TypedRequests.UndeclaredChainUnbound` | app/pkg/usecases/eip712/eip712.go:83-102 | Without that field the digest is the same for every chain |
| `TypedRequests.MessageMemberExactly` | app/pkg/usecases/eip712/eip712.go:146-165 | A message member may be anything without a change of the digest if and only if the primary type does not declare it |
| `TypedRequests.DomainTextExactly` | app/pkg/usecases/eip712/eip712.go:83-102 | The same for name, version, verifying contract and salt of the domain |
| `TypedRequests.DomainLookup` | app/pkg/usecases/eip712/eip712.go:83-102 | Which member of the domain stands under which name, and that empty ones are absent |
| `TypedRequests.TypeSpellings` | app/pkg/usecases/eip712/eip712.go:272-316 | The type names the encoder compares with, letter by letter |
| `TypedRequests.MemberSpellings` | app/pkg/usecases/eip712/eip712.go:83-102 | The member names of the domain, letter by letter |
| `TransactionalManager.TransactionalManager.ExecuteInTransaction` | app/pkg/usecases/transactionalmanager/transactional_manager_usecase.go:62-125 | Every tree of nested calls, decisions by what was read and returned included, refines one flat transaction: all writes or none and the exact outcome; event by event, one begin in front, next a commit exactly when the body is done and a rollback otherwise, callbacks only behind a commit that succeeded and in registration order, a rollback behind a commit only after a callback that raised |
| `TransactionalManager.TransactionalManager.RegisterAfterCommit` | app/pkg/usecases/transactionalmanager/transactional_manager_usecase.go:128-136 | Appends in a transaction and is refused outside one |
| `TransactionalManager.TransactionalManager.RunCallbacks` | app/pkg/usecases/transactionalmanager/transactional_manager_usecase.go:114-121 | Runs the snapshot in order up to the first failure |
| `TransactionalManager.StartedIsPrefix` | app/pkg/usecases/transactionalmanager/transactional_manager_usecase.go:114-121 | Started callbacks are a prefix of the registered ones; all but the last completed, and all were started unless the last failed |
| `TransactionalManager.AttemptsOrdered` | app/pkg/usecases/transactionalmanager/transactional_manager_usecase.go:62-125 | The same order of events, for every trace and every combination of faults |
| `TransactionalManager.AttemptsRanInOrder` | app/pkg/usecases/transactionalmanager/transactional_manager_usecase.go:114-121 | The callbacks that ran are the first registered ones, right behind the commit, up to the first that did not complete |
| `TransactionalManager.OutcomeExactly` | app/pkg/usecases/transactionalmanager/transactional_manager_usecase.go:62-125 | Success exactly when nothing failed, and each failure exactly for its cause |
| `TransactionalManager.LastWriteWins` | app/pkg/usecases/transactionalmanager/transactional_manager_usecase.go:97-108 | Writes take effect in order: the last one decides its key and leaves all others |
| `TransactionalManager.FlatAppend` | app/pkg/usecases/transactionalmanager/transactional_manager_usecase.go:62-125 | Bodies written one after the other have the joined effect, up to the first failure |
| `TransactionalManager.NestedIsInlined` | app/pkg/usecases/transactionalmanager/transactional_manager_usecase.go:62-125 | A panic-free nested call whose failure is passed on is the same as its operations, and what the caller does with the response, in its place |
| `TransactionalManager.NestedPanicIsSuccess` | app/pkg/usecases/transactionalmanager/transactional_manager_usecase.go:81-94 | A nested panic is lost: the caller goes on without a response, with what was written before it |
| `TransactionalManager.TransactionalStorage.BeginTransaction` | app/pkg/commons/persistence/sql/sql_fw.go:82-98 | Opens a working copy of the committed state, or nothing |
| `TransactionalManager.TransactionalStorage.CommitTransaction` | app/pkg/commons/persistence/sql/sql_fw.go:129-143 | Installs the working copy as a whole or not at all, and fails on a closed transaction |
| `TransactionalManager.TransactionalStorage.RollbackTransaction` | app/pkg/commons/persistence/sql/sql_fw.go:112-127 | Drops the working copy and fails on a closed transaction |
| `Migrator.MapMigrationsUp` | app/pkg/commons/persistence/dbmigrator/dbmigrator.go:253-272 | The planned up scripts, or the stated refusal |
| `Migrator.MapMigrationsDown` | app/pkg/commons/persistence/dbmigrator/dbmigrator.go:274-297 | The planned down scripts, or the stated refusal |
| `Migrator.RouteIsAdjacent` | app/pkg/commons/persistence/dbmigrator/dbmigrator.go:253-297 | From v to t exactly abs(t - v) scripts, each moving the version by one towards t |
| `Migrator.PlanExactly` | app/pkg/commons/persistence/dbmigrator/dbmigrator.go:253-297 | When there is a plan, and which refusal there is otherwise |
| `Migrator.StoppedRun` | app/pkg/commons/persistence/dbmigrator/dbmigrator.go:153-251 | Schema, version and flag of a run that stops at its step i in any way; a dirty row holds the version the stopped step was to reach |
| `Migrator.DbMigrator.MigrateStep` | app/pkg/commons/persistence/dbmigrator/dbmigrator.go:216-251 | Schema, version and dirty flag after a step that stops at any point |
| `Migrator.DbMigrator.Migrate` | app/pkg/commons/persistence/dbmigrator/dbmigrator.go:153-214 | Exact database after any call; a finished call executed exactly its route and a stopped one a prefix; a dirty table is refused |
| `Migrator.StepConsistent` | app/pkg/commons/persistence/dbmigrator/dbmigrator.go:216-251 | A step of a route, stopped anywhere, leaves a database whose clean version is true, upwards always and downwards where the scripts on the route undo |
| `Migrator.RunConsistent` | app/pkg/commons/persistence/dbmigrator/dbmigrator.go:153-214 | So does a whole route if the down scripts on it undo, and without faults it ends clean at its target |
| `Migrator.RunIsConsistent` | app/pkg/commons/persistence/dbmigrator/dbmigrator.go:153-297 | After any number of calls with targets of m or above and any faults, a clean version k means that the schema is exactly up_1 to up_k, if the down scripts from m on undo |
| `Migrator.RunsConsistentExactly` | app/pkg/commons/persistence/dbmigrator/dbmigrator.go:153-297 | All such runs are consistent if and only if the down scripts from m on undo |
| `ShippedMigrations.FirstStepIsNotUndone` | app/include/dbschemas/postgres/000001_initial_schema.down.sql:1-7 | In both dialects the first down script leaves tables behind |
| `ShippedMigrations.ShippedRunsConsistentExactly` | app/include/dbschemas/postgres/db_migration_steps.yml:1-10 | Under the shipped scripts of either dialect all runs with targets of m or above are consistent if and only if m is at least 1 |
| `Migrator.DirtyBlocks` | app/pkg/commons/persistence/dbmigrator/dbmigrator.go:153-214 | A dirty database is never touched again |
| `Migrator.CallReachesTarget` | app/pkg/commons/persistence/dbmigrator/dbmigrator.go:153-214 | A call without faults reaches every target from every clean version, upwards always and downwards where the scripts on the way undo |
| `Registry.StepKeeps` | app/pkg/usecases/user/user_usecase.go:45-371 | Every operation keeps: live users, slots and accounts have live parents and an entry naming each parent's current internal id |
| `Registry.RunKeeps` | app/pkg/usecases/user/user_usecase.go:45-371 | So does every sequential run of operations |
| `Registry.RefusedWithLiveChild` | app/pkg/usecases/application/application_referential_integrity.go:12-49 | Deleting a parent with a live child is refused and changes nothing |
| `Registry.ParentsProtected` | app/pkg/usecases/referentialintegrity/referential_integrity_usecase.go:150-182 | The same after every run from the empty registry, deleted and reused ids included |
| `Registry.PinHolds` | app/pkg/usecases/referentialintegrity/referential_integrity_usecase.go:150-182 | No operation removes a stale entry, or the user or application it names |
| `Registry.PinnedUserStays` | app/pkg/usecases/user/user_usecase.go:258-283 | A user named by a stale entry survives every run |
| `Registry.PinnedApplicationStays` | app/pkg/usecases/application/application_usecase.go:122-146 | An application named by a stale entry survives every run |
| `Registry.BulkRemovalPins` | app/pkg/usecases/user/account_usecase.go:183 | Bulk removal leaves a stale entry on every user it takes an account from |
| `Registry.DuplicateUserPins` | app/pkg/usecases/user/user_usecase.go:77-89 | Creating an existing user leaves a stale entry on its application |
| `Registry.DuplicateAccountPins` | app/pkg/usecases/user/account_usecase.go:48-60 | Creating, or enabling again, an existing account leaves a stale entry on its user |
| `Deletions.RunAccounted` | app/pkg/usecases/user/user_usecase.go:45-371 | After every run each integrity entry is the link of a live resource to its parent as it is now, or was left behind by a user or an account; slots leave none |
| `Deletions.LinkAfterDelete` | app/pkg/usecases/user/account_usecase.go:134-191 | A link that survives a delete is still current, or was left behind by bulk removal |
| `Deletions.RemovedEntriesExactly` | app/pkg/usecases/referentialintegrity/referential_integrity_usecase.go:170-182 | A delete takes away exactly the links of its own resource, and only when it is done; bulk removal takes away nothing |
| `Deletions.RefusedExactly` | app/pkg/usecases/referentialintegrity/referential_integrity_usecase.go:150-182 | After every run a delete of a live resource is refused if and only if it has a live child or is pinned by an entry left behind; modules are never pinned, slots and accounts never refused |
| `Effects.RunSlotsUnique` | app/pkg/usecases/hsmslot/hsm_slot_usecase.go:517-563 | After every run no two slots serve one application or stand at one place of one module |
| `Effects.UserIsStored` | app/pkg/usecases/user/user_usecase.go:45-95 | What a user creation stores, row by row |
| `Effects.EnableEffect` | app/pkg/usecases/user/user_usecase.go:331-352 | What enabling leaves: an account for every address, the accounts there were, and no others |
| `RegistryStore.Store.CreateEntry` | app/pkg/usecases/referentialintegrity/referential_integrity_usecase.go:46-79 | Adds the entry once |
| `RegistryStore.Store.ListMyChildrenEntries` | app/pkg/usecases/referentialintegrity/referential_integrity_usecase.go:150-168 | Exactly the entries that name the resource as parent |
| `RegistryStore.Store.DeleteMyEntriesIfAny` | app/pkg/usecases/referentialintegrity/referential_integrity_usecase.go:170-182 | Removes exactly the entries of the resource |
| `RegistryStore.Store.RemoveDependencies` | app/pkg/usecases/application/application_referential_integrity.go:12-49 | Refused without change while a child entry exists, else the resource's own entries go; the check all five deletes share |
| `RegistryStore.Store.CreateApplication` | app/pkg/usecases/application/application_usecase.go:31-51 | Done exactly when the id is not taken, and then the row is live under a fresh internal id; no other row changes; the invariant is kept |
| `RegistryStore.Store.DeleteApplication` | app/pkg/usecases/application/application_usecase.go:122-146 | Refused exactly for a live child or a pin; done means that the row is gone; no other row changes; the invariant is kept |
| `RegistryStore.Store.CreateHSMModule` | app/pkg/usecases/hsmmodule/hsm_module_usecase.go:44-85 | Done exactly when the id is not taken, and then the row is live under a fresh internal id; no other row changes; the invariant is kept |
| `RegistryStore.Store.DeleteHSMModule` | app/pkg/usecases/hsmmodule/hsm_module_usecase.go:154-176 | Refused exactly for a live child or a pin; done means that the row is gone; no other row changes; the invariant is kept |
| `RegistryStore.Store.AddApplicationDependency` | app/pkg/usecases/hsmslot/hsm_slot_referential_integrity.go:14-40 | Adds the slot's application entry if the application exists |
| `RegistryStore.Store.AddHSMModuleDependency` | app/pkg/usecases/hsmslot/hsm_slot_referential_integrity.go:42-68 | Adds the slot's module entry if the module exists |
| `RegistryStore.Store.CreateHSMSlot` | app/pkg/usecases/hsmslot/hsm_slot_usecase.go:53-112 | Done exactly when module and application are live, the module answers and neither id, application nor place in the module is taken; then row and both entries are stored, and otherwise the tables are as they were |
| `RegistryStore.Store.CreateSlot` | app/pkg/usecases/hsmslot/hsm_slot_usecase.go:517-563 | Both entries first, the row last |
| `RegistryStore.Store.DeleteHSMSlot` | app/pkg/usecases/hsmslot/hsm_slot_usecase.go:286-307 | Refused exactly for a live child or a pin; done means that the row is gone; no other row changes; the invariant is kept |
| `RegistryStore.Store.AddUserToApplicationDependency` | app/pkg/usecases/user/user_referential_integrity.go:13-39 | Adds the user's entry if the application exists |
| `RegistryStore.Store.CreateUser` | app/pkg/usecases/user/user_usecase.go:45-95 | Done exactly when the roles are valid, the application is live and the user is not, and then the row is live under a fresh internal id; the entry is written as soon as the application is found; no other row changes |
| `RegistryStore.Store.DeleteUser` | app/pkg/usecases/user/user_usecase.go:258-283 | Refused exactly for a live child or a pin; done means that the row is gone; no other row changes; the invariant is kept |
| `RegistryStore.Store.AddAccountToUserDependency` | app/pkg/usecases/user/account_referential_integrity.go:12-39 | Adds the account's entry if the user exists |
| `RegistryStore.Store.CreateAccount` | app/pkg/usecases/user/account_usecase.go:31-65 | Done exactly when the user is live and the account is not, and then the row is live under a fresh internal id; the entry is written as soon as the user is found; no other row changes |
| `RegistryStore.Store.DeleteAccount` | app/pkg/usecases/user/account_usecase.go:110-132 | Refused exactly for a live child or a pin; done means that the row is gone; no other row changes; the invariant is kept |
| `RegistryStore.Store.ContainsAddress` | app/pkg/usecases/user/user_usecase.go:483-490 | Found exactly when the address is listed |
| `RegistryStore.Store.AreAddressesValid` | app/pkg/usecases/user/user_usecase.go:474-481 | True exactly when every address is known |
| `RegistryStore.Store.EnableAccounts` | app/pkg/usecases/user/user_usecase.go:285-371 | Done exactly when there are addresses, the user is live, its slot is found and the module knows every address; then every address has an account, no other account is new or changed, and otherwise nothing changes |
| `RegistryStore.Store.DeleteAllAccountsForAddress` | app/pkg/usecases/user/account_usecase.go:134-191 | When it is done exactly the rows of the address are gone, and their entries stay; a missing key is reported as not found, any other failure of the module as internal, without a change |

## Left out

- TypedData.EncodeField: requires that encoding the value ends, which is decidable and exact; the endless recursion of the other values is a failure of the normal form and not run.
- TypedData.EncodeData: same requirement as TypedData.EncodeField.
- TypedData.HashStruct: same requirement as TypedData.EncodeField.
- TypedData.HashTypedData: same requirement as TypedData.EncodeField, for domain and message.
- Signing.SignTypedData: same requirement as TypedData.HashTypedData, for requests that are not refused.
- TypedRequests.BindsExactly: flat types only; for the others, which of their values can be shared by a request over unreadable names is shown on two families and not characterised.
- TypedRequests.BindsChainExactly: flat domain types only, for the same reason.
- TypeStrings.TypeStringBinds: plain names are sufficient, and each of the four characters alone is enough to break it; which whole tables with punctuation in their names are still unambiguous is characterised for field lists only.
- Rlp.RoundTrip: encodings longer than 2^63 - 1 bytes do not exist in Go and are excluded.
- Registry.RunKeeps: sequential runs without storage faults; interleaved requests on the unwrapped user and account operations are not modelled.
- TransactionalManager.TransactionalManager.ExecuteInTransaction: bodies are finite and use the context they are given; a body that keeps an outer context, a callback that calls the manager again, and the lock around the callback list are not modelled.
- Floating point numbers in typed data are reals; NaN and infinities are not modelled.
- Go values that no JSON document produces are one constructor without content in typed data.
- Decoding into Go structs by reflection (`DecodeAndDeserialize`), identification of the transaction type, struct-tag validators and error texts: branch tables without further content.
- Keccak, elliptic curve arithmetic, PKCS#11 and cloud key calls: foreign code, kept as parameters.
- RegistryStore.Store.DeleteAllAccountsForAddress: the key itself, in the module or in the slot's LKV key store, is behind the module's answer.
- The LKV key store in a slot, slot and user edits, account disabling (a delete of one account), admins, and listing with pages: they add no parent or child link.
- Reading migration files and SQL statements; a script is a function on schemas.
- HTTP, RPC and JSON handling, metrics, logging, configuration, dependency wiring and role checks.
