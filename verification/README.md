# Verification of the block explorer's core

This project models the parts of the explorer whose meaning is decided by their own code, and proves
what those parts are for. Each component is described by functions on plain values. Code that works
step by step (parsers, writers, table walks, repair loops, stores) is a class or a method that is proved
to compute those functions; code that runs concurrently (block feed, work queue, envelope cache,
parallel runner) is a machine whose atomic steps may interleave in any order, with an invariant that
every step keeps.

What an operation gives is also stated without its functions, as a relation to its inputs with the constants
written out: the bytes of a tree (`CborBytes.IsCborOf`) and of a Go value (`GoBytes.IsEncodingOf`), what a page
is (`Pages.IsPageOf`, `AuditPage.IsAuditPage`), what an envelope and its body hold (`Envelope.HoldsEnvelope`,
`Envelope.IsBodyOf`), which string writes which bytes (`Base58.Writes`, `Ss58.IsAddressOf`), which digits a
bitmap's characters set (`OpKindBitmap.AreTopicsOf`).

| files | component |
|---|---|
| `Bytes`, `Cbor`, `CborProofs`, `CborTheorems`, `CborOrder`, `CborBytes`, `CborPrefix`, `CborCodec`, `GoValues`, `GoBytes`, `CborWriter` | the deterministic CBOR parser and encoder (section 4.2.1 of RFC 8949) |
| `Envelope`, `OpKindBitmap`, `EnvelopeCache` | audit envelopes, operation bodies, the kind bitmap and the cache of bodies |
| `AuditOrder`, `AuditPage` | the audit page over two event streams |
| `Radix`, `Base58`, `Hex`, `Ss58` | number conversion loops and checksummed addresses |
| `Ids`, `Tables`, `Pages`, `Walks`, `Dao` | packed ids, split tables and the cursor listings over them |
| `AccountIndex`, `AccountListing` | the index from an account to the tables that hold its extrinsics |
| `BlockFeed`, `WorkerQueue`, `FeedAndQueue`, `Completeness` | publishing finalized blocks, filling them, both together, repairing gaps |
| `RuntimeVersions` | which runtime version decodes a block |
| `Parallel` | the pool of five workers with an error channel |
| `Wrappers`, `Sequences`, `Sets`, `Text` | optional values, list and set facts, letter case and trimming |

`dafny verify dfyconfig.toml` checks everything.

## How the model reads the code

- A table is a sequence of rows in ascending id order, the split tables a map from table number to
  sequence; a query is a filter, an order and a limit. A query on a table that does not exist fails.
  Rows sit in the table of their block and none is stored beyond the best block's table.
- Redis keys are variables; a read and a later write of one key are separate steps.
- Hashes (Keccak-256, Blake2b) are arbitrary functions: nothing is assumed about collisions.
- A Go `uint` is 64 bits wide where that matters (`Ids.GenerateId`, `Completeness.SubUint`);
  elsewhere the numbers are far from the limit.
- Go strings are byte strings in the CBOR files, and sequences of Unicode characters elsewhere. Blanks are those of
  `unicode.IsSpace`; of `unicode.ToLower` only what `Text.IsCaseMap` says is used.
- Cursor value 0 means "no cursor", as in the code.

## What the proofs found

Where the code does not do what one would expect, the project states exactly when it does.

- One subscriber run can publish a block twice exactly when the initial mark is 0: the block is 0, which
  also stands for "nothing published yet" (`BlockFeed.RepeatsExactly`).
- The rate limiter sets its key before the enqueue is tried. A publication under a live key is dropped
  although its block was never accepted exactly when every publication that set the key failed to enqueue
  (`WorkerQueue.LimiterDropsExactly`).
- The subscriber ignores the error of a publication and goes on. A positive block dropped there is not
  published again in that run, and unless a later run reads a mark at or below it, it is never stored
  (`FeedAndQueue.DroppedStaysOut`); such a hole below the mark can form at every mark
  (`FeedAndQueue.HoleCanForm`).
- The stored mark can go down although it is only ever to be raised: exactly when a worker that read it
  earlier writes a lower block (`BlockFeed.MarkLoweredExactly`, `BlockFeed.MarkCanBeLowered`).
- The error of a re-enqueue is ignored. An accepted block is neither queued, worked on nor stored exactly
  when it is not stored and each of its accepted messages was lost that way
  (`WorkerQueue.AcceptedVanishesExactly`).
- A body that does not hash to the requested hash is returned in some run exactly when the hash is all
  blanks, which has the empty cache key (`EnvelopeCache.UncheckedExactly`).
- An envelope may carry fields besides the nine that are decoded: put into any accepted envelope under any
  new text key, any value gives other bytes that decode to the same envelope
  (`Envelope.ExtraFieldIsForgotten`). The nine fields give the bytes back exactly when there is no other
  (`Envelope.EnvelopeReencodes`).
- Below height 20 the target of the completeness check wraps around. With a node that gives the blocks up
  to its own height, the check must panic exactly then, unless the node's height reaches the wrapped target
  or the check starts beyond it (`Completeness.PanicsExactly`).
- The index migration stops at the first missing table (`AccountIndex.MigrationCompletes`), and so does
  the first page of blocks (`Dao.FirstBlockPageExact`), from which a reader then sees every block exactly
  when there is a next page before that table or nothing is below it (`Dao.BlockWalkExact`).
- The previous page of a row with id 0 is the first page (`Pages.BackUndoesForward`).
- Two audit rows at one position, with a page ending between them, lose the second
  (`AuditPage.TiedRowIsLost`, exactly: `AuditPage.WalkVisitsAll`).
- A spec version registered under a second runtime name does not lower its first block, so a block can be
  given an older version (`RuntimeVersions.SecondNameIsIgnored`). The version given is the true one exactly
  when its spec is registered at or below the block under its first name, or nothing is registered there and
  the block's own row has it (`RuntimeVersions.AnswerExact`).
- The parallel runner hangs exactly when five or more of the tasks ahead of the last one fail, because
  errors are received only after every task was handed over (`Parallel.HangsExactly`). With fewer
  than five failing tasks it never hangs.

## Model

| member | source | states |
|---|---|---|
| CborTheorems.Canonicity | internal/agentkeys/cbor.go:38-207 | re-encoding the tree of any accepted input structurally gives the input back, so each tree has one accepted encoding |
| CborTheorems.AcceptedExactly | internal/agentkeys/cbor.go:38-150 | an input is accepted as a tree if and only if the tree is canonical and the input is its encoding |
| CborTheorems.RoundTrip | internal/agentkeys/cbor.go:223-339 | the encoding of any nested value decodes to that value, maps sorted, and every byte is consumed |
| CborTheorems.ParseIgnoresTail | internal/agentkeys/cbor.go:55-150 | whatever follows an item, the same item is parsed and exactly what follows is left |
| CborTheorems.PrefixFree | internal/agentkeys/cbor.go:38-48 | no accepted input is a proper prefix of another one |
| CborTheorems.NeverDuplicate | internal/agentkeys/cbor.go:118-125 | for every input the duplicate-key error is unreachable, since strictly ascending keys are distinct |
| CborTheorems.EmitInjective | internal/agentkeys/cbor.go:231-339 | distinct canonical trees have distinct encodings |
| CborTheorems.CanonIsCanonical | internal/agentkeys/cbor.go:299-323 | sorting the maps of any encodable value at every level gives a canonical tree |
| CborTheorems.CanonOfCanonical | internal/agentkeys/cbor.go:291-292 | a decoded tree is unchanged by the encoder's sorting, which is what lets the encoder copy its raw bytes |
| CborProofs.ParseSound | internal/agentkeys/cbor.go:55-150 | the bytes an item was parsed from are the encoding of the tree it became, and that tree is canonical |
| CborProofs.ParseEmit | internal/agentkeys/cbor.go:55-150 | the encoding of a canonical tree is parsed back to that tree in front of any tail |
| CborProofs.HeadRoundTrip | internal/agentkeys/cbor.go:325-339 | a written head is read back as its major type and argument for every argument below 2^64 |
| CborProofs.HeadSound | internal/agentkeys/cbor.go:152-195 | a head that is accepted is in shortest form: writing its argument gives the same bytes |
| CborOrder.EncodingIsOrderFree | internal/agentkeys/cbor.go:299-323 | two values are encoded alike if and only if they are equal up to the order in which map entries are visited |
| CborOrder.TextKeysLengthFirst | internal/agentkeys/cbor.go:310-312 | encoded text keys compare by length first and then bytewise (section 4.2.3 of RFC 8949) |
| CborOrder.HeadMonotone | internal/agentkeys/cbor.go:325-339 | shortest-form heads of one major type are ordered as their arguments |
| CborCodec.Parser.ReadN | internal/agentkeys/cbor.go:197-207 | the shift loop reads a big-endian number and advances the offset past it, or fails at the end of the data |
| CborCodec.Parser.ReadArgument | internal/agentkeys/cbor.go:152-195 | the argument, its refusals and the new offset are those of the specification |
| CborCodec.Parser.Parse | internal/agentkeys/cbor.go:55-150 | one parsing step gives the specified value or error and leaves the specified rest; a success consumes at least one byte |
| CborCodec.Parser.ParseArray | internal/agentkeys/cbor.go:94-107 | the array loop collects exactly the specified items |
| CborCodec.Parser.ParseMap | internal/agentkeys/cbor.go:108-134 | the map loop with its previous-key and seen-key checks collects exactly the specified pairs |
| CborCodec.DecodeCBOR | internal/agentkeys/cbor.go:38-48 | the whole decoder gives the specified value or error; it succeeds with a tree if and only if the input is that tree's deterministic encoding, byte by byte, and reports trailing bytes if and only if a proper prefix is an encoding |
| CborBytes.DecodedExactly | internal/agentkeys/cbor.go:38-150 | an input is accepted as a tree if and only if it is, kind by kind, the written-out bytes of the tree: the simple values, heads of one, two, three, five or nine bytes with strings or parts behind them, and map keys strictly ascending |
| CborBytes.HeadExactly | internal/agentkeys/cbor.go:325-339 | the written and the accepted heads are those with 32 times the major type and the argument, 24 to 27 and its digits, in the fewest bytes |
| CborPrefix.TruncatedIsCut | internal/agentkeys/cbor.go:38-207 | every proper prefix of an encoding is refused as ending too soon, and with no other error |
| CborPrefix.FirstByteRefused | internal/agentkeys/cbor.go:55-150 | a first byte that no encoding begins with is refused as a foreign major type, a foreign simple value or an indefinite length |
| Bytes.LessExactly | internal/agentkeys/cbor.go:118-118 | one byte string is less than another if and only if it is a proper prefix or smaller at the first difference |
| CborWriter.Writer.AppendMajor | internal/agentkeys/cbor.go:325-339 | the explicit shifted bytes are the big-endian form of the argument behind the right head byte |
| CborWriter.Writer.AppendCanonical | internal/agentkeys/cbor.go:231-297 | appends the one encoding of a value, which is its written-out bytes, raw bytes for a decoded item, and fails if and only if it holds a negative number, a malformed JSON number or an unknown type at some depth |
| CborWriter.Writer.AppendCanonicalMap | internal/agentkeys/cbor.go:299-323 | encoding the keys, sorting by them and appending gives the pairs in canonical order, and fails if and only if some map value cannot be encoded |
| CborWriter.SortMatches | internal/agentkeys/cbor.go:310-312 | sorting the entries by encoded key puts their pairs in the order the canonical tree has |
| CborWriter.EncodeCanonical | internal/agentkeys/cbor.go:223-229 | the output is, kind by kind, the written-out bytes of the Go value: null, true and false, heads of numbers, strings and bytes behind their heads, items in order, map entries by ascending key, and there is none if and only if no bytes are such |
| GoBytes.EncodingIsTree | internal/agentkeys/cbor.go:231-323 | some bytes are the written-out encoding of a Go value if and only if it is supported and they are the sorted encoding of the tree it stands for |
| GoBytes.OrderIsSort | internal/agentkeys/cbor.go:310-312 | entries stand in ascending order of key length, then of key, if and only if their pairs are in the order the canonical tree has |
| CborWriter.EncodedIsAccepted | internal/agentkeys/cbor.go:38-48 | what was encoded from any Go value is accepted as the tree the value stands for |
| GoBytes.RawIsEncoding | internal/agentkeys/cbor.go:291-292 | the raw bytes of a decoded item are its structural encoding |
| Bytes.BigEndianMonotone | internal/agentkeys/cbor.go:325-339 | big-endian digits of one length are ordered as the numbers they stand for |
| Bytes.LessTotal | internal/agentkeys/cbor.go:118-118 | of two different byte strings one is less, so keys that are not ascending are equal or descending |
| Envelope.TextMapFaithful | internal/agentkeys/cbor.go:209-221 | the text map of an accepted map loses no pair, and encodes back to the map's bytes in whatever order it is visited |
| Envelope.ByKeyLists | internal/agentkeys/cbor.go:209-221 | with distinct keys, the text map exists if and only if every key is a text, and then has exactly the pairs as entries |
| Envelope.CollectTextMap | internal/agentkeys/cbor.go:209-221 | the collecting loop with its early refusal gives that map |
| Envelope.RenderExactly | internal/agentkeys/audit.go:276-311 | a body of a known kind is accepted if and only if its text map has the kind's fields, each of its type, and no others; the rendering is the whole map |
| Envelope.RenderedBodyReencodes | internal/agentkeys/audit.go:276-311 | a rendered body encodes back to the exact bytes of the accepted one |
| Envelope.RenderOpBody | internal/agentkeys/audit.go:276-311 | the field loop gives that rendering, the raw bytes for an unknown kind, or a refusal; the accepted bodies are those with exactly the fields the kind lists, each of its type |
| Envelope.EnvelopeReencodes | internal/agentkeys/audit.go:195-248 | the nine decoded fields written back encode to the envelope's own bytes if and only if it has no other field |
| Envelope.ExtraFieldIsForgotten | internal/agentkeys/audit.go:195-208 | any canonical value under any new text key, put into any accepted envelope, gives other bytes that decode to the same envelope |
| Envelope.FieldsDetermineEnvelope | internal/agentkeys/audit.go:195-248 | accepted envelopes with the same nine fields and no others are the same bytes |
| Envelope.AcceptedEnvelope | internal/agentkeys/audit.go:195-248 | an accepted envelope is canonical CBOR and holds every decoded field as an entry |
| Envelope.EnvelopeAcceptedExactly | internal/agentkeys/audit.go:195-248 | data is decoded to an envelope if and only if it is the encoding of a canonical map that holds version 1 and the eight other fields, each of its written-out type and size, and a body its kind accepts |
| Envelope.GenuineEnvelopeIsAccepted | internal/agentkeys/audit.go:195-248 | the encoding of the nine entries with any 64-bit time, kind and result below 256, 32-byte identities, an optional 32-byte commitment, an optional text and an accepted body is decoded to exactly these fields |
| Envelope.RenderedAsSpecified | internal/agentkeys/audit.go:276-311 | a canonical body is rendered to a result if and only if the kind is unknown and it is the body's bytes, or the body has exactly the fields of the kind with their types and it is their map |
| OpKindBitmap.OpKindTopicsFromBitmap | internal/agentkeys/audit.go:532-549 | the word is refused if and only if it is not 64 hexadecimal characters; otherwise the topics are, ascending and once each, those of the kinds k for which digit k mod 4 of the character at 63 - k div 4 is set, and their powers of two add up to the number |
| OpKindBitmap.TopicListed | internal/agentkeys/audit.go:532-549 | the topic of a kind is listed if and only if its binary digit is set |
| OpKindBitmap.TopicRoundTrip | internal/agentkeys/audit.go:524-526 | the topic written for a kind is read back as that kind, for all 256 |
| OpKindBitmap.TopicSpelled | internal/agentkeys/audit.go:524-526 | a topic is "0x", 62 zeros and the kind's two lower-case digits, the higher one first |
| OpKindBitmap.TopicExactly | internal/agentkeys/audit.go:788-799 | a word is read as a kind if and only if its lower-case form is that kind's topic, with or without "0x" |
| OpKindBitmap.BitOfByte | internal/agentkeys/audit.go:541-546 | the k-th binary digit of a big-endian number is digit k mod 8 of the byte k div 8 from the end |
| OpKindBitmap.KindsDetermineMap | internal/agentkeys/audit.go:532-549 | the listed kinds determine the bitmap |
| EnvelopeCache.CacheIsCoherent | internal/agentkeys/audit.go:325-365 | in every interleaving each cached body decodes and hashes to its non-empty key, and all successful calls for one key return the same bytes |
| EnvelopeCache.EntriesStay | internal/agentkeys/audit.go:354-362 | an entry once written never changes, nor does a finished call |
| EnvelopeCache.StepKeeps | internal/agentkeys/audit.go:325-365 | every lookup, answer and store keeps the cache coherent and growing |
| EnvelopeCache.EmptyKey | internal/agentkeys/audit.go:805-811 | a hash has the empty key if and only if it is all blanks, Unicode ones included |
| EnvelopeCache.KeyOfKey | internal/agentkeys/audit.go:805-811 | normalizing a key again changes nothing, so checking a body against the key is checking it against the requested hash |
| EnvelopeCache.KeySpelled | internal/agentkeys/audit.go:805-811 | the key of a hash between blanks is "0x" and its letters in lower case without a prefix of their own |
| EnvelopeCache.UncheckedExactly | internal/agentkeys/audit.go:250-255 | a body that does not hash to the requested hash is returned in some run if and only if the hash is all blanks |
| EnvelopeCache.BlankHashIsUnchecked | internal/agentkeys/audit.go:250-255 | a blank hash lets any well-formed body be cached and returned |
| EnvelopeCache.Cache.FetchAndDecode | internal/agentkeys/audit.go:325-365 | a call succeeds exactly on a stored key or a checked answer, returns what is then stored, and keeps every other entry |
| EnvelopeCache.FetchAndDecode | internal/agentkeys/audit.go:325-333 | without a cache every call asks the worker, and with or without one a returned body matches the requested hash |
| AuditPage.AuditRows | internal/server/http/agentkeys.go:80-96 | the page is the first page of everything the query admits in both streams: stored rows of the requested kind on the far side of the cursor's block and index, in order, and a cursor is set if and only if there is more |
| AuditPage.RequestIsFirstPage | internal/server/http/agentkeys.go:278-291 | limit + 1 rows of each stream are enough for the page and its cursor |
| AuditPage.RowsPage | internal/server/http/agentkeys.go:98-130 | filtering in place, sorting in place and cutting gives the first page of the sorted rows of the requested kind |
| AuditPage.KeepKind | internal/server/http/agentkeys.go:99-107 | the in-place filter over the same array keeps exactly the rows with the requested kind, in order, at its front |
| AuditPage.SliceStable | internal/server/http/agentkeys.go:108-119 | sorting the slice in place gives its stable sort |
| AuditPage.UnionIsComplete | internal/server/http/agentkeys.go:278-291 | the listing holds every admitted row of both streams exactly as often as stored, in stable order |
| AuditPage.WalkVisitsAll | internal/server/http/agentkeys.go:68-96 | following the cursors ends, and shows the whole listing if and only if no page ends between two rows at one position |
| AuditPage.WalkOfDistinctRows | internal/server/http/agentkeys.go:68-96 | with distinct positions the walk shows each admitted row exactly once, in either direction |
| AuditPage.WalkShows | internal/server/http/agentkeys.go:66-130 | with distinct positions the walk shows a row if and only if it is stored, has the requested kind and lies past the cursor by block and index, and then once |
| AuditPage.FirstPageIsAuditPage | internal/server/http/agentkeys.go:120-130 | the first page holds the first rows of those asked for, in order, is full when there is more, and its cursor is then the last row's position |
| AuditPage.DirectionsMirror | internal/server/http/agentkeys.go:75-82 | with distinct positions the ascending walk is the descending one reversed |
| AuditPage.NextRequest | internal/server/http/agentkeys.go:68-79 | past a page's cursor come the rows after the page, without those at the cursor's own position |
| AuditPage.TiedRowIsLost | internal/server/http/agentkeys.go:120-129 | of two rows at one position with a page end between them, the second is never shown |
| AuditOrder.StableSortUnique | internal/server/http/agentkeys.go:108-119 | a list has exactly one stable sort, so any stable library sort gives the modelled order |
| AuditOrder.SortIsMerge | internal/server/http/agentkeys.go:108-119 | sorting two ordered streams one behind the other merges them |
| AuditOrder.MergePrefix | internal/server/http/agentkeys.go:278-291 | the first k merged rows depend on the first k rows of each stream only |
| Base58.DecodeOfEncode | util/base58/base58.go:50-108 | decoding an encoding gives every byte string back, leading zero bytes included |
| Base58.EncodeOfDecode | util/base58/base58.go:50-108 | encoding a decoding gives the string back if and only if it is over the alphabet |
| Base58.Decode | util/base58/base58.go:50-79 | the weighted-sum loop and the zero padding give the bytes the string writes, and none if and only if they are none or a character is foreign |
| Base58.SumDigits | util/base58/base58.go:51-64 | the loop from the right gives the number the digits write, or stops at a foreign character |
| Base58.Encode | util/base58/base58.go:82-108 | the repeated division, the zero letters and the reversal give the string that writes the bytes |
| Base58.EncodedExactly | util/base58/base58.go:82-108 | a string is the encoding of bytes if and only if its letters as base-58 digits and the bytes as base-256 digits are the same positional number, with as many '1's in front as zero bytes |
| Base58.DecodedExactly | util/base58/base58.go:50-79 | a string over the alphabet decodes to bytes if and only if it writes them in that sense |
| Base58.DigitOfAlphabet | util/base58/base58.go:5-44 | the digit table inverts the alphabet |
| Base58.AlphabetOfDigit | util/base58/base58.go:5-44 | every character the table accepts is the letter of its digit |
| Radix.ConvertRoundTrip | util/base58/base58.go:50-108 | converting digits to another base and back gives them again, leading zeros included |
| Ss58.DecodeOfEncode | util/ss58/ss58.go:9-72 | for hexadecimal of 1, 2, 4, 8 or 32 bytes and any type, decoding the address gives the key in lower case without its prefix |
| Ss58.EncodeOfDecode | util/ss58/ss58.go:9-72 | an accepted address is rebuilt from its key and first byte if and only if its decoded length is 3, 4, 6, 10 or 35 |
| Ss58.AcceptedParts | util/ss58/ss58.go:9-48 | an accepted address is a type byte, the returned key and the right checksum |
| Ss58.DecodeExactly | util/ss58/ss58.go:9-48 | an address is answered with a key if and only if it writes bytes of one of the sixteen lengths that are a type, the key and the first bytes, as many as go with the length, of the digest of "SS58PRE", type and key; any other is refused |
| Ss58.EncodeExactly | util/ss58/ss58.go:50-72 | the address of 1, 2, 4, 8 or 32 bytes is the string that writes the low byte of the type, the key and one byte of that digest, two for 32; other lengths give none |
| Hex.HexLowers | util/hex.go:32-43 | reading hexadecimal and printing it gives it in lower case |
| Hex.HexPairsAt | util/hex.go:32-37 | each byte read is 16 times the first character's value and the second's, and 0 from the first pair on that is not hexadecimal |
| Hex.ValueSpelled | util/hex.go:32-37 | a character is read as n if and only if it is hexadecimal digit n in lower or upper case |
| Text.TrimHexSpelled | util/hex.go:20-22 | exactly a leading "0x" is taken off, once |
| Hex.BytesToHexAt | util/hex.go:39-43 | each byte is printed as two lower-case digits, the higher one first |
| Ids.PackRoundTrip | model/substrate.go:400-409 | an id unpacks to its block and index if and only if the index is below 100000 |
| Ids.PackOrder | model/substrate.go:404-409 | ids of small indexes are ordered as block number, then index |
| Ids.PackingSpelled | model/substrate.go:400-409 | an id is block times 100000 and index in 64 bits, unpacking splits it at 100000, and tables are stretches of 1000000 blocks or 10^11 ids |
| Ids.TableOfPacked | internal/dao/chainExtrinsic.go:98-100 | a cursor points into its row's table if and only if the packed offset stays inside the table |
| Ids.SmallIndexStays | model/substrate.go:302-311 | an index below 100000 keeps the cursor in the table of the row's block |
| Dao.Dao.GetExtrinsicListCursor | internal/dao/chainExtrinsic.go:82-192 | at every cursor the page is the newest rows, or those just in front when paging back, of exactly the tables that are the fixed one if any and in the account's index if one is given; with a complete index that is the page of the one unsplit table, or of the fixed one |
| Dao.Dao.GetEventListCursor | internal/dao/chainEvent.go:19-102 | at every cursor the page and both flags are those of the one unsplit table, or of the fixed one |
| Dao.Dao.ListCursor | internal/dao/chainExtrinsic.go:94-192 | the shared walk in all three directions gives the page of the one unsplit table |
| Dao.Dao.GetBlockListCursor | internal/dao/chainBlock.go:84-158 | with a cursor the page is that of the one unsplit table; the first page is that of the tables above the highest missing one |
| Dao.FirstBlockPageExact | internal/dao/chainBlock.go:141-157 | the first block page is that of the whole listing if and only if it is full before the missing table or no row is below it |
| Dao.BlockWalkExact | internal/dao/chainBlock.go:84-158 | following the end cursor from the first page shows every block if and only if the run of tables above the missing one is longer than a page or no row is below it |
| Dao.WalkDown | internal/dao/chainExtrinsic.go:118-132 | the loop to lower tables collects the newest matching rows up to the limit |
| Dao.WalkUp | internal/dao/chainExtrinsic.go:141-160 | the loop to higher tables collects the oldest matching rows above the cursor, though it compares in the first table only |
| Walks.AfterCovers | internal/dao/chainExtrinsic.go:98-100 | starting in the cursor's own table misses no row below the cursor |
| Walks.BeforeCovers | internal/dao/chainExtrinsic.go:141-145 | nor a row above it |
| Walks.BoundInOtherTables | internal/dao/chainExtrinsic.go:151-154 | in tables past the first the cursor condition changes nothing |
| Sequences.SwapReverse | internal/dao/chainExtrinsic.go:166-168 | swapping from both ends to the middle reverses the list |
| Pages.WalkVisitsAll | internal/dao/chainExtrinsic.go:118-139 | following the end cursor while there is a next page ends and concatenates to the whole listing |
| Pages.NextPage | internal/dao/chainExtrinsic.go:118-139 | a page with a next one is full, and what remains after its end cursor is the rest of the listing |
| Pages.SinglePageIsPage | internal/dao/chainExtrinsic.go:118-191 | a page holds the eligible rows at its end of the listing, newest first and at most the limit; the flag on that side says whether one is left out, the other whether there is a cursor |
| Pages.BackUndoesForward | internal/dao/chainExtrinsic.go:118-171 | if Q follows the page P, the page before Q's start cursor is P if and only if that cursor is positive or nothing is newer than P; its flags are exact |
| Pages.BackPage | internal/dao/chainExtrinsic.go:141-171 | the previous page is the rows just in front of the cursor, with an exact look-ahead flag |
| Pages.ListingDescends | internal/dao/chainExtrinsic.go:173-191 | the listing is strictly descending in id and holds exactly the matching rows |
| AccountListing.WalkOverTables | internal/dao/chainExtrinsic.go:94-192 | the concatenated pages are exactly the matching rows of all tables, strictly descending, each once |
| AccountListing.IndexedListing | internal/dao/chainExtrinsic.go:105-116 | with a complete index, listing an account over its indexed tables gives the page that filtering over all tables gives |
| AccountIndex.StoreAllKeeps | model/substrate.go:272-277 | storing a block's rows keeps every stored row, stores every new one under its id, and keeps the index complete |
| AccountIndex.ExtrinsicStore.CreateExtrinsic | internal/dao/chainExtrinsic.go:22-32 | a block's extrinsics go to the table of their ids, and a complete index stays complete |
| AccountIndex.ExtrinsicStore.UpdateAccountExtrinsicMapping | model/substrate.go:538-558 | the block's table is added to the account's list unless it is there or the account is empty |
| AccountIndex.AddIndexAdds | model/substrate.go:538-558 | afterwards an account is indexed in a table if and only if it was before or this is the added pair |
| AccountIndex.ExtrinsicStore.MigrateAccountExtrinsicMapping | internal/script/install.go:149-218 | afterwards an account is indexed in a table exactly if it was before or has a row in a table below the first missing one |
| AccountIndex.MigrationCompletes | internal/script/install.go:155-167 | the migration completes the index if and only if every account row behind the first missing table was indexed already |
| Completeness.Indexer.CheckCompleteness | internal/script/install.go:67-127 | at any height, panics if a missing block up to the 64-bit target cannot be filled, and only then unless the target is the greatest number, where it ends as its first incomplete window does; when done, every block up to the target is stored and exactly the missing ones were filled, each once, in order |
| Completeness.Indexer.CheckWindow | internal/script/install.go:114-123 | comparing the number of stored blocks with the length of the window finds every missing block |
| Completeness.WindowEnd | internal/script/install.go:105-111 | with wrapping sums, a window is not empty, has at most 3000 blocks, ends by the target and stays inside one table |
| Completeness.WindowIsLongest | internal/script/install.go:105-111 | no longer window has at most 3000 blocks of one table of 1000000 up to the target |
| Completeness.BoundsSpelled | internal/script/install.go:90-103 | the repair starts at the given block or at 2, and its target is 20 below the height in 64 bits |
| Completeness.CountIsExact | internal/script/install.go:114-116 | fewer stored numbers than the window is long if and only if one is missing |
| Completeness.PanicsExactly | internal/script/install.go:101-125 | with a node of any height at or above the finalized one, the repair must panic if and only if the finalized height is below 20, the node ends below the wrapped target and the repair starts by it |
| BlockFeed.FeedIsSafe | internal/service/substrate.go:47-95 | in every run with restarts and racing workers the published blocks form a gap-free interval from the initial mark, each 2 below a seen head, and no subscriber run repeats a positive block |
| BlockFeed.StepKeeps | internal/dao/chainBlock.go:57-81 | every step, the split read and write of the mark included, keeps the interval invariant |
| BlockFeed.MarkLoweredExactly | internal/dao/chainBlock.go:57-67 | a step lowers the mark if and only if it is the write of a block below it |
| BlockFeed.MarkCanBeLowered | internal/dao/chainBlock.go:57-67 | from every initial mark some run lowers the mark by one |
| BlockFeed.RepeatsExactly | internal/service/substrate.go:81-91 | some subscriber run publishes a number twice if and only if the initial mark is 0 |
| BlockFeed.ZeroCanRepeat | internal/service/substrate.go:81-91 | a run that publishes block 0 twice |
| BlockFeed.SubscribeService.FetchBlocks | internal/service/substrate.go:69-95 | while heads arrive between its steps, one turn publishes the consecutive numbers from behind the last block or from the mark until the next is within 2 of the newest head; it keeps the last of the first one or two heads that arrive, as many as signals have room |
| BlockFeed.SubscribeService.OnFinalizedHead | internal/service/substrate.go:47-58 | a finalized head is kept and a signal is pending afterwards; the parser waits while an earlier one is unread |
| FeedAndQueue.JointIsSafe | internal/service/substrate.go:69-95 | with queue and workers joined to the feed, the published blocks are safe as before, only published ones are accepted or stored, and accepted messages are accounted for |
| FeedAndQueue.WorkersFillPublished | internal/service/substrate.go:181-190 | a worker that stored a block and looks at the mark does so for a published block, which the feed alone takes for granted |
| FeedAndQueue.PublishedOncePerRun | internal/service/substrate.go:86-90 | whatever the queue did with it, a positive block is published once in a subscriber run |
| FeedAndQueue.PublishedFromMark | internal/service/substrate.go:79-85 | every published block is at or above the mark its own subscriber run read first |
| FeedAndQueue.DroppedStaysOut | internal/service/substrate.go:86-90 | a positive block whose publication was dropped is not published again in that run and, unless a later run reads a mark at or below it, never accepted or stored |
| FeedAndQueue.HoleCanForm | internal/service/substrate.go:86-90 | from every mark some run leaves the block at it published, unaccepted and below the mark, with the subscriber restarted |
| WorkerQueue.NothingAcceptedIsLost | internal/observer/go-worker.go:119-140 | in every reachable state each accepted message is queued, worked on, finished or lost to a failed re-enqueue; without such failures its block is queued, worked on or stored |
| WorkerQueue.LimiterDropsExactly | util/mq/jobs.go:23-33 | a publication under a live key is dropped, and its block was never accepted if and only if every publication that set the key so far failed to enqueue |
| WorkerQueue.AcceptedVanishesExactly | internal/observer/go-worker.go:119-122 | an accepted block is nowhere if and only if it is not stored and as many re-enqueues of it failed as messages were accepted |
| WorkerQueue.AcceptedCanVanish | internal/observer/go-worker.go:119-122 | a failed fill whose re-enqueue fails leaves an accepted block nowhere |
| WorkerQueue.CountsByStep | util/mq/go-workers.go:21-29 | accepted messages are counted by the publications that enqueue them, lost ones by the re-enqueues that fail |
| WorkerQueue.FailedEnqueueBlocksRetry | util/mq/go-workers.go:21-29 | after a failed enqueue the next publication is dropped unaccepted |
| WorkerQueue.StepKeeps | internal/observer/go-worker.go:119-140 | every publish, receive, expiry and end of work keeps the count of each message |
| RuntimeVersions.AnswerExact | model/runtime.go:42-62 | after registrations in any order and a reload, the version given is the true one if and only if its spec is registered at or below the block under its first name, or none is and the stored block row has it |
| RuntimeVersions.FoundExactly | model/runtime.go:46-53 | the loop finds the true spec if and only if that spec is registered at or below the block, and nothing if and only if no spec is |
| RuntimeVersions.AnswerRight | model/runtime.go:42-62 | with one name per spec, every block at or above any registered block of its own spec gets the true version |
| RuntimeVersions.TableAfterCalls | internal/dao/runtimeVersion.go:9-21 | after any calls in any order each spec has its first name and the lowest block registered under it |
| RuntimeVersions.LookupGreatest | model/runtime.go:46-53 | over ascending blocks the loop finds the greatest spec that starts at or below the block |
| RuntimeVersions.LookupStops | model/runtime.go:46-53 | over any list the loop gives the entry in front of the first one above the block, whatever comes behind it |
| RuntimeVersions.SecondNameIsIgnored | internal/dao/runtimeVersion.go:11-14 | with truthful registrations, a lower block under a second name is ignored and a block above it is given the older spec, whatever its own row says |
| RuntimeVersions.RuntimeStore.CreateRuntimeVersion | internal/dao/runtimeVersion.go:9-21 | one registration changes the table as specified, keeps every name and metadata, and reports metadata missing if and only if the spec was absent or has this name without metadata |
| RuntimeVersions.RuntimeStore.Reload | model/runtime.go:29-40 | the cache becomes all rows of the table in ascending spec order |
| RuntimeVersions.RuntimeStore.GetBlockRuntimeVersion | model/runtime.go:42-62 | an empty or expired cache is reloaded, the loop gives the specified lookup, and without an entry the stored block row is asked |
| Parallel.HangsExactly | util/parallel/parallel.go:66-111 | some interleaving hangs if and only if five or more of the tasks ahead of the last one fail |
| Parallel.FinishesExactly | util/parallel/parallel.go:66-111 | every interleaving that can go no further has finished if and only if fewer than five of those tasks fail |
| Parallel.FewFailuresNeverHang | util/parallel/parallel.go:66-111 | with fewer than five failing tasks no interleaving hangs |
| Parallel.FinishedRunIsComplete | util/parallel/parallel.go:104-110 | a finished run has run every task exactly once and its handler got exactly the raised errors, or was not called when there are none |
| Parallel.NeverPanics | util/parallel/parallel.go:99-102 | no interleaving sends on the closed channel or takes the wait group below zero |
| Parallel.RunsAreShort | util/parallel/parallel.go:66-111 | every run of n tasks ends within 7n + 5 steps |
| Parallel.StepKeeps | util/parallel/parallel.go:66-111 | every step keeps the worker, group, run and error accounts |
| Parallel.PushThenPop | util/parallel/parallel.go:43-64 | n pops give the first n functions among what was pushed, in order, and nothing if and only if they are used up |
| Parallel.TasksInOrder | util/parallel/parallel.go:43-55 | the tasks of a run are the functions of the two kinds among what was pushed, at ascending places and none left out |
| Parallel.TaskList.Pop | util/parallel/parallel.go:57-64 | tasks leave in the order they came, and nothing is returned only when none is left |

## Left out

- SQL, gorm, Redis, websockets, HTTP and SCALE decoding: libraries and I/O; their answers are parameters or steps of the model.
- Query errors other than a missing table inside the walks: assumed not to happen.
- Concurrent index updates: `UpdateAccountExtrinsicMapping` reads and writes without a lock, so the index is proved complete for one insertion after the other.
- Update in place of Go slices in the listings, the parser's items and the encoder's entries: these grow and are never shared, so they are sequences that are reassigned; the audit rows, which are filtered and sorted over one backing array, are an array.
- The internals of Go's stable sort: any stable sort gives the same list (`AuditOrder.StableSortUnique`), so an insertion sort stands for it.
- Events and extrinsics walk their tables by the same loops, which are modelled once (`Dao.WalkDown`, `Dao.WalkUp`) for both listings.
- The `raw` field of a decoded item: it is the stretch of input the item was parsed from, so it is computed rather than stored.
- Preallocation by the declared length in the parser: the length of an array or map is assumed to be one the runtime can allocate; for a greater one the source panics where the model reports the missing item.
- UTF-8 validity of texts: not checked by the source either.
- Ids.PackRoundTrip: speaks of ids that fit 64 bits, as those of block numbers below 10^14 do.
- AccountIndex.ExtrinsicStore.CreateExtrinsic: a block has at most 100000 extrinsics and its table exists already, since storing a block creates the tables one split ahead.
- JSON and base64 of the cursors, hexadecimal of envelope fields: printing of the same values.
- The list of known operation kinds: a parameter whose field names are distinct within a kind.
- DecodeEnvelope's hash comparison is modelled with the cache (`EnvelopeCache.Decoder`), where well-formedness is any predicate.
- The decoding of event logs into audit rows: every fetched log becomes one row of the same position and operation kind, or the request fails.
- AuditPage.WalkOfDistinctRows: distinct positions are a premise, since the stored index is the position within one receipt only.
- The internals of the job queue and of the worker pool: a message is queued or handed to one worker, and an Invoke waits while all five workers are busy. Workers do not crash.
- Cancellation in the parallel runner: the context is never done.
- Completeness.Indexer.CheckCompleteness: covers the blocking mode; in fast mode missing blocks are only published to the queue. A run that never ends, possible at height 19 only, is the result `Endless`.
- The shortcut that skips registrations of known spec versions: the lookup theorems speak about registered blocks and a fresh cache.
- The texts of the encoder's errors: it fails or it does not. Copying a map of strings to a map, and the loop over a list of strings, are those of maps and lists (`GoValues.GoValue`).
- Extrinsic counts, fee estimation, token holders, contract tables and the other plugins: plumbing, or dependent on remote answers.
- util/num.go's gap filling and the completeness check of the EVM plugin: not used by the modelled code.
