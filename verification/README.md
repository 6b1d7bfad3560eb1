# Verified model of the Ethereum transaction index and its neighbours

Akkad is a Cosmos SDK chain that carries Ethereum transactions.  To answer Ethereum RPC queries a
node keeps an index of them: for every Ethereum message of a block, a `TxResult` record under the
transaction hash, and the hash under block number and position.  This project models the code
around that index, and the parts of the repository that share its difficulty: byte codecs, an
event parser with two event formats, concurrent and offline indexing, a compiler from JSON to
EIP-712 types, the fee-history sweep, and gas for nested multisignatures.

## How the modules fit together

- `Words`, `Varint`, `Wire`: machine words, base 128 varints, the skipper of unknown fields with
  a grammar of the fields it accepts.
- `TxResultCodec`, `Web3Codec`, `CodecGrammar`: backward writers and decoding loops of two protobuf
  messages, and exactly which byte strings they accept.
- `Lex`, `IndexKeys`: database keys, their byte order, first and last block by iteration.
- `Events`, `EventValues`, `EventMeaning`, `EventFormats`, `EventLookups`: the event parser, the texts it
  reads, what every parse yields and when it succeeds, agreement of the two formats, and when txs are
  found by their hashes.
- `Blocks`, `KVIndex`, `IndexedRows`, `IndexAgreement`: the plain scan of a block, what indexing any
  block writes and when it panics, and the agreement of index, scan and the fallback to the Tendermint
  indexer.
- `IndexedChain`, `IndexerRuns`, `RunLookups`, `OfflineIndexing`, `ServiceProgress`, `IndexHole`: the
  database as an index of a chain, the state machine of service, commands, crashes and restarts, lookups
  in its states, the command loops as its runs, progress of the service, and a run that leaves a hole.
- `Text`, `Eip712Types`, `Eip712Meaning`, `Eip712Schema`, `Eip712Names`, `Eip712Capacity`,
  `Eip712Flatten`: type generation, what the types mean, how they are named, when generation succeeds,
  and flattening.
- `FeeHistory`, `MultisigGas`: reward percentiles; signature gas.

Loops of the source are methods with loops, and objects it updates are classes (`ParsedTxs`,
`KVIndexer`, `Schema`, `GasMeter`).  Each is tied to a function, and the properties are lemmas
about these functions.

## Main results

1. A record survives encoding and decoding bit for bit; a varint read into a word keeps the low
   bits of its value; skipper and decoders accept exactly the strings of the wire grammar and put
   every field in its place; unknown fields inserted anywhere between fields change nothing.
2. Byte order of index keys with non-negative numbers is numeric order, so the two iterators report
   the least and the greatest indexed height.
3. Every parse of every event stream yields what the last event about each tx tells, up to the stated
   corrections of gas and failure, and succeeds exactly when the stated conditions hold.
   Two event formats parse to the same txs exactly when announcements and details match up, and a tx
   is found by its own hash exactly when the hashes are distinct and, of txs announced with one hash,
   only the last keeps it.  "Distinct hashes are enough" is false of the code;
   `DuplicateAnnouncementMisleads` is the stream.
4. Indexing any block writes exactly the rows described in `RowsExactly` or panics exactly when
   `PanicsExactly` says.
   In every state of every run of services, crashes, restarts and offline commands, a hash or an index
   is found exactly when an indexed block has the row, and lookups locate
   every message of every indexed block at its place of the plain scan, if the block is well-formed
   with distinct hashes.  `WellFormed` in `IndexAgreement` says what the chain guarantees: Ethereum
   messages sit in Ethereum transactions, and the events of a delivered one cover them.  The fallback
   returns the same record field by field for every message whose event tells its hash, if the hashes
   in the events identify the txs (`HashesIdentify`, the exact condition of result 3); lookups by index
   agree exactly when the events state the right indices.
5. In every such run, over any chain in which no two blocks index the same hash (`SharedHashExcludes`
   shows the need), all heights between the first and the last indexed block are fully indexed, except
   exactly those which the service passed over after a failed `IndexBlock` and nobody indexed since.
   "The index never has gaps" is thus false of the code; `HoleInExample` is a run that leaves one,
   `HolesAreFailures` the exact condition.
6. In every interleaving of header goroutine and indexing loop no wake-up is lost, heights reach the
   indexer one by one, beginning behind the last indexed block, and from every serving state the service
   can get to any block of the node whose heights can be indexed.
7. Generated EIP-712 schemas are closed and acyclic, give every message a type that unfolds to
   exactly its shape, name every object after its path and the least free index, and adding a message
   again changes nothing.
8. The one-pass sweep of the fee history finds what a fresh search for the largest threshold so far
   finds.  That is the least reward whose gas reaches the threshold, for every threshold, exactly when
   the gas below the greatest reward fits 64 bits; then ties in the sort do not matter either.
   `TiesMatterPastOverflow` shows two orders of one block with different rewards.
9. Charging a nested multisignature is charging its selected leaves one by one.

## Where code and documentation disagree

The model follows the code.

- `server/indexer_cmd.go` says that the backward command starts from the latest block when the
  index is empty.  The loop starts one below it, so that block itself is left to the service.
- `rpc/types/events.go:136-140` speaks of filling in missing gas.  A single parsed tx takes the
  gas of the whole result even if its events state another.
- `types/gasmeter.go:79` says that consuming past the limit panics.  Only an overflow does, and it
  leaves the meter at zero.

## What stands for the outside

- The transaction decoder, `AsTransaction` and hash functions are data: a raw transaction is what
  the decoder makes of it, a message has the hash stated in it and the hash computed from it.
- The database is a map with iteration in byte order.  A batch is written as a whole or not at
  all; whether the write fails is a parameter.
- The goroutines of the service are sequentially consistent: each step reads or writes the shared
  variables at once.  Asking for the results of block `i` yields height `i`.
- `strconv.ParseUint`, `common.HexToHash`, `strings.Split` and `math/bits.Len64` are written out.
  The title caser puts the first letter of a piece in upper case and passes over digits before it.
- JSON objects are maps; field names are plain names, not gjson paths.
- `float64` percentiles enter the sweep as the thresholds computed from them.
- Iteration over Go maps may be in any order; the sorted keys do not depend on it.

## Model

| member | source | states |
|---|---|---|
| Varint.EncodeSize | types/indexer.pb.go:222-224 | the size formula on the bit length equals the length of the encoding, for every number |
| Varint.EncodeBounded | types/indexer.pb.go:222-224 | a 64-bit word takes at most ten bytes, and each byte less takes seven bits less |
| Varint.EncodeVarint | types/indexer.pb.go:180-190 | the varint ends up right in front of the offset, all other bytes of the buffer are untouched |
| Varint.ReadVarint | types/indexer.pb.go:236-249 | the loop of shifts and ORs in a word, errors included, is reading the value modulo the word size |
| Varint.ShiftInGroup | types/indexer.pb.go:236-249 | ORing one shifted group into a word, where bits past the top are lost, is adding the group to the value and cutting to the word |
| Varint.ReadValue | types/indexer.pb.go:236-249 | every varint of up to ten bytes, in any spelling, reads as its value modulo the word size, whatever follows |
| Varint.ReadExact | types/indexer.pb.go:236-249 | the loop accepts a byte string if and only if it begins with a terminated varint of up to ten bytes |
| Varint.ReadErrors | types/indexer.pb.go:236-249 | ten continuation bytes are an overflow, fewer an unexpected end, and there is no other error |
| Varint.ReadEncode | types/indexer.pb.go:236-249 | reading undoes encoding at both word widths |
| Wire.SkipField | types/indexer.pb.go:415-492 | the skipper's loop with its depth counter and index checks computes `Skip` on every input |
| Wire.SkipOne | types/indexer.pb.go:415-492 | a field, nested groups included, is stepped over as a whole at any depth |
| Wire.SkipExact | types/indexer.pb.go:415-492 | the skipper yields `n` if and only if the first `n` bytes are one well-formed field of the grammar |
| Wire.SkipPrefix | types/indexer.pb.go:415-492 | a field skipped within its input is skipped the same way whatever follows it |
| TxResultCodec.MarshalLayout | types/indexer.pb.go:132-178 | fields in order of their numbers, signed ones sign-extended, zero ones left out |
| TxResultCodec.MarshalSize | types/indexer.pb.go:192-220 | the size function is the exact length of the encoding |
| TxResultCodec.MarshalToSizedBuffer | types/indexer.pb.go:132-178 | the backward writer leaves exactly the encoding at the end of the buffer and the rest alone |
| TxResultCodec.PutField | types/indexer.pb.go:132-178 | one field goes in front of those written already |
| TxResultCodec.DecodeField | types/indexer.pb.go:234-407 | one turn of the decoder: tag, wire type check, field, or skipped field, with all error returns |
| TxResultCodec.Decode | types/indexer.pb.go:230-413 | the decoder's loop ends on every byte string and merges it into the message |
| TxResultCodec.RoundTrip | types/indexer.pb.go:230-413 | every record is decoded from its encoding, negative heights and indices included |
| TxResultCodec.MarshalInjective | types/indexer.pb.go:132-178 | different records have different encodings |
| TxResultCodec.MarshalEmpty | types/indexer.pb.go:132-178 | the encoding is empty if and only if the record is all zero |
| TxResultCodec.UnmarshalConcat | types/indexer.pb.go:230-413 | decoding a concatenation is decoding the second part into the message of the first |
| TxResultCodec.BaseIrrelevant | types/indexer.pb.go:230-413 | where the input starts decides at most which error is reported |
| TxResultCodec.UnknownFieldIgnored | types/indexer.pb.go:393-406 | a well-formed field with a number past 7 leaves the message as it is |
| TxResultCodec.UnknownFieldInsertion | types/indexer.pb.go:393-406 | inserting such a field between fields does not change what is decoded |
| CodecGrammar.TxDecodesExactly | types/indexer.pb.go:230-413 | the decoder accepts exactly the strings of fields with positive numbers whose own are varints, and yields the message with all of them put in, the last of a number winning |
| CodecGrammar.TagNumber | types/indexer.pb.go:250-251 | a tag is eight times the field number plus the wire type |
| CodecGrammar.WrongFieldRefused | types/indexer.pb.go:252-262 | a well-formed field with a wrong number or wire type is refused with the error of its kind |
| CodecGrammar.WrongTagRefused | types/indexer.pb.go:252-254 | a stray end of group and an unknown wire type are refused by decoders and skipper |
| Web3Codec.MarshalSize | types/web3.pb.go:164-182 | the size function is exact, with length-delimited fields |
| Web3Codec.MarshalToSizedBuffer | types/web3.pb.go:125-150 | the backward writer leaves exactly the encoding at the end of the buffer |
| Web3Codec.DecodeContent | types/web3.pb.go:244-273 | length, sign, overflow and end-of-input checks before content is copied |
| Web3Codec.Decode | types/web3.pb.go:192-326 | the decoder's loop computes `Unmarshal` on every byte string |
| Web3Codec.RoundTrip | types/web3.pb.go:192-326 | every option record that fits a byte slice is decoded from its encoding |
| CodecGrammar.Web3DecodesExactly | types/web3.pb.go:192-326 | the same for the option record, with its two length-delimited fields |
| CodecGrammar.Web3Layout | types/web3.pb.go:125-150 | fields in order of their numbers, empty ones left out |
| IndexKeys.ParseTxIndexKey | indexer/kv_indexer.go:239-245 | the block number is read back from an index key, negative ones included |
| IndexKeys.ParseBlockNumberExactly | indexer/kv_indexer.go:239-245 | exactly the keys of seventeen bytes are accepted, and their bytes one to eight read as a signed number |
| IndexKeys.KeyLayout | indexer/kv_indexer.go:177-186 | prefix 1 and the hash; prefix 2 and two big-endian words |
| IndexKeys.TxIndexKeyInjective | indexer/kv_indexer.go:182-186 | block number and index are determined by the key |
| IndexKeys.TxIndexKeyOrder | indexer/kv_indexer.go:182-186 | keys compare as the unsigned words they hold, block number first, for all signed arguments |
| IndexKeys.TxIndexKeyNumericOrder | indexer/kv_indexer.go:182-186 | for numbers that occur in a chain, key order is the order by block number, then index |
| IndexKeys.KeyRanges | indexer/kv_indexer.go:177-186 | hash keys lie outside the iterated range, index keys inside |
| IndexKeys.LastBlockIsMaximum | indexer/kv_indexer.go:189-199 | the reverse iterator reports the greatest height with an entry, and -1 if and only if there is none |
| IndexKeys.FirstBlockIsMinimum | indexer/kv_indexer.go:202-212 | the forward iterator reports the least height with an entry, and -1 if and only if there is none |
| Events.FillTxAttributes | rpc/types/events.go:246-275 | the attribute loop is `FillFrom`, a number out of range ends it |
| Events.ParsedTxs.AppendTx | rpc/types/events.go:179-188 | a tx numbered by its place is appended and its hash entered, or on an error nothing changes |
| Events.ParsedTxs.ReplaceTx | rpc/types/events.go:194-206 | the announced tx is replaced, a new hash entered beside the old; an event too many is a panic |
| Events.ParsedTxs.ChargeLimits | rpc/types/events.go:142-151 | every tx becomes failed and priced at its message's gas limit; a missing or foreign message is a panic |
| Events.Parse | rpc/types/events.go:92-153 | the parser as the source runs it, errors and panics included, is `ParseTxResult` |
| Events.AccumulativeGasUsed | rpc/types/events.go:237-242 | the sum of the gas up to and including the message, in 64-bit words |
| EventFormats.FillMeaning | rpc/types/events.go:246-275 | attributes are read if and only if all numbers parse, in any order; the last one with a key decides |
| EventMeaning.ParseExactly | rpc/types/events.go:92-153 | a parse of any stream succeeds if and only if all `ethereum_tx` events parse, no second part comes too early, and over the block gas limit every tx has its message; the first cause is an error, the others panics |
| EventMeaning.ParseMeaning | rpc/types/events.go:92-153 | tx `i` of any successful parse is what the last event about it tells, with gas and failure corrected over the block gas limit, or the gas of the result for a single tx |
| EventMeaning.SingleTxGas | rpc/types/events.go:136-140 | the only tx of a delivered transaction costs what the result says, whatever its event |
| EventValues.ParseDigits | rpc/types/events.go:250-260 | every number in range written in decimal is read back |
| EventValues.ParseUintExactly | rpc/types/events.go:250-260 | a text is read as a number if and only if it is the number in decimal behind any zeros, in range |
| EventValues.HexRoundTrip | rpc/types/events.go:248-249 | every hash written in hex is read back |
| EventValues.HexMeaning | rpc/types/events.go:248-249 | hex digits with or without prefix stand for their bytes |
| EventValues.HashOfBytes | rpc/types/events.go:248-249 | of more than 32 bytes the last 32 count, fewer come behind zeros |
| EventValues.HexDigitExactly | rpc/types/events.go:248-249 | digits in either case and no others |
| EventValues.HexStops | rpc/types/events.go:248-249 | reading stops before a pair that is not hex |
| EventValues.OddHex | rpc/types/events.go:248-249 | a text of odd length is read with a zero before it |
| EventFormats.ChargeLimitMeaning | rpc/types/events.go:142-151 | goes through if and only if every tx has an Ethereum message, and then changes gas and failure only |
| EventFormats.ParseNumbered | rpc/types/events.go:92-153 | after every successful parse, tx `i` has message index `i` and every known hash leads to a tx |
| EventFormats.FinishKeeps | rpc/types/events.go:136-152 | the corrections after the scan keep hashes, indices and the hash table |
| EventFormats.FormatsAgree | rpc/types/events.go:36-62 | a balanced format 2 stream, however its parts are interleaved, parses to the txs of its detail events alone read as format 1, or both fail in the same way |
| EventFormats.FormatsAgreeExactly | rpc/types/events.go:36-62 | any stream not begun in format 1 parses to the txs of its details if and only if those parse, all announcements parse, each detail follows its announcement and each announcement has its detail |
| EventLookups.FoundByHashFormat1 | rpc/types/events.go:209-214 | in format 1 every tx is found by its own hash if and only if hashes are pairwise distinct |
| EventLookups.FoundByHashFormat2 | rpc/types/events.go:194-214 | with announcements first, every tx is found by its own hash if and only if final hashes are pairwise distinct and of txs announced with one hash only the last keeps it |
| EventLookups.FoundByHash | rpc/types/events.go:209-214 | both formats in one statement, by a condition on the events |
| EventLookups.KnownHashes | rpc/types/events.go:209-214 | a hash leads to some tx if and only if it is the hash of a tx or was announced for one |
| EventLookups.DistinctAnnouncements | rpc/types/events.go:194-206 | with distinct announcements, distinct final hashes decide, even where announcement and detail disagree |
| EventLookups.DuplicateAnnouncementMisleads | rpc/types/events.go:194-206 | without them a hash leads to another tx although all final hashes differ |
| Blocks.EthMsgsFromBlock | rpc/backend/blocks.go:253-289 | the nested loops yield the messages at all counting positions, in order, with recomputed hashes |
| Blocks.PositionsExactly | rpc/backend/blocks.go:253-289 | the positions of the scan are exactly those of the Ethereum messages in transactions that count, each once, in ascending order |
| Blocks.ContainsExactly | rpc/types/utils.go:274-276 | a text contains another if and only if it stands somewhere in it |
| Blocks.CountsExactly | rpc/types/utils.go:280-282 | which results count, with the text of the error |
| KVIndex.KVIndexer.IndexBlock | indexer/kv_indexer.go:64-136 | on success the database gains the batch of the block's rows, otherwise it is unchanged; exactly when it panics, and that only the write can fail |
| KVIndex.KVIndexer.IndexMsgs | indexer/kv_indexer.go:94-130 | the message loop appends the rows of the transaction, message by message |
| KVIndex.NoError | indexer/kv_indexer.go:64-136 | no block makes indexing fail before the write other than by a panic |
| IndexedRows.RowsExactly | indexer/kv_indexer.go:73-131 | any block that does not panic gets one row for each message of each counting Ethereum transaction whose events parse, as far as events or gas limit tell its cost, in order, with all its fields, and no other row |
| IndexedRows.PanicsExactly | indexer/kv_indexer.go:73-131 | indexing panics if and only if a transaction lacks its result, its events make the parser panic, or an Ethereum transaction holds another message |
| IndexAgreement.ParsedPrices | rpc/types/events.go:142-151 | over the block gas limit the parser reports the price the indexer writes |
| IndexAgreement.RowsFollowScan | indexer/kv_indexer.go:73-131 | indexing a well-formed block writes one row per message of the plain scan, in that order, with running indices and running gas per transaction |
| IndexAgreement.BatchHolds | indexer/kv_indexer.go:228-237 | both entries of every row with its own hash and index are in the batch |
| IndexAgreement.BatchKeys | indexer/kv_indexer.go:228-237 | nothing else is in the batch |
| IndexAgreement.StoredIsFound | indexer/kv_indexer.go:149-174 | a stored record is found by hash and by index, except the all-zero record, which is taken for an absent one |
| IndexAgreement.LookupInIndex | indexer/kv_indexer.go:149-174 | in any database that holds the block's batch, index `i` and the hash of message `i` of the scan both lead to its record |
| IndexAgreement.LookupAfterIndexing | indexer/kv_indexer.go:149-174 | so in every database into which the block was just indexed |
| IndexAgreement.NothingPastTheEnd | indexer/kv_indexer.go:165-174 | an index the scan does not reach is not found, unless it was there before |
| IndexAgreement.ResolveIndex | rpc/backend/tx_info.go:68-84 | a record without an index gets the first position of its hash in the scan, or an error |
| IndexAgreement.ResolveExactly | rpc/backend/tx_info.go:68-84 | the index settled is the first place of the hash, and there is no answer if and only if no such place fits |
| IndexAgreement.FallbackNothing | rpc/backend/tx_info.go:354-377 | exactly when the fallback has no answer |
| IndexAgreement.ParseWithoutMsgs | rpc/backend/tx_info.go:367-374 | leaving the transaction undecoded changes nothing unless it exceeded the block gas limit |
| IndexAgreement.FallbackRecord | rpc/types/events.go:156-176 | before its index is settled, the fallback's record is the row of the index, up to a missing index, if the hashes in the events identify the txs |
| IndexAgreement.FallbackAgrees | rpc/backend/tx_info.go:316-330 | under the same condition on the events, index and fallback return the same record, field by field, and the missing index is settled to the same number |
| IndexAgreement.SelectByTxIndex | rpc/types/events.go:217-234 | lookup by tx index yields message `m` if and only if the first event of the transaction says `i - m`, and nothing if and only if that is out of range |
| IndexAgreement.FallbackByIndexAgrees | rpc/backend/tx_info.go:333-351 | lookups by index agree if and only if the events state the index for the message and, for the first tx, the index that many before |
| IndexedChain.RowAt | indexer/kv_indexer.go:71-73 | row `i` of block `h` has index key `(h, i)`, whatever the events say |
| IndexedChain.IndexOneMore | indexer/kv_indexer.go:64-136 | indexing a block turns the index of a set of heights into the index of one more |
| IndexedChain.IndexAgain | indexer/kv_indexer.go:64-136 | indexing an indexed height again leaves the database as it is |
| IndexedChain.NotIndexed | indexer/kv_indexer.go:64-136 | a block with rows that was not indexed is not fully there |
| IndexedChain.SharedHashExcludes | indexer/kv_indexer.go:177-186 | a database can hold two blocks in full if and only if they share no tx hash |
| IndexedChain.HeightOfIndex | indexer/kv_indexer.go:182-186 | the heights with index entries are the indexed blocks that have rows |
| IndexedChain.LastOfIndex | indexer/kv_indexer.go:139-141 | the last block reported is the greatest indexed height that has rows |
| IndexedChain.FirstOfIndex | indexer/kv_indexer.go:144-146 | the first block reported is the least indexed height that has rows |
| IndexerRuns.StepInv | server/indexer_service.go:55-124 | every step of service, header goroutine, command, crash or restart keeps the invariant: a contiguous range of heights handed to the indexer, all indexable |
| IndexerRuns.RunInv | server/indexer_service.go:55-124 | the invariant holds in every state of every run |
| IndexerRuns.HolesAreFailures | server/indexer_service.go:118-121 | in every run: every height from first to last block is indexable and fully indexed if and only if no height between them was passed over after a failed `IndexBlock` and not indexed since |
| IndexerRuns.NoHolesExactly | server/indexer_service.go:118-121 | the same for any state with the invariant |
| IndexerRuns.NoHolesWithoutFailures | server/indexer_cmd.go:35-41 | the promise of the help text: every height from first to last is indexable and fully indexed, as long as no `IndexBlock` fails inside the service |
| IndexerRuns.FailureLeavesHole | server/indexer_service.go:118-121 | a failed height followed by an indexed one leaves a hole, shown step by step |
| IndexHole.SomeRunLeavesHole | server/indexer_service.go:91-123 | on every chain that begins with three blocks with entries some run from an empty database leaves a hole |
| IndexHole.HoleInExample | server/indexer_service.go:118-121 | such a run over three concrete blocks |
| IndexerRuns.ReindexingChangesNothing | server/indexer_cmd.go:80-94 | in every run, indexing a height again changes nothing |
| RunLookups.LookupsInRuns | indexer/kv_indexer.go:149-174 | in every state of every run, both lookups lead to the record of message `i` of the scan, for every indexed block that is well-formed with distinct hashes |
| RunLookups.IndexLookupsInRuns | indexer/kv_indexer.go:165-174 | in every state of every run, an index is found if and only if an indexed block has that row, and then with the record its hash leads to |
| RunLookups.HashLookupsInRuns | indexer/kv_indexer.go:149-162 | in every state of every run, a hash is found if and only if a row of an indexed block has it, and then with the record of such a row |
| RunLookups.HashAfterIndexing | indexer/kv_indexer.go:149-162 | after one more block a hash is found with a record of that block if it has one, and otherwise answered as before |
| IndexerRuns.WakeUps | server/indexer_service.go:76-101 | whenever the loop waits although there is a block to index, a signal is in the channel or about to be sent |
| IndexerRuns.CallsInOrder | server/indexer_service.go:91-123 | a service passes each height from its start to its last block to the indexer once and in order |
| IndexerRuns.BeginsAndAdds | server/indexer_service.go:91-98 | in every run a service begins behind the last block of the index it found, or behind the latest block if that had none, and adds the heights from there to its last block, all but failed ones, and nothing else |
| ServiceProgress.ServiceGetsOnInRuns | server/indexer_service.go:76-123 | from every serving state of every run, for every block of the node up to which heights can be indexed, some path without failures gets the service to know and to have indexed it and all since it began |
| OfflineIndexing.IndexHeight | server/indexer_cmd.go:80-94 | one height is indexed if and only if its block is in the store, gets to the write and is not refused; otherwise the database is unchanged |
| OfflineIndexing.IndexBackward | server/indexer_cmd.go:97-110 | every outcome is a run that indexed a contiguous range below the starting point; it succeeds if and only if all heights down to 1 can be indexed, and otherwise stops at one that cannot |
| OfflineIndexing.IndexForward | server/indexer_cmd.go:111-124 | the same upwards from behind the last block to the newest |
| Text.SortedKeysDescending | ethereum/eip712/types.go:239-259 | the keys of an object, each once, in strictly descending order |
| Text.AfterExactly | ethereum/eip712/types.go:254-256 | the order of keys: greater at the first difference, or longer |
| Text.DescendingUnique | ethereum/eip712/types.go:239-259 | there is only one such list, so the order in which a map is walked does not matter |
| Text.SortedJsonKeys | ethereum/eip712/types.go:239-259 | gathering in any order and sorting gives that list |
| Text.SplitConcat | ethereum/eip712/types.go:353-371 | splitting a string at a separator is splitting both sides |
| Eip712Types.SanitizeTypedef | ethereum/eip712/types.go:353-371 | the nested loops over parts and pieces compute `Sanitize` |
| Eip712Types.Schema.AddTypesToRoot | ethereum/eip712/types.go:293-323 | the probing loop enters the members under the first index that is free or already holds them, or fails |
| Eip712Types.Schema.AddField | ethereum/eip712/types.go:174-231 | one field: arrays unwrapped, primitive types known, objects added, others skipped |
| Eip712Types.Schema.RecursivelyAddTypes | ethereum/eip712/types.go:158-235 | the walk over the fields updates the schema as `AddObject` says, on success and failure |
| Eip712Types.CreateEip712Types | ethereum/eip712/types.go:50-102 | the loop over the messages computes `CreateTypes` |
| Eip712Meaning.ObjectGrows | ethereum/eip712/types.go:158-235 | adding an object adds types and changes none, even when it fails |
| Eip712Meaning.ObjectName | ethereum/eip712/types.go:264-269 | an object's type name is no primitive, array or base type, and below the root sanitising leaves it alone |
| Eip712Meaning.RootTypeOf | ethereum/eip712/types.go:130-143 | the root type is what follows the last slash of the message type |
| Eip712Names.RootTypeExactly | ethereum/eip712/types.go:130-143 | no root type if and only if the type is missing, no string or empty |
| Eip712Meaning.SanitizeSubField | ethereum/eip712/types.go:282-284 | the type name below a field is the name above it and the field's own part |
| Eip712Names.PiecesAreCamel | ethereum/eip712/types.go:353-371 | the pieces of a name are its camel-case form, read in one pass |
| Eip712Names.CamelConcat | ethereum/eip712/types.go:364-367 | an underscore separates |
| Eip712Names.CamelPiece | ethereum/eip712/types.go:364-367 | in a piece that begins with a letter, only that letter changes, to its capital |
| Eip712Names.PrefixName | ethereum/eip712/types.go:264-284 | the name of a path: `Type` and the camel-case forms of its fields |
| Eip712Names.DocumentedName | ethereum/eip712/types.go:349-353 | the example the source documents |
| Eip712Names.ObjectIsNamed | ethereum/eip712/types.go:158-235 | every object of a message is named after its path with the least index whose entry is free or holds the same members, in this schema and every later one |
| Eip712Names.CreatedTypesNamed | ethereum/eip712/types.go:50-126 | so in every generated schema, messages being named after their types |
| Eip712Names.BaseTypesKept | ethereum/eip712/types.go:51-88 | the base types of every schema, spelled out |
| Eip712Names.CreationFails | ethereum/eip712/types.go:106-143 | a message that is missing, no object or without a type makes generation fail |
| Eip712Meaning.DenotesUnique | ethereum/eip712/types.go:335-347 | a type name unfolds to at most one shape |
| Eip712Meaning.ObjectMeans | ethereum/eip712/types.go:158-235 | in the resulting schema and every later one the name an object got unfolds to exactly the object's shape |
| Eip712Schema.ProbeAgain | ethereum/eip712/types.go:293-323 | probing again, in any later schema, ends at the same name |
| Eip712Schema.ObjectAgain | ethereum/eip712/types.go:158-235 | a payload added again to any later schema gets the same name and changes nothing |
| Eip712Schema.ObjectGood | ethereum/eip712/types.go:158-235 | every walk keeps a schema closed and acyclic, on success and failure |
| Eip712Schema.CreatedTypesDescribe | ethereum/eip712/types.go:50-126 | every generated schema is closed and acyclic, keeps the base types, and gives each message a member that unfolds to the message's shape |
| Eip712Capacity.AddMembersFull | ethereum/eip712/types.go:293-323 | a structure is refused only by a schema of at least a thousand types |
| Eip712Capacity.ObjectFits | ethereum/eip712/types.go:158-235 | an object is added without failure while types and objects together do not exceed a thousand |
| Eip712Capacity.CreationSucceeds | ethereum/eip712/types.go:50-102 | generation succeeds for every payload of typed objects within that bound |
| Eip712Flatten.FlattenPayloadMessages | ethereum/eip712/message.go:84-106 | the loop over the messages computes `Flatten` |
| Eip712Flatten.FlattenExactly | ethereum/eip712/message.go:84-145 | flattening succeeds if and only if there is an array of objects and no field it needs is taken |
| Eip712Flatten.FlattenMeaning | ethereum/eip712/message.go:84-162 | every message is at its field, the array is gone, all else is kept |
| Eip712Flatten.UnflattenFlatten | ethereum/eip712/message.go:84-106 | the payload is recovered from the flattened one |
| Eip712Flatten.SchemaOfPayload | ethereum/eip712/message.go:40-64 | end to end: the schema of a flattened payload gives message `i` a member that unfolds to its shape |
| FeeHistory.Gather | rpc/backend/utils.go:174-198 | the entries of all Ethereum messages of decodable transactions, each once, in the order of the block, with the gas of the transaction |
| FeeHistory.GatherExactly | rpc/backend/utils.go:174-198 | the gathered list is that list |
| FeeHistory.GatheredUnique | rpc/backend/utils.go:174-198 | there is only one such list |
| FeeHistory.SearchContinues | rpc/backend/utils.go:208-218 | a search for a higher threshold may start where the one for a lower threshold ended |
| FeeHistory.Sweep | rpc/backend/utils.go:208-218 | each reward is that of a fresh search for the largest threshold so far, in wrapping sums, and rewards do not go down |
| FeeHistory.SearchFindsReward | rpc/backend/utils.go:208-218 | the search finds the least reward at which the gas of all entries up to it reaches the threshold, or the greatest reward, if the gas below the greatest reward fits 64 bits |
| FeeHistory.SearchFindsRewardExactly | rpc/backend/utils.go:208-218 | it does so for every threshold if and only if that gas fits 64 bits |
| FeeHistory.SearchFindsRewardInWords | rpc/backend/utils.go:208-218 | for every threshold of 64 bits if and only if that gas fits, or the sum meets the greatest word at an entry of the first reward that reaches it |
| FeeHistory.RewardUnique | rpc/backend/utils.go:208-218 | there is only one such reward |
| FeeHistory.TiesDoNotMatter | rpc/backend/utils.go:45-59 | an unstable sort cannot change any reward while the gas below the greatest reward fits 64 bits |
| FeeHistory.TiesMatterPastOverflow | rpc/backend/utils.go:208-218 | past that it can: a block of four transactions, two sorted orders of its entries, different rewards |
| FeeHistory.RewardRow | rpc/backend/utils.go:165-221 | the whole row over these entries: zeros without any, else rewards that do not go down and, while the gas below the greatest fits 64 bits, are the described ones |
| MultisigGas.GasMeter.ConsumeGas | types/gasmeter.go:71-87 | panics if and only if the sum overflows, leaving zero; the limit is not looked at |
| MultisigGas.GasMeter.RefundGas | types/gasmeter.go:95-101 | panics if and only if less was consumed, leaving the meter alone |
| MultisigGas.ConsumeThenRefund | types/gasmeter.go:80-101 | a refund takes back exactly what was consumed |
| MultisigGas.SigVerificationGasConsumer | app/ante/sigverify.go:50-76 | outcome and meter after one signature are those of `Charge` |
| MultisigGas.ConsumeMultisignatureVerificationGas | app/ante/sigverify.go:79-103 | outcome and meter after the loop over the bit array are those of `ChargeMulti` |
| MultisigGas.ChargeIsLinear | app/ante/sigverify.go:50-103 | charging a nested multisignature is charging its selected leaves one by one, errors, missing keys or signatures and overflows included |
| MultisigGas.ChargeExactly | app/ante/sigverify.go:50-103 | success if and only if every selected leaf is an eth_secp256k1 key with its signature and the total fits; the meter then rises by 21000 per leaf |

## Left out

- TxResultCodec.Decode: a message half filled by a failing decode is not modelled; messages are values.
- Blocks.EthMsgsFromBlock: requires a result for every transaction, without which the source panics.
- FeeHistory.TiesDoNotMatter: goes one way; entries without ties agree past an overflow too.
- EventLookups.FoundByHashFormat2: says nothing of streams with an announcement after a detail, which neither format has.
- FeeHistory.RewardRow: the source sorts in place with an unstable sort; the model sorts a list by insertion and shows that ties do not matter.
- ServiceProgress.ServiceGetsOnInRuns: says that such a path exists; that the scheduler takes its steps is not modelled.
- Eip712Names.CamelPiece: word breaks the title caser sees inside a piece, as at a hyphen, and letters beyond ASCII are not modelled.
- Data races of the service's goroutines under a weaker memory model.
- The signed words the decoder accumulates into are modelled as bit patterns, converted once at the end.
- Duplicate keys in JSON objects and gjson path characters in field names.
- Receipts, logs and cumulative gas over a block in `rpc/backend/tx_info.go`.
- Base fee, next base fee and gas ratio of the fee history.
- Legacy EIP-712 encoding, hashing of typed data and signature verification.
- Ante handlers other than signature gas, the keepers of the chain's modules, command line wiring.
