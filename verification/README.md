# IP-to-country data and the Windows DNS modifier, in Dafny

This project models two parts of the repository and proves properties of them.

**The IP-to-country pipeline (`ip_country`).** A country database is a stream of address ranges with
country codes. Consecutive ranges of one country are joined (`Coalescer.dfy`), codes become positions in a
sorted country table (`Countries.dfy`), and the blocks of each address family are written as a
delta-compressed bit stream with the gaps filled (`Format.dfy`, `Tiling.dfy`, `Serializer.dfy`) into a
bit-level FIFO held in bytes (`QueueBytes.dfy`, `BitQueue.dfy`, `QueueRuns.dfy`). The stream is kept as
64-bit words (`Packing.dfy`), decoded again (`Deserializer.dfy`) and searched (`Finder.dfy`).
`EndToEnd.dfy` joins all of it: for every address the country found is the one the database has.
`Words.dfy` holds the machine-word operators as the bitwise functions they are, `Addresses.dfy` the
addresses of both families (IPv4 as four segments of eight bits, IPv6 as eight of sixteen) and `Ranges.dfy`
the ranges.

**The Windows DNS modifier (`dns_utility`).** `WinDns.dfy` and `WinDnsModifier.dfy` model `subvert` and
`revert` over a registry of interfaces. Every write to the registry or through netsh may fail, without
effect; one that succeeds takes effect, so that a netsh call sets the interface's `NameServer`. A call goes
from interface to interface, stops at the first failure and rolls back what it visited; a failure during a
rollback is a panic and ends a run.

How to read the model:

- State that the program updates in place is a class with the program's fields; each method is proved
  against functions on values, and the theorems are about those functions.
- A panic, an `expect` that fails, a shift by the width of its operand and an index out of bounds are
  proof obligations: the `requires` of a class's public method says what the program needs of its caller so
  as not to panic; a private helper's also says what keeps the state one that can be reached. Inside
  `BitQueue` no panic can happen in any reachable state; the one-byte state that an exact drain of whole
  bytes leaves is one of those states (`QueueBytes.Shape`).
- Where comments and code of the program disagree the model follows the code. The live bits of the front
  byte of a bit queue are its low-order ones, not the high-order ones its field comment implies
  (`ip_country/src/bit_queue.rs:9` and `:181-185`). Gaps are filled by the serializer, not by the
  deserializer as the format description has it (`ip_country/src/country_block_serde.rs:29-34` and `:256-266`).

Five properties one might expect are false of the code, and their exact conditions are proved:

- `add_bits` does not mask its data. It appends the right bits, but excess data bits stay in the blank of
  the back byte and are or-ed into the next addition. `QueueRuns.OverwideDataExactly` gives the condition
  under which that does not happen and `QueueRuns.OverwideDataSmears` an input for which it does.
- A country index of 512 or more is accepted and corrupts the stream. `Deserializers.CodecRoundTrip` has the
  condition under which the stream is read as what was written, `Deserializers.TooLargeCountryMisread` an
  input for which it is not.
- A `subvert` that fails does not always leave the settings as they were: its rollback also un-subverts
  interfaces that an earlier call subverted. `WinDns.SubvertAtomicExactly` gives the condition for one call,
  `WinDns.SubvertAlwaysAtomic` that on registry and listing, and `WinDns.RefusedSubvertCanUnsubvert` an instance.
- Nor does a `revert` that fails: its rollback subverts interfaces that were not subverted, and backs up their
  servers over the older backup. `WinDns.RevertAtomicExactly`, `WinDns.RevertAlwaysAtomic` and
  `WinDns.RefusedRevertCanSubvert` are the same three.
- A panic can lose the user's servers. The rollback of a `subvert` deletes the backup before it sets the servers
  back. `WinDns.PanicKeepsOriginals` says exactly when they survive and `WinDns.PanickedSubvertLosesServers` is an
  instance in which they do not; the rollback of a `revert` never loses them.

## Model

| member | source | states |
|---|---|---|
| EndToEnd.BuildAndFind | ip_country/src/ip_country_mmdb.rs:27-96 | For every database whose non-empty ranges ascend within each family and serve both, every order of the code-name pairs it yields that makes a table of at most 512 countries, and every address: after joining, table building, serializing, packing, reloading with the table rebuilt from its emitted list, decoding and searching, an address in no range or in one without a code is answered with no country; one in a range with a code is answered with the country of that code in capitals, under a name that a range of that code has or "Unknown" where one has none, and with no country if no range has the code in capitals or it is the sentinel's; an answered country is in the table |
| EndToEnd.CodeAnsweredExactly | ip_country/src/countries.rs:27-62 | For every pair list and code: the answer is the last pair whose code is the given one in capitals, and no country if there is none or it is the sentinel's |
| EndToEnd.DatabaseAnsweredExactly | ip_country/src/ip_country_mmdb.rs:27-96 | The table's answer for the code of the first range holding an address is the one that the range's own code and the names of all ranges give |
| EndToEnd.SerializeAndFind | ip_country/src/country_finder.rs:26-60 | For every list of blocks that is sorted and non-empty in each family, with known countries below 512: serialize, pack, unpack, decode and find gives for every address what a linear scan of the original list gives |
| EndToEnd.Serialize | ip_country/src/ip_country_mmdb.rs:87-92 | Adding any list sorted in each family never panics, whatever the country indexes, and both finished queues hold what writing the gap-filled lists leaves |
| EndToEnd.CountryFor | ip_country/src/ip_country_mmdb.rs:64-86 | The country put into a block has an index in the table, and looking that index up later answers as looking the code up does, unknown codes answering none |
| EndToEnd.PackedDecodes | ip_country/src/ip_country.rs:138-155 | The words of a finished queue whose country indexes are known and below 512 decode to exactly the gap-filled blocks |
| EndToEnd.AnswerIsExpected | ip_country/src/country_finder.rs:42-60 | In the decoded blocks of any sorted list every address lies in a block, and its answer is that of a scan of the original list |
| EndToEnd.OpenToNext | ip_country/src/country_block_serde.rs:256-268 | While a sorted list has a block to come, the state admits it: the difference list is never empty |
| Deserializers.CodecRoundTrip | ip_country/src/country_block_serde.rs:175-281 | For either family and any non-empty sorted list, the serializer writes the list with every head, interior and tail gap made one block of country 0, which tile the address space, and what it writes reads back as those blocks if and only if every country index is below 512 |
| Deserializers.TooLargeCountryMisread | ip_country/src/country_block_serde.rs:276 | In either family the whole space as one block of country 512 is written and not read back |
| Deserializers.TilingRoundTrip | ip_country/src/country_block_serde.rs:528-600 | What is written for any tiling of the address space reads back as that tiling if and only if every country index is below 512 |
| Deserializers.AnyStreamChains | ip_country/src/country_block_serde.rs:566-600 | On any bit string with one complete record, each block read ends right before the next starts, wrapping, the last ends at the maximum, and there are at most as many as 21 (IPv4) or 31 (IPv6) bits each allow |
| Deserializers.BlockDeserializer.constructor | ip_country/src/country_block_serde.rs:528-546 | A new iterator over words that hold a complete record has all the blocks of the stream pending |
| Deserializers.BlockDeserializer.Next | ip_country/src/country_block_serde.rs:566-600 | Yields the first pending block with its country from the table and leaves the others; with none pending it yields none, ever after |
| Deserializers.TakeRecord | ip_country/src/country_block_serde.rs:548-564 | Takes from the queue exactly what the reading function takes from the bits, incomplete records included |
| Deserializers.TakeDifferences | ip_country/src/country_block_serde.rs:602-616 | The same for the differences, skipping the fields the stream is too short for |
| Deserializers.ApplyDifferences | ip_country/src/country_block_serde.rs:661-675 | The loop over differences writes them over the segments; every write is in bounds and fits |
| Format.DifferencesInvert | ip_country/src/country_block_serde.rs:305-322 | Applying the differences between two addresses to the first gives the second; there are none only for equal addresses and never more than the segments; indexes and values fit |
| Format.DifferencesExact | ip_country/src/country_block_serde.rs:305-322 | The differences are exactly the segments that differ, each once, in ascending order, with the values they change to |
| Format.FieldBounds | ip_country/src/country_block_serde.rs:227-237 | The field widths hold exactly the segment indexes, the segment values and 512 countries |
| Format.ReadDifferencesFit | ip_country/src/country_block_serde.rs:661-675 | Whatever the bits, differences read from them have an index within the segments and a value within a segment |
| Format.AppliedExact | ip_country/src/country_block_serde.rs:661-675 | Whatever the differences, repeated or not, the last one for a segment decides, and a segment without one stays |
| Format.CountryFieldExact | ip_country/src/country_block_serde.rs:276 | Nine bits give a country index back exactly when it is below 512 |
| Format.RecordSize | ip_country/src/country_block_serde.rs:267-276 | A record whose start differs from the one before in k segments takes 11 + 10k bits (IPv4, k from 1 to 4) or 12 + 19k bits (IPv6, k from 1 to 8) |
| Format.StreamSizeExact | ip_country/src/country_block_serde.rs:267-279 | The length of a stream is the sum of those sizes |
| Format.StreamSize | ip_country/src/country_block_serde.rs:267-279 | It lies between 21 and 51 (IPv4) or 31 and 164 (IPv6) bits times the records |
| Format.RecordReadBack | ip_country/src/country_block_serde.rs:548-564 | A record written after any previous start reads back as itself and leaves what follows it |
| Format.ReadRecordExact | ip_country/src/country_block_serde.rs:548-564 | On any bits a record is read if and only if there are as many as its count calls for, and the bits read, written out again, and those left are the bits there were |
| Format.RecordsReadBack | ip_country/src/country_block_serde.rs:548-564 | A whole stream of records with countries below 512 reads back as the list it was written from |
| Tiling.GapFilledTiles | ip_country/src/country_block_serde.rs:187-194 | A sorted list with its gaps filled tiles the address space from its start to the maximum |
| Tiling.GapFilledMeaning | ip_country/src/country_block_serde.rs:256-266 | Filling gaps changes no address's block and gives country 0 to addresses that had none |
| Tiling.EmittedIsGapFilled | ip_country/src/country_block_serde.rs:256-266 | The fillers made by wrapping plus-one and minus-one, the wrap before the first block included, are exactly the gaps of the list as intervals of integers |
| Tiling.RunTiles | ip_country/src/country_block_serde.rs:247-280 | After every addition of a sorted stream the blocks written tile the addresses up to the last end |
| Serializers.IpSerializer.constructor | ip_country/src/country_block_serde.rs:290-303 | Starts with nothing written, compared against one below the maximum |
| Serializers.IpSerializer.WriteRecord | ip_country/src/country_block_serde.rs:267-276 | Leaves the queue, live and blank bits, as the additions of the count, the differences and the country leave it, for every country index; the count written cannot underflow |
| Serializers.IpSerializer.AddIp | ip_country/src/country_block_serde.rs:247-280 | From every state whose next address is not its last start, for every country index, writes the filler, if any, and the block, recursing once at most, and keeps the count equal to the number of blocks written and the queue what writing those blocks to a new one leaves |
| Serializers.IpSerializer.Close | ip_country/src/country_block_serde.rs:187-194 | Writes the tail filler unless the last block ends at the maximum |
| Serializers.CountryBlockSerializer.constructor | ip_country/src/country_block_serde.rs:158-173 | Both families start empty |
| Serializers.CountryBlockSerializer.Add | ip_country/src/country_block_serde.rs:175-180 | Adds a block to its family's stream and leaves the other family alone |
| Serializers.CountryBlockSerializer.Finish | ip_country/src/country_block_serde.rs:182-209 | Hands over, for each family and for every country index, the queue that writing its blocks with all gaps filled leaves, and their number |
| Serializers.WrittenIsStream | ip_country/src/country_block_serde.rs:267-276 | While all country indexes are below 512 that queue is clean and holds exactly the stream of the blocks |
| Serializers.EmittedAllFit | ip_country/src/country_block_serde.rs:256-266 | Fillers add no country that does not fit: the blocks written have all indexes below 512 if and only if the blocks added do |
| Serializers.OpenAfter | ip_country/src/country_block_serde.rs:267-268 | A state reached by blocks that do not end at the maximum has a next address other than its last start |
| BitQueues.BitQueue.constructor | ip_country/src/bit_queue.rs:19-26 | A new queue is empty and its blank bits are zero |
| BitQueues.BitQueue.Len | ip_country/src/bit_queue.rs:28-30 | The length is the number of queued bits |
| BitQueues.BitQueue.AddBits | ip_country/src/bit_queue.rs:37-56 | In every reachable state, for all data, the queued bits grow by the low bits of the data or-ed with the blank of the back byte, which is left with the next bits of that or; a clean queue grows by the low bits of the data and stays clean if the data fits |
| BitQueues.BitQueue.TakeBits | ip_country/src/bit_queue.rs:59-103 | Yields the oldest bits as a little-endian number and removes them, or nothing with the queue unchanged when there are too few |
| BitQueues.BitQueue.AddSomeBackBits | ip_country/src/bit_queue.rs:117-135 | Ors data into the back byte, leaving live bits alone, and follows a full byte with a fresh one |
| BitQueues.BitQueue.AddBackBytes | ip_country/src/bit_queue.rs:137-165 | Appends the whole bytes of the data once the back byte is full or untouched |
| BitQueues.BitQueue.TakeSomeFrontBits | ip_country/src/bit_queue.rs:167-192 | Takes the oldest bits that the front byte has |
| BitQueues.BitQueue.TakeFrontBytes | ip_country/src/bit_queue.rs:194-229 | Takes whole bytes once the front byte is exhausted or untouched |
| BitQueues.BitQueue.TakeSomeBackBits | ip_country/src/bit_queue.rs:231-251 | Takes the low bits that the back byte has, which are the oldest when the front has none |
| QueueBytes.AddedInStages | ip_country/src/bit_queue.rs:44-52 | The three stages of an addition, for every fill of the back byte, amount to one append |
| QueueBytes.AddedClean | ip_country/src/bit_queue.rs:117-135 | On a clean queue the data's low bits are appended, and data that fits leaves it clean |
| Words.LowOrderOnes | ip_country/src/bit_queue.rs:113-115 | The complement of the shifted all-ones word is the mask of that many low bits |
| QueueRuns.RunQueue | ip_country/src/bit_queue.rs:37-103 | Every interleaving of additions whose data fits and takings answers as a FIFO of bits does |
| QueueRuns.FifoConserves | ip_country/src/bit_queue.rs:37-103 | Over every run, bits taken followed by bits left are bits held followed by bits added |
| QueueRuns.OverwideDataExactly | ip_country/src/bit_queue.rs:122-129 | After an addition to a clean queue all later additions are exact if and only if the data bits above the count, as many as are then blank, are zero |
| QueueRuns.OverwideDataSmears | ip_country/src/bit_queue.rs:128 | An input for which they are not |
| Packing.Pack | ip_country/src/ip_country.rs:138-155 | Drains any queue into the words of its bits |
| Packing.Unpack | ip_country/src/country_block_serde.rs:690-701 | Rebuilds a queue holding the first bits of the words |
| Packing.PackedSnug | ip_country/src/ip_country.rs:144-155 | There are just enough words, and the unused high bits of the last are zero |
| Packing.PackedSize | ip_country/src/ip_country.rs:144-155 | The number of words is the number of bits over 64, rounded up |
| Packing.UnpackedOfPacked | ip_country/src/country_block_serde.rs:690-701 | Unpacking what was packed gives the same bits |
| Packing.PackedOfUnpacked | ip_country/src/country_block_serde.rs:690-701 | Packing what was unpacked gives the same words |
| Addresses.IntegerFromIp | ip_country/src/country_block_serde.rs:409-423 | The shift-and-or fold over octets is the big-endian value of the segments, for both families |
| Addresses.SameValueSameIp | ip_country/src/country_block_serde.rs:358-380 | Segments and integers correspond one to one |
| Addresses.ValueOfFromValue | ip_country/src/country_block_serde.rs:382-407 | An integer below 2^32 or 2^128 made into segments has that value |
| Addresses.PlusOneValue | ip_country/src/country_block_serde.rs:383-399 | Plus one wraps only at the maximum |
| Addresses.MinusOneValue | ip_country/src/country_block_serde.rs:388-406 | Minus one wraps only at zero |
| Addresses.StepsInverse | ip_country/src/country_block_serde.rs:382-407 | The two undo each other at every address, the ends included |
| CountryTable.NewCountriesConsistent | ip_country/src/countries.rs:27-48 | For every pair list the sentinel is at 0, each index is its position, the rest are in order of code and are exactly the other pairs, those of one code in the order they came |
| CountryTable.CodeLeExact | ip_country/src/countries.rs:39 | Codes are ordered by the first character in which they differ, ascending, and a code goes before its extensions |
| CountryTable.WithoutSentinelMultiset | ip_country/src/countries.rs:31-38 | Exactly the first sentinel pair, if there is one, is dropped |
| CountryTable.WithoutSentinelKeeps | ip_country/src/countries.rs:31-38 | The pairs of every code keep their order, and only the first sentinel pair goes |
| CountryTable.SortIsSort | ip_country/src/countries.rs:39 | The sort orders, permutes and keeps pairs of one code in their order |
| CountryTable.StableSortUnique | ip_country/src/countries.rs:39 | Any stable sort by code gives that list |
| CountryTable.IndexByCodeIsLast | ip_country/src/countries.rs:13-24 | The index has exactly the listed codes and gives each its last position |
| CountryTable.LookupExact | ip_country/src/countries.rs:50-62 | A lookup finds the last country with the upper-cased code, fails only if there is none, and never meets an index beyond the list |
| CountryTable.UpperExact | ip_country/src/countries.rs:51 | Upper-casing turns each of the 26 letters into its capital and leaves every other character |
| CountryTable.FoundByOwnCode | ip_country/src/countries.rs:50-62 | A country is found under its own code if and only if the code is in upper case and no later country has it |
| CountryTable.RebuildSame | ip_country/src/ip_country.rs:99-130 | The table rebuilt from the list that generated code carries is the same table, for every pair list |
| Ranges.OrderingByRange | ip_country/src/country_block_stream.rs:76-104 | Equal exactly when the range contains the address |
| Ranges.ConsecutiveIsPlusOne | ip_country/src/country_block_stream.rs:111-128 | Consecutive, below the maximum, is being the wrapping successor |
| Finders.Collect | ip_country/src/country_finder.rs:33-38 | Collects all the pending blocks in order |
| Finders.NewFinder | ip_country/src/country_finder.rs:26-40 | The finder holds both families' decoded blocks |
| Finders.OrderingMonotone | ip_country/src/country_block_stream.rs:88-104 | Along ascending blocks the comparator never steps back and is Equal at most once |
| Finders.BinarySearch | ip_country/src/country_finder.rs:47-48 | A hit contains the address; on ascending blocks a miss means no block does |
| Finders.FindCountry | ip_country/src/country_finder.rs:42-60 | On ascending blocks the answer is that of a linear scan, the sentinel answering none |
| Finders.TilesAscending | ip_country/src/country_finder.rs:42-48 | A tiling of the address space is ascending |
| Coalescing.RangeCollector.AddOrCoalesce | ip_country/src/ip_country_mmdb.rs:109-130 | Joins the range with the last one if they are consecutive and same-coded, else adds it |
| Coalescing.ExtractData | ip_country/src/ip_country_mmdb.rs:103-173 | The stream folded in order, for every stream without same-coded neighbours of two families or past the maximum, and the set of the code-name pairs of all its ranges, missing codes and names replaced |
| Coalescing.CoalescedKeepsMeaning | ip_country/src/ip_country_mmdb.rs:108-130 | For every stream of non-empty ranges no address's code changes, the list is no longer, no neighbours are left to join, and an ascending list stays ascending |
| Coalescing.CoalescedIsCanonical | ip_country/src/ip_country_mmdb.rs:108-130 | Two ascending streams of one family give the same list if and only if they give every address the same code |
| WinDns.SubvertedExactly | dns_utility/src/win_dns_modifier.rs:374-376 | Settings count as subverted if and only if the first server of the comma-separated list is this machine |
| WinDns.SubvertedMakesNoSense | dns_utility/src/win_dns_modifier.rs:374-380 | Settings that count as subverted list this machine |
| WinDns.MakesNoSenseExactly | dns_utility/src/win_dns_modifier.rs:378-380 | Settings make no sense if and only if this machine stands in them at the start or after a comma, up to a comma or the end |
| WinDns.SplitExact | dns_utility/src/win_dns_modifier.rs:379 | The parts of a comma-separated list have no commas and, joined by commas, give the list |
| WinDns.FoundOneGateway | dns_utility/src/win_dns_modifier.rs:142-180 | A `subvert` goes ahead if and only if the interfaces can be listed, one qualifies, and all that do have the same gateway; a `revert` if and only if they can be listed |
| WinDns.SelectExact | dns_utility/src/win_dns_modifier.rs:118-161 | The interfaces of a call are those of the listing that qualify, each once, and no step on them meets a missing value |
| WinDns.SelectedExactly | dns_utility/src/win_dns_modifier.rs:118-161 | A `subvert` is about the listed interfaces that have servers and a non-empty gateway, DHCP's before the configured one, a `revert` about those that have a backup, each once, in the order of the listing |
| DnsModifiers.WinDnsModifier.SubvertInterface | dns_utility/src/win_dns_modifier.rs:238-262 | The writes on one interface, whichever fail, amount to the subverting step |
| DnsModifiers.WinDnsModifier.RollBackSubvert | dns_utility/src/win_dns_modifier.rs:299-315 | The same for undoing it |
| DnsModifiers.WinDnsModifier.RevertInterface | dns_utility/src/win_dns_modifier.rs:317-339 | The same for the reverting step |
| DnsModifiers.WinDnsModifier.RollBackRevert | dns_utility/src/win_dns_modifier.rs:341-358 | The same for undoing it |
| DnsModifiers.WinDnsModifier.Perform | dns_utility/src/win_dns_modifier.rs:28-82 | A `subvert` or `revert` with any failures leaves the registry and gives the outcome of the call function |
| WinDns.SweepPointwise | dns_utility/src/win_dns_modifier.rs:32-44 | Going forward steps exactly the visited interfaces, and all of them if none fails |
| WinDns.SweepEnds | dns_utility/src/win_dns_modifier.rs:32-44 | Every step before the last one visited went through, and a sweep that fails does so at that one |
| WinDns.UndoPointwise | dns_utility/src/win_dns_modifier.rs:45-50 | A completed rollback undoes each visited interface once and touches no other |
| WinDns.UndoCompletes | dns_utility/src/win_dns_modifier.rs:45-50 | A rollback completes if no single one of its steps fails |
| WinDns.CallPointwise | dns_utility/src/win_dns_modifier.rs:28-82 | What a call that does not panic does to each interface |
| WinDns.ForwardOne | dns_utility/src/win_dns_modifier.rs:238-262 | A successful step keeps the invariant and the original servers, and subverts or restores |
| WinDns.ForwardBackOne | dns_utility/src/win_dns_modifier.rs:299-358 | A step that went through or failed halfway, once rolled back, gives the interface back, except that rolling back a `subvert` restores servers backed up before it |
| WinDns.CallKeepsOriginals | dns_utility/src/win_dns_modifier.rs:28-82 | Whatever fails, a call without a panic keeps the invariant and every interface's original servers |
| WinDns.RunKeepsOriginals | dns_utility/src/win_dns_modifier.rs:28-82 | So does every run of calls |
| WinDns.RunInParts | dns_utility/src/win_dns_modifier.rs:28-82 | A run can be cut anywhere; it goes on exactly while each call lists interfaces there are and does not panic |
| WinDns.RunSurvives | dns_utility/src/win_dns_modifier.rs:299-358 | No run of calls panics in which the writes of rollbacks work, whatever else fails |
| WinDns.RunThenRevert | dns_utility/src/win_dns_modifier.rs:28-82 | After any run without a panic from a state without backups, whatever failed in it, one successful `revert` that lists every interface gives back exactly the state the run started from |
| WinDns.RevertRestoredExactly | dns_utility/src/win_dns_modifier.rs:317-358 | A revert step is undone whatever fails if and only if the settings are this machine's and the backup is not subverted |
| WinDns.SubvertRestoredExactly | dns_utility/src/win_dns_modifier.rs:238-315 | A subvert step is undone whatever fails if and only if there was no backup |
| WinDns.RevertUndoneExactly | dns_utility/src/win_dns_modifier.rs:317-358 | When the completed rollback of one revert step, by which of its writes failed, gives the interface back |
| WinDns.RevertAtomicExactly | dns_utility/src/win_dns_modifier.rs:60-81 | A refused `revert` changes nothing if and only if every interface it got to before the failing one is restorable, and the failing one is restored from where it failed |
| WinDns.RevertAlwaysAtomic | dns_utility/src/win_dns_modifier.rs:56-82 | Over registry and listing alone: whatever fails, every refused `revert` changes nothing if and only if all interfaces with a backup but the last have this machine as their server and a backup that is not subverted, and the last has no servers, or subverted ones equal to the backup if that is subverted and to this machine if not |
| WinDns.RefusedRevertCanSubvert | dns_utility/src/win_dns_modifier.rs:341-358 | An instance in which a refused `revert` changes something |
| WinDns.SoundRevertAtomic | dns_utility/src/win_dns_modifier.rs:60-81 | In particular in every state that meets the invariant |
| WinDns.SubvertAtomicExactly | dns_utility/src/win_dns_modifier.rs:32-53 | A refused `subvert` changes nothing if and only if no interface it got to had a backup |
| WinDns.SubvertAlwaysAtomic | dns_utility/src/win_dns_modifier.rs:28-54 | Over registry and listing alone: whatever fails, every refused `subvert` changes nothing if and only if the call finds no interfaces behind one gateway, or no interface that can fail comes at or after one with a backup with only interfaces before it that can pass |
| WinDns.AtomicExactly | dns_utility/src/win_dns_modifier.rs:28-82 | For either call: every refusal changes nothing if and only if wherever the call can fail, the failing step and all before it are undone without a trace |
| WinDns.RefusedSubvertCanUnsubvert | dns_utility/src/win_dns_modifier.rs:299-315 | An instance in which it changes something |
| WinDns.SubvertSubverts | dns_utility/src/win_dns_modifier.rs:28-54 | From any state, a successful `subvert` leaves an interface it is about as it was if subverted, and otherwise with its servers backed up and this machine as its server, and touches no other |
| WinDns.RevertReverts | dns_utility/src/win_dns_modifier.rs:56-82 | From any state, a successful `revert` gives every listed interface with a backup the servers backed up, or none if it had none, without the backup, and touches no other |
| WinDns.SubvertSucceedsExactly | dns_utility/src/win_dns_modifier.rs:28-54 | A `subvert` succeeds if and only if its interfaces are found and each is subverted already, or makes sense and both its writes work |
| WinDns.RevertSucceedsExactly | dns_utility/src/win_dns_modifier.rs:56-82 | A `revert` succeeds if and only if the interfaces can be listed and every write it needs works; with no backups it succeeds |
| WinDns.PanicNeedsFailedUndo | dns_utility/src/win_dns_modifier.rs:299-358 | A call panics only if a write of its rollback fails |
| WinDns.PanicPointwise | dns_utility/src/win_dns_modifier.rs:45-81 | What a call that panics leaves of each interface: undone before the one that could not be, halfway at it, and as the call had left them after it |
| WinDns.PanicKeepsOriginals | dns_utility/src/win_dns_modifier.rs:299-358 | In a state that meets the invariant, a `revert` keeps every interface's original servers even if it panics; a `subvert` that panics does if and only if the failed write is the deletion of a backup |
| WinDns.PanickedSubvertLosesServers | dns_utility/src/win_dns_modifier.rs:304-313 | An instance in which it loses them |
| WinDns.RefusedSubvertExactly | dns_utility/src/win_dns_modifier.rs:299-315 | From any state, what a refused `subvert` leaves: no backups on the interfaces it got to, the backed-up servers on those subverted before, everything else as it was |
| WinDns.RefusedRevertExactly | dns_utility/src/win_dns_modifier.rs:341-358 | From any state, what a refused `revert` leaves of each interface, by whether its step went through and which write failed |
| WinDns.RevertRestores | dns_utility/src/win_dns_modifier.rs:56-82 | A successful `revert` restores every interface's original servers and removes every backup |
| WinDns.SubvertThenRevert | dns_utility/src/win_dns_modifier.rs:28-82 | From a state without backups, a successful `subvert` and then a successful `revert` change nothing |

## Left out

- Finders.BinarySearch: the standard library's search is written as an ordinary binary search; which block it returns on a list that is not ascending is not modelled.
- Coalescing.RangeCollector.AddOrCoalesce: the successor of the maximum address counts as a panic, as in a build that checks overflow.
- DnsModifiers.WinDnsModifier.Perform: reads of registry values succeed exactly when the value is there; a read that fails for another reason is not modelled, nor are error texts, adapter names and which of registry, netsh and adapter lookup failed.
- DnsModifiers.WinDnsModifier.RevertInterface: a read of `NameServer` that fails other than for its absence, after which it is overwritten all the same, is not modelled.
- Emitted Rust text, hexadecimal formatting, standard input and output and exit codes: text and I/O.
- The CSV and MMDB readers, address text parsing and country names in error messages: foreign libraries; the model starts from parsed ranges.
- The generated data tables in `dbip_country.rs`: data only.
- `inspect` of the Windows modifier, and the modifiers for other systems: the former only reads, the latter depend on a regular-expression engine or on foreign calls.
- The remaining crates (automap, node, multinode tests, user interface): sockets, threads, actors and configuration.
