# Verified model of the database reader, proxy links, callback URLs and cloud sync

A Dafny model of the parts of ShadowCoel in which most depends on getting every case right, with
proofs of what they promise:

- **The MaxMind DB reader** (`Bytes`, `Decoder`, `ValueTree`, `Cycles`, `Skipping`, `Lookup`, `EntryList`,
  `Dumping`, `Encoding`, `ValueEncoding`, `SearchTree`, `Subnets`, `TreeFile`, `Metadata`,
  `Counterexamples`).  The data section is an untrusted byte string.  `Decoder.DecodeAt` says in plain
  arithmetic what field starts at an offset; `Decoder.ReadField` is the reader in wrapping 32-bit arithmetic and
  agrees with it.  `ValueTree.Denotes` is the one reference meaning of the bytes at an offset, a finite tree with
  every pointer resolved; path lookup, skipping, flattening and dumping are each proved against it.  The search
  tree is unfolded into an abstract binary trie, which the loop over packed records and the cached IPv4 start
  node are proved to refine, and the trie into the halving of a range of numbers.
- **The data pool** (`Pooling`): doubling blocks of structs on the heap that are later chained into one list.
- **Proxy links** (`Strings`, `Base64`, `ProxyUri`): printing and reading `ss://` and `ssr://` links through
  nested base64 (RFC 4648 sections 4 and 5), with the exact conditions under which a link survives the round
  trip.
- **Callback URLs** (`Query`, `Urls`, `Callback`, `CallbackManager`): request URLs that nest the URLs for their
  answers (RFC 3986 sections 2, 3.1 and 3.4), the two-hop round trip, and the table of pending requests over any
  run.
- **The bloom filter** (`Bloom`), refined to the set of its one bits over any history of calls.
- **Cloud sync** (`Sync`): the fetch loop behind a change token; stopping anywhere and running again ends in
  the same store as one uninterrupted fetch, and a run that is not stopped gets there.

Classes stand for what the sources update in place (`DataPool`, `EntryDataList`, `MMDB`, `Filter`, `Device`,
`FetchCloudChangesOperation`, `Manager`, `Proxy`), methods with loops for the sources' loops; datatypes and
functions for what they compute.  Strings are their UTF-8 bytes.  What may go wrong is an input: which
requests for memory are refused (a predicate on their number), and which answers, errors, failing writes and
interruptions a fetch meets (a script).

Where the code departs from what one would expect, the model follows the code and the exact condition is
proved: skipping a value does not look into map keys (`Skipping.SkipAgreesIff`,
`Counterexamples.SkipDiffers`), a zero record on the left spine separates the IPv4 shortcut from the full
lookup (`SearchTree.ShortcutAgreesIff`, `Counterexamples.ShortcutDiffers`), the shortcut's netmask is inverted
when the start node is a leaf (`SearchTree.ShortcutNetmask`, `Counterexamples.NetmaskDiffers`), links lose
methods in upper case, colons and "@" in the wrong fields (`ProxyUri.SsRoundTripIff`,
`ProxyUri.SsrRoundTripIff`), an action loses a trailing slash (`Callback.ActionRoundTripIff`), and returned
parameters are filtered on the way back (`Callback.SuccessRoundTripIff`).  The comment on the error parameter
in CallbackURLKit.swift speaks of "errorCode"; the code, and the model, use "error-Code".

`dafny verify dfyconfig.toml` checks the project.

## Model

| member | source | states |
|---|---|---|
| Bytes.GetUintX | Library/libmaxminddb/src/maxminddb.c:1840-1848 | the shift-and-add loop over any number of bytes is the big-endian value modulo the accumulator's width, and the value itself whenever it fits (8 bytes for `get_uintX`, 16 for `get_uint128`) |
| Bytes.GetUint16 | Library/libmaxminddb/src/maxminddb.c:1835-1838 | equals the big-endian value of the two bytes |
| Bytes.GetUint24 | Library/libmaxminddb/src/maxminddb.c:1830-1833 | equals the big-endian value of the three bytes |
| Bytes.GetUint32 | Library/libmaxminddb/src/maxminddb.c:1825-1828 | equals the big-endian value of the four bytes |
| Decoder.GetPtrFrom | Library/libmaxminddb/src/maxminddb.c:1617-1637 | the masks, shifts and constants of the four pointer forms give the form's base plus the bits it carries as one big-endian number; the widest form ignores the control bits |
| Decoder.ReadControl | Library/libmaxminddb/src/maxminddb.c:1415-1446 | control byte and extended type are read, with the two bounds checks in wrapping 32-bit arithmetic, exactly when those bytes exist |
| Decoder.ReadPointer | Library/libmaxminddb/src/maxminddb.c:1450-1469 | the pointer case succeeds exactly when all its bytes lie in the section, even where the subtraction in the bounds check wraps, and yields the pointer the format defines |
| Decoder.ReadSize | Library/libmaxminddb/src/maxminddb.c:1471-1506 | the size switch yields the payload size the format defines, or fails exactly when its extra bytes are missing |
| Decoder.ReadValue | Library/libmaxminddb/src/maxminddb.c:1510-1609 | containers end before their members, booleans carry no payload, scalars end exactly their payload further on, or fail exactly when the payload does not fit |
| Decoder.ReadScalar | Library/libmaxminddb/src/maxminddb.c:1524-1607 | every scalar type yields the value the format defines and refuses exactly the inadmissible lengths |
| Decoder.ReadField | Library/libmaxminddb/src/maxminddb.c:1410-1610 | for every section of at least 3 bytes and every 32-bit offset, `decode_one` in wrapping arithmetic agrees with the arithmetic definition of a field, reads no byte outside the section, and on success ends at an offset after its start and at most the section size |
| Decoder.DecodeOne | Library/libmaxminddb/src/maxminddb.c:1410-1610 | succeeds exactly on the offsets where a field stands and then returns that field; otherwise the status is the invalid-data error |
| Decoder.DecodeOneFollow | Library/libmaxminddb/src/maxminddb.c:1369-1396 | follows one pointer, refuses a pointer to a pointer, and continues after the pointer for scalars but inside the target for containers |
| Decoder.FieldsOfAt | Library/libmaxminddb/src/maxminddb.c:1410-1610 | the section seen as a map from offsets to fields holds exactly what can be decoded, and every field ends inside the section |
| ValueTree.DenotesUnique | Library/libmaxminddb/src/maxminddb.c:1678-1786 | the bytes at an offset denote at most one pointer-resolved tree, so the reference meaning is well defined |
| ValueTree.ResolveIff | Library/libmaxminddb/src/maxminddb.c:1678-1786 | the depth-limited recursion yields a tree if and only if the bytes denote that tree and its nested calls fit in the limit (a container behind a pointer takes two) |
| ValueTree.ResolveSound | Library/libmaxminddb/src/maxminddb.c:1684-1690 | whatever is resolved is what the bytes denote, with nested calls within the limit |
| ValueTree.ResolveComplete | Library/libmaxminddb/src/maxminddb.c:1684-1786 | every denoted tree whose nesting fits the limit is resolved |
| Cycles.CycleDenotesNothing | Library/libmaxminddb/src/maxminddb.c:1692-1719 | a value some container of which is reached again from itself, through any chain of members and pointers, denotes no tree |
| Cycles.CycleNeverResolves | Library/libmaxminddb/src/maxminddb.c:1684-1719 | such a value is refused under every depth limit, not only 512 |
| Skipping.SkipMapOrArray | Library/libmaxminddb/src/maxminddb.c:1343-1367 | the recursion without depth limit terminates on every section and lands where the skipping specification says, or fails exactly when that does |
| Skipping.SkipAgreesIff | Library/libmaxminddb/src/maxminddb.c:1343-1367 | on every value that can be read in full, skipping succeeds, never overshoots, and ends where the full reading ends if and only if no map key it meets is an inline container with members |
| Counterexamples.SkipStopsShort | Library/libmaxminddb/src/maxminddb.c:1343-1367 | in every encoded map whose first key is a container with members, skipping succeeds and stops before the value ends |
| Counterexamples.SkipDiffers | Library/libmaxminddb/src/maxminddb.c:1343-1367 | eight bytes that denote {{"a": "b"}: "c"} and that skipping does not get past |
| Skipping.SkipScan | Library/libmaxminddb/src/maxminddb.c:1343-1367 | skipping follows the flat stream of fields and accounts for every member it leaves unread |
| Skipping.UnreadTree | Library/libmaxminddb/src/maxminddb.c:1343-1367 | nothing is left unread exactly when no key skipped over has members, and then skipping lands on the value's end |
| Skipping.ScanTree | Library/libmaxminddb/src/maxminddb.c:1678-1786 | a denoted value is exactly one value of the flat stream of fields |
| Lookup.AgetValue | Library/libmaxminddb/src/maxminddb.c:1209-1264 | for every data section, offset, path and every tree with string keys that the data denotes: the result is exactly the field reached by navigating that tree, or exactly the error of navigation; on any other data a successful result is still a field that stands in the data |
| Lookup.LookupPathInArray | Library/libmaxminddb/src/maxminddb.c:1266-1300 | reports the array element at the parsed index, or the error that navigation gives for it |
| Lookup.LookupPathInMap | Library/libmaxminddb/src/maxminddb.c:1302-1341 | reports the value of the first key that equals the path element, or that none matches |
| Lookup.LookupStep | Library/libmaxminddb/src/maxminddb.c:1243-1260 | one step of a path on the current field reports what one step down the tree gives |
| Lookup.FirstMatchWins | Library/libmaxminddb/src/maxminddb.c:1309-1340 | the value found is that of the earliest matching key |
| Lookup.NoMatchIff | Library/libmaxminddb/src/maxminddb.c:1309-1340 | a lookup fails if and only if no key matches |
| Lookup.ArrayStep | Library/libmaxminddb/src/maxminddb.c:1275-1299 | an array is indexed on the flat stream of fields: the element is the value after that many complete values; it is found exactly for an index below the count without overflow or left-over text, a negative or overflowing one is an invalid path, any other does not match |
| Lookup.MapStep | Library/libmaxminddb/src/maxminddb.c:1302-1341 | in a map the value behind the first equal key is found, or nothing matches; a scalar has no members |
| Lookup.NavigateJoin | Library/libmaxminddb/src/maxminddb.c:1231-1263 | navigating a path in two parts is navigating the second from where the first ends |
| Lookup.NavigateOne | Library/libmaxminddb/src/maxminddb.c:1231-1263 | a path of one element is one step, and the empty path stays |
| Lookup.StringKeysSkipSafe | Library/libmaxminddb/src/maxminddb.c:1328-1336 | in a tree whose keys are strings, directly or behind pointers, every skip of a lookup is exact |
| EntryList.MMDBGetEntryDataList | Library/libmaxminddb/src/maxminddb.c:1652-1676 | on success the returned list is linked, null-terminated and holds the preorder of the tree that the bytes denote, whose calls fit the depth limit; on the invalid-data error no tree within the limit is denoted; out of memory is reported only if a request for memory was refused or all 32 blocks are full |
| EntryList.GetEntryDataList | Library/libmaxminddb/src/maxminddb.c:1678-1786 | terminates on every byte sequence, cyclic pointers included; on success fills the given struct and appends the preorder of everything below it, changing no other struct; out of memory only when the pool can give no further struct |
| EntryList.GetTarget | Library/libmaxminddb/src/maxminddb.c:1692-1719 | the pointer case leaves the target in the struct and continues after the pointer |
| EntryList.GetContainer | Library/libmaxminddb/src/maxminddb.c:1720-1780 | a container's struct is followed by its members and its next offset is where they end |
| EntryList.GetArray | Library/libmaxminddb/src/maxminddb.c:1720-1744 | an array of n appends n subtrees in order |
| EntryList.GetMap | Library/libmaxminddb/src/maxminddb.c:1745-1780 | a map of n appends 2n subtrees, keys and values alternating |
| EntryList.NextMember | Library/libmaxminddb/src/maxminddb.c:1725-1739 | a member claims the next struct and appends its preorder after the members before it |
| Dumping.RebuildPreorder | Library/libmaxminddb/src/maxminddb.c:1948-2117 | wherever the preorder of a well-shaped tree stands in a list, that tree and nothing more is read back from the counts alone |
| Dumping.PreorderInjective | Library/libmaxminddb/src/maxminddb.c:1652-1676 | two trees with the same list are equal: flattening loses nothing |
| Dumping.DumpEntryDataList | Library/libmaxminddb/src/maxminddb.c:1948-2117 | the walk over the list of any tree succeeds if and only if every map key is a string and every field has a printable type, and then stops directly behind that tree |
| Dumping.DumpableIff | Library/libmaxminddb/src/maxminddb.c:1948-2117 | a tree can be dumped if and only if all its map keys are strings and all its fields are of types the format defines |
| Dumping.DumpElements | Library/libmaxminddb/src/maxminddb.c:1997-2019 | the array loop walks exactly its members |
| Dumping.DumpPairs | Library/libmaxminddb/src/maxminddb.c:1953-1996 | the map loop walks exactly its keys and values, and fails on the first key that is not a string |
| Dumping.DumpList | Library/libmaxminddb/src/maxminddb.c:1939-1946 | over a whole list the walk ends exactly at the list's end |
| Pooling.CanMultiply | Library/libmaxminddb/src/data-pool.c:43-50 | true if and only if m is nonzero and m times n stays within the maximum |
| Pooling.DataPool.New | Library/libmaxminddb/src/data-pool.c:12-37 | a pool with one empty block of the size asked for; null exactly for a zero size, one whose byte count would overflow, or a refused request for memory |
| Pooling.DataPool.Alloc | Library/libmaxminddb/src/data-pool.c:68-113 | hands out a struct never handed out before, after the earlier ones, which stay where they are; null only when the current block is full and there may be no further block or its memory was refused, and then nothing changed |
| Pooling.DataPool.Grow | Library/libmaxminddb/src/data-pool.c:78-95 | a block of fresh structs, twice as large as the current one, or null exactly where the limit, the overflow checks or the allocator forbid it |
| Pooling.StarvedOnlyWhenFull | Library/libmaxminddb/src/data-pool.c:68-95 | with memory always granted, a pool of at most 1024 initial structs refuses one only after 32 blocks, that is after s(2^32 - 1) structs |
| Pooling.DataPool.Install | Library/libmaxminddb/src/data-pool.c:82-108 | the next block has twice the size of the one before and starts where the blocks before it end; no block's byte count overflows |
| Pooling.DataPool.TakeFrom | Library/libmaxminddb/src/data-pool.c:96-112 | the first struct of a new block is handed out |
| Pooling.DataPool.ToList | Library/libmaxminddb/src/data-pool.c:118-148 | the list is exactly the structs handed out, in the order of handing out, null-terminated; only `next` links are written |
| Pooling.DataPool.LinkBlock | Library/libmaxminddb/src/data-pool.c:128-145 | one block is chained through to the next one's first struct |
| Pooling.Interleave | Library/libmaxminddb/src/data-pool.c:68-148 | after any interleaving of allocations and list builds the earlier structs are a prefix of the later ones and the last list is all of them |
| Pooling.DataPool.BlockPowers | Library/libmaxminddb/src/data-pool.c:68-113 | block i holds the initial size times 2^i structs and starts after initial times (2^i - 1) |
| Pooling.DataPool.Arithmetic | Library/libmaxminddb/t/data-pool-t.c:351-374 | after n allocations n = s(2^index - 1) + used, and the last block in use is floor(log2(ceil(n / s))) |
| Encoding.SizeRoundTrip | Library/libmaxminddb/src/maxminddb.c:1471-1506 | every payload size below 65821 + 2^24 is read back from its encoding |
| Encoding.SizeUnique | Library/libmaxminddb/src/maxminddb.c:1471-1506 | whatever is read as a size is that size's only encoding: the four ranges tile the naturals without overlap |
| Encoding.PointerRoundTrip | Library/libmaxminddb/src/maxminddb.c:1617-1637 | every 32-bit pointer is read back from its encoding |
| Encoding.PointerUnique | Library/libmaxminddb/src/maxminddb.c:1617-1637 | in the three shorter forms whatever is read as a pointer is that pointer's only encoding; the ranges are contiguous and disjoint |
| ValueEncoding.ScalarRoundTrip | Library/libmaxminddb/src/maxminddb.c:1533-1605 | the payload of every scalar type, negative 32-bit integers included, is read back |
| ValueEncoding.IntegerRoundTrip | Library/libmaxminddb/src/maxminddb.c:1533-1605 | each integer type accepts exactly the payloads up to its width, the shorter ones too, with their big-endian value |
| ValueEncoding.FixedSizes | Library/libmaxminddb/src/maxminddb.c:1515-1590 | floats and doubles are accepted in exactly one size, and a boolean is its size field |
| ValueEncoding.PointerStands | Library/libmaxminddb/src/maxminddb.c:1450-1469 | wherever the bytes of a pointer to any 32-bit offset stand, `decode_one` reads that pointer and ends just behind it |
| ValueEncoding.FieldRoundTrip | Library/libmaxminddb/src/maxminddb.c:1410-1610 | every field of every type is decoded back from the bytes the format prescribes for it, at any offset of any section |
| ValueEncoding.ValueRoundTrip | Library/libmaxminddb/src/maxminddb.c:1678-1786 | wherever an encoded value of any nesting stands in a section, any part of it possibly written as a pointer to where that part stands, the bytes denote exactly that value and reading continues right behind it |
| SearchTree.FindIff | Library/libmaxminddb/src/maxminddb.c:945-985 | an address is led to a leaf after n bits if and only if its first n bits are that leaf's path in the binary trie |
| SearchTree.PrefixFree | Library/libmaxminddb/src/maxminddb.c:945-985 | no leaf's path is a prefix of another leaf's path |
| SearchTree.SameNetwork | Library/libmaxminddb/src/maxminddb.c:945-985 | every address that shares the consumed bits gets the identical answer |
| SearchTree.LookupNetwork | Library/libmaxminddb/src/maxminddb.c:945-985 | the netmask that a successful lookup reports names a network: every address in it gets the same status, entry and netmask |
| SearchTree.InetNetwork | Library/libmaxminddb/src/maxminddb.c:919-985 | the same for the IPv4 shortcut, whose netmask counts the 96 leading bits below a start node that is a search node; a start node that is a leaf answers alike for every address |
| SearchTree.NetworksDisjoint | Library/libmaxminddb/src/maxminddb.c:945-985 | addresses with different answers differ within the shorter of the two networks |
| Subnets.BitsNumber | Library/libmaxminddb/src/maxminddb.c:947-949 | the bits of an address, in the order in which they are looked at, count the number that it is in network byte order |
| Subnets.LookupByNumber | Library/libmaxminddb/src/maxminddb.c:945-985 | a lookup reports what halving the range of all numbers at every node, first record below, second above, gives for the number of the address |
| Subnets.ReportIs | Library/libmaxminddb/src/maxminddb.c:1047-1089 | the record that equals the node count is no entry, one above it inside the data is the entry at the record less the node count less 16, zero and anything else is a corrupt tree |
| Subnets.NetworkByNumber | Library/libmaxminddb/src/maxminddb.c:945-985 | every address whose number agrees above the bits that the netmask leaves gets the same report |
| Subnets.InetByNumber | Library/libmaxminddb/src/maxminddb.c:862-943 | in an IPv6 tree without a zero record on the spine the IPv4 shortcut reports what the same number gets among all 128-bit ones, but for the netmask of a start node that is a leaf |
| SearchTree.MMDB.WalkTree | Library/libmaxminddb/src/maxminddb.c:945-985 | the loop over packed records refines the walk through the abstract trie: same status, same entry, and the netmask is the number of bits consumed |
| SearchTree.MMDB.WalkStep | Library/libmaxminddb/src/maxminddb.c:947-979 | one iteration moves one bit down the trie or ends with the verdict for the record read |
| SearchTree.MMDB.ReadRecord | Library/libmaxminddb/src/maxminddb.c:956-965 | for 24, 28 and 32-bit records the record of the bit is read from its packed place, and the bounds check never fails for a node of the tree |
| SearchTree.MMDB.MaybePopulateResult | Library/libmaxminddb/src/maxminddb.c:1047-1067 | result and netmask for the type of a record |
| SearchTree.MMDB.FindIpv4StartNode | Library/libmaxminddb/src/maxminddb.c:1013-1045 | the cached start node, at every call, equals a fresh walk of at most 96 zero bits down the left spine |
| SearchTree.MMDB.constructor | Library/libmaxminddb/src/maxminddb.c:300-312 | a database is opened with no cached start node, or with the one its left spine has |
| SearchTree.SpineWalk | Library/libmaxminddb/src/maxminddb.c:1026-1042 | a full walk over 96 zero bits and a 32-bit rest follows the spine to the start node and continues below it |
| SearchTree.ZeroOnSpineWalk | Library/libmaxminddb/src/maxminddb.c:1069-1076 | a zero record on the spine makes the full walk end in a corrupt tree |
| SearchTree.MMDB.FindAddressInSearchTree | Library/libmaxminddb/src/maxminddb.c:903-985 | the status and result of the abstract walk, directly or from the IPv4 start node |
| SearchTree.MMDB.LookupSockaddr | Library/libmaxminddb/src/maxminddb.c:862-901 | IPv4 addresses are looked up in IPv6 trees from the start node; IPv6 addresses in IPv4 trees are refused |
| SearchTree.ShortcutAgreesIff | Library/libmaxminddb/src/maxminddb.c:919-943 | in any IPv6 tree the AF_INET shortcut gives the same status, found flag and offset as the full 128-bit lookup, if and only if no zero record lies on the first 96 steps of the left spine or the tree below the start node has no answer for the address |
| SearchTree.ServesIff | Library/libmaxminddb/src/maxminddb.c:924-985 | the shortcut succeeds if and only if the start record, or a leaf below it whose path prefixes the address, is an empty or a data record |
| SearchTree.ShortcutNetmask | Library/libmaxminddb/src/maxminddb.c:919-939 | past all 96 zero bits shortcut and full lookup report the same netmask; when the start node is itself a leaf the two netmasks add up to 129 |
| Counterexamples.ShortcutDiffers | Library/libmaxminddb/src/maxminddb.c:1029-1042 | whatever data and metadata follow the tree, a file that opens, with a zero record on its spine, in which the full lookup reports a corrupt tree and the shortcut succeeds, for every address that starts with a one |
| Counterexamples.NetmaskDiffers | Library/libmaxminddb/src/maxminddb.c:919-939 | whatever follows the tree, a file that opens, whose start node is a leaf: for every IPv4 address the shortcut reports the netmask 128 and the full lookup 1 |
| SearchTree.NodeRoundTrip | Library/libmaxminddb/src/maxminddb.c:987-1011 | both records of every 24, 28 and 32-bit node packed as the format prescribes read back |
| TreeFile.FileRoundTrip | Library/libmaxminddb/src/maxminddb.c:279-299 | for every list of nodes that fits the record size, and every data section, there is a file that opens and unpacks to exactly those nodes and that data |
| SearchTree.LeftRecord28 | Library/libmaxminddb/src/maxminddb.c:1097-1101 | mask, shift and sum over the shared byte give the left 28-bit record |
| SearchTree.RightRecord28 | Library/libmaxminddb/src/maxminddb.c:1103-1107 | the masked 32-bit read at byte 3 gives the right 28-bit record |
| SearchTree.DataRecordOffset | Library/libmaxminddb/src/maxminddb.c:1146-1151 | a record classed as data names an offset inside the data section, or is one of the 15 values just above the node count, whose wrapped offset the decoder always refuses |
| Metadata.Memmem | Library/libmaxminddb/src/maxminddb-compat-util.h:45-72 | returns the first occurrence, or nothing exactly when there is none or the needle is empty |
| Metadata.OccurrencesApart | Library/libmaxminddb/src/maxminddb.c:421-455 | occurrences of a marker whose first byte is unique in it cannot overlap |
| Metadata.FindMetadata | Library/libmaxminddb/src/maxminddb.c:421-455 | the position just behind the last marker in the final 128 KiB and the number of bytes left, or nothing if and only if there is no marker there |
| Metadata.FindLast | Library/libmaxminddb/src/maxminddb.c:434-452 | the loop ends at what follows the last occurrence of any marker that cannot overlap itself |
| Bloom.Filter.TestBitSetBit | Library/ssLocal/libbloom/bloom.c:30-45 | reports whether the bit was one and, if asked, adds exactly that position |
| Bloom.Filter.CheckAdd | Library/ssLocal/libbloom/bloom.c:48-74 | reports 1 exactly when all of the element's positions were one before the call, even when its own positions coincide; adding makes the bits the union, checking changes nothing |
| Bloom.Filter.Check | Library/ssLocal/libbloom/bloom.c:120-123 | checking leaves every bit as it was |
| Bloom.Filter.Add | Library/ssLocal/libbloom/bloom.c:126-129 | adding returns what a check just before would have returned |
| Bloom.Filter.Init | Library/ssLocal/libbloom/bloom.c:84-117 | success exactly for at least one entry, a nonzero error rate and a granted allocation: an all-zero bit array with enough bytes for every bit; otherwise the filter stays unusable |
| Bloom.Filter.Replay | Library/ssLocal/libbloom/bloom.c:120-129 | any history of adds and checks gives the answers and the bits of the set specification |
| Bloom.NoFalseNegatives | Library/ssLocal/libbloom/bloom.c:48-74 | an element that was added is reported present after any history |
| Bloom.UnionIff | Library/ssLocal/libbloom/bloom.c:62-67 | a bit is one after a history exactly if it is a position of an added element |
| Bloom.BitsDetermine | Library/ssLocal/libbloom/bloom.c:30-45 | the set of one bits determines the bytes |
| Bloom.OrderIrrelevant | Library/ssLocal/libbloom/bloom.c:48-74 | the bits depend only on which elements were added, not on order, repetition or checks |
| Bloom.ProbeIs | Library/ssLocal/libbloom/bloom.c:52-59 | the i-th position is the first hash plus i times the second, modulo 2^32 and then the number of bits |
| Bloom.SameBytes | Library/ssLocal/libbloom/bloom.c:30-74 | two filters of one size that were given the same elements hold identical bytes |
| Bloom.AnswersPersist | Library/ssLocal/libbloom/bloom.c:48-74 | a positive answer is never withdrawn |
| Sync.Idempotent | ShadowCoel/Sync/CloudKitRecord.swift:171-199 | writing any sequence of changes and deletions a second time changes nothing, for every key |
| Sync.PrefixAbsorbed | ShadowCoel/Sync/CloudKitRecord.swift:171-206 | an applied prefix is absorbed when the whole sequence is applied again |
| Sync.NewestWins | ShadowCoel/Sync/CloudKitRecord.swift:189-198 | without a deletion the newest of the local and the fetched versions ends up stored, and it is one of them |
| Sync.SyncedIff | ShadowCoel/Sync/CloudKitRecord.swift:188-198 | an object is left marked as synced exactly if the last fetched version is as new as what is stored |
| Sync.RecordStored | ShadowCoel/Sync/CloudKitRecord.swift:152-199 | a committed record changes only its own key, in the table that its type names: the newer version stays, and says if it is the fetched one |
| Sync.NotStored | ShadowCoel/Sync/CloudKitRecord.swift:152-177 | a record of any other type, such as "ProxyRuleSet", leaves the store as it was |
| Sync.AllDeleted | ShadowCoel/Sync/CloudKitRecord.swift:201-206 | a deletion removes the identifier from all three tables and nothing else |
| Sync.FetchedIsStored | ShadowCoel/Sync/FetchCloudChangesOperation.swift:94-113 | after a whole fetch a record that no later record or deletion touches is in the store, itself or a version as new |
| Sync.DeletedIsGone | ShadowCoel/Sync/FetchCloudChangesOperation.swift:94-113 | after a whole fetch an identifier that was deleted and not written by a later batch is in no table |
| Sync.Device.ChangeLocalRecord | ShadowCoel/Sync/CloudKitRecord.swift:171-199 | a record is merged by the updatedAt rule under its own table, unless the commit throws; a record type without a table, such as "ProxyRuleSet", changes nothing |
| Sync.Device.DeleteLocalRecord | ShadowCoel/Sync/CloudKitRecord.swift:201-206 | the identifier is deleted from the three tables in turn, up to the first deletion of an existing object whose commit throws |
| Sync.Device.Mark | ShadowCoelModel/DBUtils.swift:77-85 | sets the synced flag of an existing object only; fails exactly if the commit throws for one |
| Sync.Device.HardDelete | ShadowCoelModel/DBUtils.swift:61-69 | removes an existing object, and nothing when it does not exist; fails exactly if the commit throws for one |
| Sync.Device.Commit | ShadowCoelModel/DBUtils.swift:22-30 | a write transaction stores or removes one object, or throws and does nothing |
| Sync.Device.ProcessFetchResults | ShadowCoel/Sync/FetchCloudChangesOperation.swift:94-113 | exactly the writes before the first one whose commit throws have been applied, changes before deletions; all of them if there is none |
| Sync.FetchCloudChangesOperation.FetchCloudChanges | ShadowCoel/Sync/FetchCloudChangesOperation.swift:40-92 | from any start the store and the token still lead to the same final store, whatever fails or stops; retries stay within the maximum, finishing means every batch was consumed, and a fetch that meets nothing worse than errors that may be retried does finish |
| Sync.FetchCloudChangesOperation.CompleteFetch | ShadowCoel/Sync/FetchCloudChangesOperation.swift:63-90 | a batch some write of which throws, or during which the app is killed, leaves the token alone and fails or stays silent; otherwise the fetch goes on to the end |
| Sync.FetchCloudChangesOperation.WriteResults | ShadowCoel/Sync/FetchCloudChangesOperation.swift:72-78 | writing a batch succeeds exactly if no write in it is refused; as a whole or in part it leaves the same final store ahead |
| Sync.FetchCloudChangesOperation.HandleFetchError | ShadowCoel/Sync/FetchCloudChangesOperation.swift:127-140 | a temporary error is tried again, and leads to the end if what follows does, while attempts are left; any other error, or the last attempt, changes nothing and fails or, for an expired token, never reports |
| Sync.FetchCloudChangesOperation.Execute | ShadowCoel/Sync/FetchCloudChangesOperation.swift:31-38 | the same for a whole operation, which starts from the stored token; having consumed all batches it leaves exactly the final store |
| Sync.SyncUntilDone | ShadowCoel/Sync/FetchCloudChangesOperation.swift:63-113 | any number of operations cut off or failing anywhere, while the server gains batches: the store stays on the way to the same final store and is that store once everything is consumed; an operation that meets nothing worse than errors that may be retried catches up with the server |
| Sync.StoppedOrNot | ShadowCoel/Sync/FetchCloudChangesOperation.swift:31-113 | of two devices in the same state, one stopped again and again until an operation gets through and one that fetches everything in one go, both end with the same store and token |
| Sync.PartialBatch | ShadowCoel/Sync/FetchCloudChangesOperation.swift:63-85 | stopping inside a batch and starting that batch over leads to the same final store |
| Sync.WholeBatch | ShadowCoel/Sync/FetchCloudChangesOperation.swift:78-85 | moving the token over an applied batch leads to the same final store |
| Sync.GoalUnique | ShadowCoel/Sync/FetchCloudChangesOperation.swift:63-113 | only one final store lies behind a store and a token |
| Sync.GoalExists | ShadowCoel/Sync/FetchCloudChangesOperation.swift:63-113 | from every store the remaining writes lead to some final store |
| Strings.SplitJoin | ShadowCoelModel/Proxy.swift:321-321 | splitting joined parts that lack the separator gives the parts back |
| Strings.SplitJoinIff | ShadowCoelModel/Proxy.swift:321-324 | joined parts split into as many components if and only if none contains the separator |
| Strings.FindTextLast | ShadowCoelModel/Proxy.swift:293-293 | the backwards search finds the last place where the text stands |
| Strings.IntRoundTrip | ShadowCoelModel/Proxy.swift:301-303 | a printed 64-bit integer is parsed back, negative ones included |
| Base64.PaddedRoundTrip | ShadowCoelModel/Proxy.swift:229-229 | standard base64 with padding decodes to the encoded bytes, for every byte string |
| Base64.SameNumber | ShadowCoelModel/Proxy.swift:229-229 | four digits count the same number as the 24 bits of three bytes (RFC 4648 section 4) |
| Base64.Alphabet | ShadowCoelModel/Proxy.swift:229-229 | the digits are A to Z, a to z, 0 to 9, + and / in this order |
| Base64.LinkRoundTrip | ShadowCoelModel/Proxy.swift:391-401 | base64 with `=` removed and `/` written as `_` is read back for every UTF-8 byte string, and refused otherwise |
| Base64.MixedRoundTrip | ShadowCoelModel/Proxy.swift:391-401 | base64 in either alphabet, or both mixed, padded or not, is read back for every UTF-8 byte string |
| Base64.PlainText | ShadowCoelModel/Proxy.swift:391-394 | a text with a colon is taken as it is |
| Base64.EncodeRoundTrip | ShadowCoelModel/Proxy.swift:391-401 | padded standard base64 is read back as well by the same lenient decoder |
| ProxyUri.SsRoundTripIff | ShadowCoelModel/Proxy.swift:215-231 | reading a printed `ss://` link gives the proxy back if and only if the method is lower case without ':' or "-auth" and the host has no '@'; the password is any ASCII text |
| ProxyUri.SsReads | ShadowCoelModel/Proxy.swift:280-305 | what reading a printed `ss://` link gives for every method without colon and host without '@': the method in lower case, cut before its last "-auth", one-time authentication exactly if it has one, and the other fields as printed |
| ProxyUri.SsTextIs | ShadowCoelModel/Proxy.swift:219-231 | the text in an `ss://` link is `method:password@host:port` |
| ProxyUri.SsrTextIs | ShadowCoelModel/Proxy.swift:232-258 | the text in an `ssr://` link is the six parts with colons, `/?` and the four named parameters |
| ProxyUri.QueryCompIs | ShadowCoelModel/Proxy.swift:244-252 | each of those parameters is its name, `=` and its value in the base64 of links |
| ProxyUri.SsPrintsIff | ShadowCoelModel/Proxy.swift:219-231 | an `ss://` link is printed exactly for ASCII fields, anything else as the empty string |
| ProxyUri.SsrPrintsIff | ShadowCoelModel/Proxy.swift:232-262 | a complete `ssr://` link is printed exactly for ASCII fields, anything else traps; name and group may be any text |
| ProxyUri.SsrRoundTripIff | ShadowCoelModel/Proxy.swift:232-258 | reading a printed `ssr://` link gives back every field through two levels of base64 if and only if host, protocol, method and obfuscation contain no colon; otherwise it is refused as an invalid URI |
| ProxyUri.CutsOf | ShadowCoelModel/Proxy.swift:312-320 | the last question mark and the last slash before it are the printed ones, whatever the fields contain |
| ProxyUri.ReadQueryComps | ShadowCoelModel/Proxy.swift:334-351 | the four query components set the two parameters, the name and the group, and only those |
| ProxyUri.Proxy.FromDictionary | ShadowCoelModel/Proxy.swift:273-358 | the initialiser, assigning step by step, ends in exactly the fields, error or trap of the reading specification |
| ProxyUri.Proxy.InitShadowsocks | ShadowCoelModel/Proxy.swift:280-305 | the `ss://` branch does what its specification says |
| ProxyUri.Proxy.InitShadowsocksR | ShadowCoelModel/Proxy.swift:312-352 | the `ssr://` branch does what its specification says |
| ProxyUri.Proxy.InitQuery | ShadowCoelModel/Proxy.swift:334-351 | the loop over the query components, including the trap on an undecodable name |
| ProxyUri.Proxy.InitQueryComp | ShadowCoelModel/Proxy.swift:335-350 | one component sets the field its key names, or none; an undecodable name traps |
| Query.PercentRoundTrip | Library/CallbackURLKit/Sources/Extensions.swift:43-59 | percent-encoding is undone by decoding, for every UTF-8 text |
| Query.QueryString | Library/CallbackURLKit/Sources/Extensions.swift:66-75 | in whatever order the dictionary is enumerated, the query string reads back as that dictionary |
| Query.ToQueryDictionary | Library/CallbackURLKit/Sources/Extensions.swift:29-41 | the loop that splits at every '=' and joins the rest reads what the pair says, cut at its first '=' |
| Query.ReadQueryConcat | Library/CallbackURLKit/Sources/Extensions.swift:121-127 | a query appended to a query merges the two dictionaries, the appended one winning, for all texts |
| Urls.UrlRoundTrip | Library/CallbackURLKit/Sources/Manager.swift:217-218 | the text of a well-formed URL is parsed back into its components, by a parser that refuses what RFC 3986 does not allow |
| Urls.ParsePrint | Library/CallbackURLKit/Sources/Manager.swift:217-218 | the components of any text that is parsed print as that text |
| Callback.Request.ResponseTypes | Library/CallbackURLKit/Sources/Request.swift:52-64 | lists exactly the answers for which the request has a callback |
| Callback.RequestRoundTrip | Library/CallbackURLKit/Sources/Manager.swift:230-235 | first hop: the other app's handler is given the action, less a trailing slash that the path loses, and the parameters, with the source app added, whatever order the query was written in |
| Callback.ActionRoundTripIff | Library/CallbackURLKit/Sources/Manager.swift:72-79 | the very action asked for is dispatched if and only if it does not end with a slash |
| Callback.HandleIff | Library/CallbackURLKit/Sources/Manager.swift:72-139 | a URL is left unhandled if and only if it is for another app, answers no pending request, or asks for an unknown action without a URL for errors; with one it is refused |
| Callback.ReplyParametersIff | Library/CallbackURLKit/Sources/Manager.swift:238-247 | of a reply's parameters the filter leaves exactly the returned ones if and only if none of those belongs to the protocol |
| Callback.SuccessRoundTripIff | Library/CallbackURLKit/Sources/Manager.swift:72-151 | both hops: the URL nested in the request, found by the other app, extended and opened again answers that request with success and exactly the returned dictionary if and only if it has no protocol key and no "x-" key but the source |
| Callback.FailureRoundTrip | Library/CallbackURLKit/Sources/Client.swift:75-83 | an error travels back with its code; its message arrives as the failure reason of the error that the caller is given |
| Callback.ErrorWithout | Library/CallbackURLKit/Sources/Client.swift:75-83 | an error without a readable code has code 3, one without a message no reason |
| Callback.CancelRoundTrip | Library/CallbackURLKit/Sources/Manager.swift:116-118 | a cancellation reaches the request that asked for it |
| CallbackManager.CallbackUrl | Library/CallbackURLKit/Sources/Manager.swift:208-218 | builds a URL that leads back to this manager as an answer of the given type to the given request |
| CallbackManager.RequestUrl | Library/CallbackURLKit/Sources/Request.swift:39-46 | scheme, host, action and merged parameters of a request can be read back from its URL |
| CallbackManager.OpenCallback | Library/CallbackURLKit/Sources/Manager.swift:141-151 | opens the callback named for the type, if any, with the returned parameters merged into its query |
| CallbackManager.AddToQuery | Library/CallbackURLKit/Sources/Extensions.swift:121-131 | appending to a query keeps all else and merges what the two say |
| CallbackManager.ErrorReply | Library/CallbackURLKit/Sources/CallbackURLKit.swift:72-79 | an error is returned as its code and message |
| CallbackManager.Manager.constructor | Library/CallbackURLKit/Sources/Manager.swift:53-55 | a manager starts without requests and answers |
| CallbackManager.Manager.ProtocolQuery | Library/CallbackURLKit/Sources/Manager.swift:203-220 | the source app and, for each wanted kind of answer, a URL that leads back |
| CallbackManager.Manager.Send | Library/CallbackURLKit/Sources/Manager.swift:198-236 | a request is sent exactly when the app is installed and a scheme is set or no answer is wanted; what is sent carries the parameters and one working callback per callback of the request; the request is kept exactly when the app is installed, a scheme is set and there is a callback |
| CallbackManager.Manager.HandleOpen | Library/CallbackURLKit/Sources/Manager.swift:72-139 | handles a URL as specified, answers and forgets the matching request, and changes nothing else |
| CallbackManager.Manager.HandleAnswer | Library/CallbackURLKit/Sources/Manager.swift:84-101 | an answer of a known type removes the request it names; an unknown type is handled without answering |
| CallbackManager.Manager.Run | Library/CallbackURLKit/Sources/Manager.swift:72-236 | over any run with distinct identifiers every request that was kept is either pending or has been answered exactly once |
| CallbackManager.FirstHop | Library/CallbackURLKit/Sources/Manager.swift:198-236 | the other app is handed the action and the parameters, and finds in them where to answer |
| CallbackManager.SecondHop | Library/CallbackURLKit/Sources/Manager.swift:84-101 | the answer reaches the pending request with exactly the returned dictionary |
| CallbackManager.Exchange | Library/CallbackURLKit/Sources/Manager.swift:72-236 | a whole exchange between two managers through printed and parsed URLs: whenever the other app knows the action, the request is answered with exactly the returned dictionary, and no longer pending |

## Left out

- Decoder.DecodeOne: does not model the values left in the caller's struct when decoding fails, the `has_data` flag (set on every success), or the stale `data_size` of scalar types; nothing the traversals do depends on them.
- Decoder.ReadScalar: floats and doubles stay opaque bytes; the IEEE 754 conversion is not modelled.
- Lookup.AgetValue: where the data denotes no tree with string keys (corrupt data) it promises only that it ends, stays in bounds, returns one of its four statuses and, with success, a field that stands in the data and is no pointer; the result zeroed after a failed step is not modelled; `strtol` is replaced by its possible results, including overflow and left-over text.
- EntryList.MMDBGetEntryDataList: says nothing about the contents of the partial list that is returned together with an error.
- Dumping.DumpEntryDataList: prints nothing, so memory exhaustion while copying text cannot occur.
- Pooling.DataPool.Alloc: the `pool` back pointer in the first struct of each block, and the entries of the two 32-entry tables that are not in use, are not represented; a null pool is not an argument.
- SearchTree.MMDB.constructor: assumes what opening has checked (`Layout.Opened`), for files below 4 GiB whose tree size does not overflow 32 bits; the overflow of `node_count * full_record_byte_size` that the library does not check is excluded.
- TreeFile.FileRoundTrip: the numbers that the metadata holds (node count, record size, IP version) are given beside the file; finding the metadata's place in it is `Metadata.FindMetadata`, decoding it is left out.
- SearchTree.MMDB.LookupSockaddr: takes address bytes; `getaddrinfo` and socket structures are left out.
- Bloom.Filter.Init: takes the number of bits (at least 1) and of hash functions that the floating-point formulas produce; murmurhash2 is an arbitrary function of bytes and seed.
- Sync.Device.ChangeLocalRecord: treats the fields of a record as one opaque payload; the lists of proxies and rule sets of a configuration group, which are resolved against the store when the record arrives, are not modelled, and timestamps are real numbers without NaN.
- Sync.FetchCloudChangesOperation.FetchCloudChanges: the server is a growing sequence of batches, one per token; CloudKit's own merging of changes, delays between retries and local edits during a fetch are left out.
- ProxyUri.Proxy.FromDictionary: only dictionaries with a "uri" entry; `validate` does nothing for a proxy. Lower-casing is that of ASCII letters, and Foundation's treatment of combining characters after a separator and of a byte order mark is not modelled.
- Base64.PaddedRoundTrip: says nothing about which malformed texts Foundation's decoder accepts beyond RFC 4648, such as non-zero bits under the padding.
- Urls.UrlRoundTrip: only absolute URLs with an authority; user, password and port inside it are not told apart from the host, and of Foundation's repairs of malformed text none is modelled.
- CallbackManager.Manager.Send: the error for a request URL that cannot be built does not occur, since the components always have a host and a path that starts with "/".
- CallbackManager.Manager.HandleOpen: a request's callbacks are represented by whether they exist and the answers by a log, so what an action handler does, and how often it answers, is left to the environment; the system's wording of an error is an arbitrary function.
- Opening and closing files, memory mapping, the numeric fields of the metadata, languages and descriptions: thin clients of the decoder or input and output.
- The `acl.c` rule engine, pushing local changes to the cloud, `ProxyRuleSet.move`, view controllers, forms, migrations, purchases and VPN control: foreign libraries, user interface, or single calls.
