# Verified core of a DNS and DHCP server

This project models the parts of a dnsmasq rewrite in Rust whose behaviour is hardest to
see from one function body, and proves what they promise: the DNS cache, the EDNS0 OPT
codec, DNS name compression, the domain matcher, the include loop and quote decoder of the
configuration parser, the packet walks of the record filter, the choice of an
authoritative zone, and the validation of DHCP pools.

`dafny verify dfyconfig.toml` checks everything. One module per component:

| file | models |
|---|---|
| `Basics.dfy`, `Bytes.dfy`, `Net.dfy` | options and results, bytes and big-endian integers, IP addresses |
| `Separators.dfy`, `Names.dfy` | splitting and joining at a separator; domain names as dotted strings, their labels, comparison ignoring case |
| `CacheModel.dfy`, `CacheRuns.dfy`, `DnsCache.dfy` | the cache as a state machine, theorems over all runs of it, and the class that keeps the map and the LRU list by hand |
| `Utf8.dfy`, `Edns0.dfy`, `OptRecords.dfy` | lossy UTF-8 decoding, EDNS0 options, OPT records on the wire |
| `Compression.dfy`, `Suffixes.dfy`, `NameChains.dfy` | writing names with compression pointers and reading them back; what the suffix map learns; what the reader accepts |
| `Matcher.dfy` | the suffix-probing domain matcher |
| `Zones.dfy` | the subdomain order and `find_zone` |
| `Includes.dfy`, `Quotes.dfy` | the include work stack, and quotes and escapes |
| `PacketWalk.dfy` | the compression-pointer walk, the section walk, the range-deleting copy |
| `Pools.dfy` | DHCP pool validation |

Code that updates state in place is a class or a method with loops, proved equal to a
specification function; the theorems are about those functions. Clock readings, the file
system and the order in which a hash map yields its entries are parameters or
nondeterministic choices. Integers are unbounded except where a cast or a field width is
written out.

## Where the code differs from its documentation

The model follows the code.

- `find_longest_match` prefers an exact `S` to `*.S`, which has more labels; the head of
  `find_all_matches` is then the wildcard (`Matcher.HeadVersusLongest` says exactly when,
  `Matcher.HeadCanDiffer` shows it).
- `wire_size` is an upper bound only, and not even that when an IPv6 address of more than
  32 prefix bits is labelled family 1 (`OptRecords.WireSizeBounds`,
  `OptRecords.WireSizeCanFallShort`).
- A name lookup that drops an expired entry leaves `current_size` stale
  (`CacheRuns.CurrentSizeExactly`, `CacheRuns.NameLookupLeavesSize`).
- An address lookup that stops at an expired entry counts an expiration and removes nothing,
  so the counters no longer add up (`CacheRuns.CountersConserve`,
  `CacheRuns.AddressLookupCountsTwice`).
- `check_name_compression` returns the end of the name a pointer leads to. That is the end
  of the name itself exactly in the cases of `PacketWalk.WalkEndIsNameEnd`; the section walk
  built on it leaves the layout of the message otherwise
  (`PacketWalk.IntegrityReadsLayout`, `PacketWalk.CheckCanLeaveTheLayout`).
- `visited_files` is empty again after each file, so the "Circular include" error is never
  given: a file that includes itself is parsed twenty times
  (`Includes.SelfIncludeIsParsedTwentyTimes`).
- The includes of a file that fails to parse are not dropped: the next file that parses
  takes them over (`Includes.VisitIsPreorder`, `Includes.LeftoverIsParsedElsewhere`).
- `compress_name` limits a label to 63 bytes before escaping. A label that grows past 63 by
  escaping is written and cannot be read (`Compression.EscapingCanBreakAName`).
- A DHCP configuration that lists the full IPv4 range before any ill-formed IPv4 range is
  neither accepted nor refused. Counting its addresses overflows 32 bits, every build
  checks for overflow (`.cargo/config.toml`, lines 42, 241-243 and 254-256) and panics, so
  validation never returns (`Pools.VerdictExactly`, `Pools.FullRangeIsNotAccepted`).
- Nothing is a subdomain of the root name: the empty string has one (empty) label
  (`Zones.RootHasNoSubdomains`).
- A name of two dots or more is not the root to `compress_name`: it is written as an empty
  label, and the reader stops a byte early unless it was written before
  (`Compression.TextReadsBack`, `Compression.TwoDotsEndEarly`).

## Model

| member | source | states |
|---|---|---|
| `Names.JoinOfSplit` | src/dns/protocol/name.rs:256-275 | joining the labels of a name with dots gives the name back |
| `Names.SplitOfJoin` | src/dns/protocol/name.rs:272-275 | splitting a join of dot-free labels gives the labels back, so joining is injective on them |
| `Names.KeyEqualityIsLabelEquality` | src/dns/matcher.rs:624-626 | two folded joined keys are equal exactly when the labels are equal one by one ignoring case |
| `Names.SameNameIsSameLabels` | src/dns/protocol/name.rs:705-711 | names equal ignoring case are exactly those with the same labels ignoring case |
| `Names.LowerCharExactly` | src/dns/protocol/name.rs:705-711 | folding identifies exactly `A` to `Z` with `a` to `z` |
| `Names.SameNameExactly` | src/dns/protocol/name.rs:705-711 | two strings are the same name exactly when they have the same characters, folded, place by place |
| `Net.ValueOrder` | src/config/validator.rs:497-500 | addresses of a family compare as their octets do, the first difference first, and equal numbers are equal addresses |
| `CacheRuns.EveryRunIsConsistent` | src/dns/cache.rs:493-976 | after every trace: map and LRU list hold the same keys once each, every key is its entry's, size at most max(1, capacity), and all counters balance |
| `CacheRuns.CountersConserve` | src/dns/cache.rs:498-592 | in every run lookups = hits + misses and current_size >= len; and insertions = len + evictions + expirations + overwrites + DHCP removals + cleared exactly when no address lookup of the run stopped at an expired entry |
| `CacheRuns.CountersAreCounts` | src/dns/cache.rs:498-791 | in every run hits is the number of lookups answered, misses of those not, and insertions, evictions and expirations are the numbers of each, event by event |
| `CacheRuns.AddressLookupCountsTwice` | src/dns/cache.rs:565-578 | an expired entry looked up by address is counted as expired while it is still held |
| `CacheRuns.CurrentSizeExactly` | src/dns/cache.rs:518-529 | after every run current_size = len exactly when each name lookup that dropped an expired entry was followed by an insert, a clear or a removal that removed something |
| `CacheRuns.NameLookupLeavesSize` | src/dns/cache.rs:518-529 | after one insert and one expired lookup the cache is empty and current_size is 1 |
| `CacheRuns.OrderIsLastUse` | src/dns/cache.rs:518-541 | in every run the LRU list is strictly ordered by the position of the last event that used each key |
| `CacheRuns.VictimIsLeastRecentlyUsed` | src/dns/cache.rs:701-716 | in every run the key an eviction removes was last used before every key it keeps |
| `CacheRuns.HitsAgreeWithUnbounded` | src/dns/cache.rs:493-542 | in every run, at any capacity, a name hit returns what a never-evicting last-insert-wins map returns, under the key asked for |
| `CacheRuns.KeyOfExactly` | src/dns/cache.rs:148-160 | two lookups share a key exactly when their names have the same labels, ignoring case, and their types are equal |
| `CacheRuns.HitHasNameAndType` | src/dns/cache.rs:518-541 | in every run an answer has the name and the type asked for and has not reached its expiry |
| `CacheRuns.StoredIsFound` | src/dns/cache.rs:493-716 | in every run an entry once stored answers every lookup of its name and type up to its expiry, and none from then on, unless an event since has overwritten, removed, cleared or evicted it |
| `CacheRuns.DhcpEntryIsFound` | src/dns/cache.rs:909-957 | an added lease is found under type 1 or 28, by its family, until now + ttl; removing it as a DHCP entry removes it, and leaves entries without that flag |
| `CacheRuns.PruneKeepsLive` | src/dns/cache.rs:767-794 | pruning keeps exactly the entries that have not reached their expiry |
| `CacheRuns.EnoughRoomIsTransparent` | src/dns/cache.rs:621-682 | if at most `capacity` distinct keys were inserted and nobody evicted directly, under a monotone clock, hits and misses are those of the unbounded map for every lookup |
| `CacheRuns.SmallerIsIncludedInLarger` | src/dns/cache.rs:621-716 | two caches of capacities n <= m fed the same trace: the smaller one's entries are always among the larger one's, and the sizes differ by at most the difference of the bounds |
| `CacheRuns.LargerCacheHitsMore` | src/dns/cache.rs:493-542 | hence the larger cache answers alike wherever the smaller one hits |
| `CacheRuns.InsertKeepsNesting` | src/dns/cache.rs:621-682 | inserting into two nested caches, with whatever evictions each needs, keeps them nested |
| `CacheRuns.InsertIsConsistent` | src/dns/cache.rs:621-682 | an insert into any consistent cache keeps indices, bound and counters consistent, whether it evicts, overwrites or adds |
| `DnsCacheImpl.LruCache.Put` | src/dns/cache.rs:663-665 | the library list: storing a new key in a full list silently drops the oldest element, otherwise nothing is lost |
| `DnsCacheImpl.DnsCache.WithCapacity` | src/dns/cache.rs:458-469 | a new cache is empty; the LRU list gets capacity 150 when the cache has 0 |
| `DnsCacheImpl.DnsCache.FindByName` | src/dns/cache.rs:493-542 | takes the lookup step, answers with the live entry of that name and type or nothing, keeps both indices equal |
| `DnsCacheImpl.DnsCache.FindByAddr` | src/dns/cache.rs:565-593 | takes an address step that the scan could make: a live match, an expired match, or none when there is none |
| `DnsCacheImpl.DnsCache.Insert` | src/dns/cache.rs:621-682 | takes the insert step, and the LRU list never evicts silently |
| `DnsCacheImpl.DnsCache.EvictLru` | src/dns/cache.rs:701-716 | removes from both indices and returns the least recently used entry; nothing when empty |
| `DnsCacheImpl.DnsCache.EvictExpired` | src/dns/cache.rs:727-752 | removes and returns some expired entry exactly when one exists |
| `DnsCacheImpl.DnsCache.PruneExpired` | src/dns/cache.rs:767-794 | removes exactly the expired entries and returns their number |
| `DnsCacheImpl.DnsCache.RemoveAll` | src/dns/cache.rs:780-787 | the loop over the collected keys removes all of them from both indices, counting one expiration each |
| `DnsCacheImpl.DnsCache.AddDhcpEntry` | src/dns/cache.rs:909-921 | inserts an A or AAAA entry flagged DHCP and forward |
| `DnsCacheImpl.DnsCache.RemoveDhcpEntry` | src/dns/cache.rs:942-957 | removes the entry exactly when it is there and came from DHCP |
| `DnsCacheImpl.DnsCache.Clear` | src/dns/cache.rs:969-976 | empties both indices and keeps the other counters |
| `Utf8.LossyIsValid` | src/dns/edns0.rs:419-423 | lossy decoding always yields well-formed UTF-8 |
| `Utf8.LossyIdentity` | src/dns/edns0.rs:419-423 | lossy decoding returns its input exactly when the input is well-formed UTF-8 |
| `Utf8.ValidExactly` | src/dns/edns0.rs:419-423 | well-formed text is exactly the encodings of sequences of Unicode scalar values |
| `Utf8.BadChunkIsLongest` | src/dns/edns0.rs:419-423 | what is replaced is the longest start of a character, or one byte |
| `Utf8.LossyStep` | src/dns/edns0.rs:419-423 | each such chunk becomes one U+FFFD and characters stay |
| `Edns0.RejectedExactly` | src/dns/edns0.rs:311-442 | which data each option parser refuses; refused data is kept as `Unknown` under its code |
| `Edns0.SubnetSurvives` | src/dns/edns0.rs:231-261 | a client subnet parses back to itself exactly when its family matches the address and the octets past the prefix are zero |
| `Edns0.CookieSurvives` | src/dns/edns0.rs:382-408 | a cookie parses back to itself exactly when the client part is 8 bytes and the server part absent or 8 to 32 |
| `Edns0.OptionPrintThenParse` | src/dns/edns0.rs:231-324 | an option parses back to itself exactly when it is canonical |
| `Edns0.OptionParseThenPrint` | src/dns/edns0.rs:231-442 | parsed option data prints back byte for byte exactly when the subnet is not over- or under-long, the padding zero and the error text UTF-8 |
| `Edns0.AnnouncedLength` | src/dns/edns0.rs:207-226 | by how much `data_len` is off for each option, and that it is at least the length written except exactly for an IPv6 address of more than 32 prefix bits under family 1 |
| `Edns0.DataImage` | src/dns/edns0.rs:190-289 | the code and the data bytes of every option, in numbers, high byte first |
| `Edns0.SubnetFields` | src/dns/edns0.rs:326-380 | accepted subnet data gives the family, both prefix lengths and the octets, missing ones zero |
| `Edns0.OtherFields` | src/dns/edns0.rs:382-442 | accepted cookie, error and padding data give these fields |
| `OptRecords.ToWireFormat` | src/dns/edns0.rs:548-598 | the serializing loop writes the header and the frames of all options but `DnssecOk` |
| `OptRecords.ParseOptions` | src/dns/edns0.rs:668-711 | the option loop over a slice of the data reads its frames and decodes each, or fails where the framing does |
| `OptRecords.FromWireFormat` | src/dns/edns0.rs:609-714 | the parser, with each error, equals the specification over whole byte strings |
| `OptRecords.FramesTile` | src/dns/edns0.rs:668-711 | accepted RDATA is exactly the concatenation of its option headers and data |
| `OptRecords.FramesOfFlatten` | src/dns/edns0.rs:668-711 | frames with 16-bit lengths written one after another are read back as those frames |
| `OptRecords.ParseIsFramed` | src/dns/edns0.rs:609-714 | success consumes 11 + RDLENGTH bytes, which the options tile, and appended bytes change nothing |
| `OptRecords.WrittenRecordParses` | src/dns/edns0.rs:548-714 | any record whose RDATA fits 16 bits parses, header fields intact, to the decoding of its own options |
| `OptRecords.OptionImage` | src/dns/edns0.rs:568-590 | an option on the wire is its code, its length modulo 65536 and its data; the DO pseudo-option is nothing |
| `OptRecords.RecordImage` | src/dns/edns0.rs:548-598 | a record on the wire is eleven header bytes, in numbers, and its options in order |
| `OptRecords.FramedExactly` | src/dns/edns0.rs:668-711 | RDATA is accepted exactly when it is some frames one after another |
| `OptRecords.MalformedRdata` | src/dns/edns0.rs:668-711 | refused RDATA is whole frames and a rest whose header or data is cut short, as the error says |
| `OptRecords.ParseErrorsExactly` | src/dns/edns0.rs:609-666 | which bytes give each error of the record parser |
| `OptRecords.PrintThenParse` | src/dns/edns0.rs:548-714 | for every record: printing then parsing is the identity and consumes all bytes exactly when the RDATA fits and every option is canonical |
| `OptRecords.ParseThenPrint` | src/dns/edns0.rs:548-714 | for every accepted byte string: printing reproduces the consumed prefix exactly when every option is reproducible, malformed known options included |
| `OptRecords.WireSizeBounds` | src/dns/edns0.rs:538-545 | the serialized length is at most `wire_size` exactly when mislabelled subnets overrun by no more than the other options leave unused; without such subnets always, and then equal exactly when there is no `DnssecOk` and no subnet shorter than its family announces |
| `OptRecords.WireSizeCanFallShort` | src/dns/edns0.rs:207-212 | a record that takes 12 bytes more than `wire_size` |
| `Compression.UnescapeOfEscape` | src/dns/protocol/compression.rs:521-586 | unescaping an escaped label gives it back; escaping at most doubles it |
| `Compression.EscapeByte` | src/dns/protocol/compression.rs:521-535 | the bytes 0, 1 and 46 are escaped as 1 and the next number, other bytes stand for themselves |
| `Compression.EscapeAppend` | src/dns/protocol/compression.rs:521-535 | escaping goes byte by byte |
| `Compression.UnescapeReadsMarks` | src/dns/protocol/compression.rs:548-571 | unescaping reads bare and marked bytes, a mark being one too high modulo 256, and fails exactly on an escape byte at the end |
| `Compression.LabelHasMarks` | src/dns/protocol/compression.rs:548-571 | every label is made of such bytes, perhaps with a lone escape byte behind them |
| `Compression.ShownByte` | src/dns/protocol/compression.rs:573-585 | in a label that is not text, graphic characters but the backslash are shown as themselves and other bytes as `\x` and two upper-case hexadecimal digits |
| `Compression.ShownAppend` | src/dns/protocol/compression.rs:573-585 | and so goes byte by byte |
| `Compression.DecompressName` | src/dns/protocol/compression.rs:242-360 | the reading loop halts on every packet and returns the text and end offset of the recursive reader, the last dot dropped, each error included |
| `Compression.Writer.AddName` | src/dns/protocol/compression.rs:100-124 | records every label-aligned suffix of a written name up to a pointer or the end |
| `Compression.WriteFresh` | src/dns/protocol/compression.rs:404-463 | the loop writes exactly the labels before the first suffix known at a 14-bit offset; an over-long label stops it, at once with a map, at that label without |
| `Compression.Writer.CompressName` | src/dns/protocol/compression.rs:386-480 | for any text, with or without a map: root shortcut, trailing dots trimmed, labels and a pointer or terminator appended, the map extended; a refusal leaves the buffer as it was with a map, and the labels before the over-long one without |
| `Compression.FirstLongExactly` | src/dns/protocol/compression.rs:441-447 | the label refused is the first of more than 63 bytes |
| `Compression.RootAndKnownNames` | src/dns/protocol/compression.rs:394-440 | the empty name and the single dot are written as one null byte and a known name as a pointer; neither changes the map |
| `Compression.WritingIsSound` | src/dns/protocol/compression.rs:100-124 | writing a name keeps every suffix in the map standing in the packet at the offset the map gives |
| `Suffixes.SuffixesAreLearned` | src/dns/protocol/compression.rs:100-124 | when a name is written out with the map, every suffix behind labels of 1 to 63 escaped bytes is learned at the offset where it stands |
| `Suffixes.KnownStays` | src/dns/protocol/compression.rs:404-480 | a suffix known at an offset up to 0x3FFF keeps that offset, whatever is written later |
| `Suffixes.SharedSuffixIsPointedTo` | src/dns/protocol/compression.rs:386-480 | in a message, a name that ends in such a suffix of an earlier name written out takes at most its other labels and a two-byte pointer to where the rest stands, to that very suffix when no longer one is known |
| `NameChains.ReadNameExactly` | src/dns/protocol/compression.rs:242-360 | a name is read exactly when labels and at most 255 pointers lead to a null byte, each label can be read and the dotted name takes at most 1025 bytes; the labels are those along the way, and the end is past the null byte or the first pointer |
| `NameChains.LabelReadExactly` | src/dns/protocol/compression.rs:306-346 | which labels can be read, and as what text |
| `NameChains.ReadFailsForReason` | src/dns/protocol/compression.rs:242-360 | on failure the reader has come along labels and pointers to an offset from which it cannot go on for the reason given |
| `Compression.ReadingGivesCarried` | src/dns/protocol/compression.rs:242-360 | the reader returns all labels of a name exactly when none is empty, none escapes past 63 bytes and the dotted name fits |
| `Compression.LabelsOfText` | src/dns/protocol/compression.rs:395-401 | the labels a text splits into are themselves text, hold no dot, and join to the text without its trailing dots |
| `Compression.TextReadsBack` | src/dns/protocol/compression.rs:242-480 | a text written against any sound map reads back without its trailing dots, with the right end offset, exactly when its labels are carried or it is all dots and known to the map |
| `Compression.EveryNameReadsBack` | src/dns/protocol/compression.rs:242-480 | in a message of any texts, written with or without the map, and other bytes: every text accepted reads back from the finished packet at its offset, and reading stops where the next piece begins, exactly in those cases |
| `Compression.EscapingCanBreakAName` | src/dns/protocol/compression.rs:448-463 | forty NUL bytes: a name the writer accepts and the reader refuses |
| `Compression.TwoDotsEndEarly` | src/dns/protocol/compression.rs:394-401 | two dots are written as two null bytes and read back as the root, ending after the first |
| `Matcher.DomainMatcher.AddPattern` | src/dns/matcher.rs:381-398 | the history of changes grows by this one, and the map and the wildcard flag are those of the history |
| `Matcher.DomainMatcher.FindLongestMatch` | src/dns/matcher.rs:457-505 | the probing loop with early returns equals the specification |
| `Matcher.DomainMatcher.FindAllMatches` | src/dns/matcher.rs:530-575 | the collecting loop and the sort equal the specification |
| `Matcher.DomainMatcher.SortMatches` | src/dns/matcher.rs:571 | the sort loop is the stable sort by descending match length |
| `Matcher.DomainMatcher.Clear` | src/dns/matcher.rs:616-619 | the history grows by a clear, after which there is no pattern and no flag |
| `Matcher.FlagIsSound` | src/dns/matcher.rs:484-500 | skipping wildcard probes while the flag is false changes no answer |
| `Matcher.HitIsProbed` | src/dns/matcher.rs:464-500 | a stored pattern that matches label by label is found by the probe of its own suffix and no other key could hold it |
| `Matcher.LongestAgreesWithScan` | src/dns/matcher.rs:457-505 | a result is returned exactly when some stored pattern matches, and it alone has the most literal suffix labels, exact before wildcard |
| `Matcher.AllMatchesOnceInOrder` | src/dns/matcher.rs:530-575 | exactly the matching patterns, each once, by strictly decreasing length with exact before wildcard on ties |
| `Matcher.HeadVersusLongest` | src/dns/matcher.rs:457-575 | the list is empty exactly when there is no longest match and contains it otherwise; its head differs exactly when the result is an exact S shorter than the query with `*.S` also stored |
| `Matcher.HeadCanDiffer` | src/dns/matcher.rs:457-575 | with `c` and `*.c` stored, `x.c` finds `c` as its longest match and `*.c` at the head of all matches |
| `Matcher.HistoryIsIndexed` | src/dns/matcher.rs:381-398 | after every history of adding and clearing the wildcard flag is set exactly when a wildcard is stored |
| `Matcher.LongestOverHistory` | src/dns/matcher.rs:457-505 | after every history the answer is none exactly when no pattern in force matches; otherwise it has the name, servers, kind and label count of the last addition of a pattern that matches and ranks above every other in force |
| `Matcher.AllOverHistory` | src/dns/matcher.rs:530-575 | after every history all matches are exactly the results that tell, field by field, of the patterns in force that match |
| `Zones.IsSubdomainIrreflexive` | src/dns/protocol/name.rs:301-313 | no name is below one equal to it ignoring case |
| `Zones.EqualOrBelowTransitive` | src/dns/protocol/name.rs:301-313 | "equal or below" is transitive, strictly if either step is |
| `Zones.AncestorsFormAChain` | src/dns/protocol/name.rs:301-313 | two names above one name are comparable, the one with the longer string is the lower, and equally long ones are the same name |
| `Zones.TrailingDotsDoNotMatter` | src/types.rs:352-386 | on any strings, trailing dots included, being a subdomain is a strict partial order in which the names above a name form a chain, and appending a dot to either name changes nothing |
| `Zones.RootHasNoSubdomains` | src/dns/protocol/name.rs:272-313 | no name is below the root, so a zone for the root matches the root query alone |
| `Zones.IsMatchExactly` | src/dns/auth.rs:314-325 | a zone matches exactly the names that end in its labels, ignoring case |
| `Zones.LastLongestIsLongest` | src/dns/auth.rs:962-963 | the selection has maximal length and is the last of those with it |
| `Zones.FindZoneIsMostSpecific` | src/dns/auth.rs:952-970 | no zone exactly when none matches; otherwise a matching zone equal to or below every matching zone, the last listed with its name |
| `Includes.ConfigParser.ReadFile` | src/config/parser.rs:347-425 | one turn: missing, circular, unparsable or parsed, with the files read, the includes left pending and the visited set restored |
| `Includes.ConfigParser.ParseFile` | src/config/parser.rs:317-460 | for every file system the loop halts, parses what the recursive traversal parses in its order, leaves the same includes pending, and reports the first file's result |
| `Includes.LookExactly` | src/config/parser.rs:347-425 | a path is missing exactly when it does not resolve or open; otherwise its resolved file is parsed or broken, with the includes found |
| `Includes.FirstFileDecides` | src/config/parser.rs:347-460 | the parse succeeds exactly when the first path resolves, opens and parses, and which error is given otherwise |
| `Includes.PushIsVisitAll` | src/config/parser.rs:445-450 | working off pushed includes from the top of the stack is visiting them last to first, then the rest of the stack |
| `Includes.GoodAdvances` | src/config/parser.rs:445-456 | replacing a parsed file by its includes one level deeper leaves strictly less to look at and the same traversal to do |
| `Includes.BrokenAdvances` | src/config/parser.rs:427-443 | so does dropping a file that fails to parse, its pending includes passing to the next file that parses |
| `Includes.VisitIsPreorder` | src/config/parser.rs:317-460 | for every file system: the traversal is the depth-bounded preorder "file, then its own includes last to first, cut at depth 20", in files parsed, paths looked at and nothing left pending, exactly when no file it reaches fails to parse with includes pending |
| `Includes.LeftoverIsParsedElsewhere` | src/config/parser.rs:427-450 | two files that fail to parse before one that parses: their includes are parsed after its own, in the order given |
| `Includes.SelfIncludeIsParsedTwentyTimes` | src/config/parser.rs:226-383 | the cycle check does not stop a file that includes itself; it is parsed twenty times and no more |
| `Quotes.ParseQuotedString` | src/config/parser.rs:719-761 | consumes up to the closing quote and returns what the automaton emits, or the open quote |
| `Quotes.ProcessQuotesAndEscapes` | src/config/parser.rs:676-707 | the decoding loop equals the automaton |
| `Quotes.DecodeIsMeaning` | src/config/parser.rs:676-761 | a line of plain characters, escaped characters and quoted text decodes to what these stand for; a lone backslash at the end stands for itself; an open quote is the only error |
| `Quotes.LineHasTokens` | src/config/parser.rs:676-761 | every line is made of such pieces |
| `Quotes.UnescapeExactly` | src/config/parser.rs:736-746 | in quotes `t n r b e` behind a backslash are the five control characters, in numbers, and any other character is itself |
| `Quotes.PlainLine` | src/config/parser.rs:699-701 | a line without quotes and backslashes decodes to itself |
| `Quotes.ReadInTwoParts` | src/config/parser.rs:676-761 | decoding a concatenation is decoding the parts, the second from the mode the first ends in |
| `Quotes.DecodeDistributes` | src/config/parser.rs:676-707 | decoding distributes over concatenation at points outside quotes and escapes |
| `Quotes.DecodeFailsExactlyOnOpenQuote` | src/config/parser.rs:719-761 | decoding fails exactly when a quote is left open, and names that quote |
| `Quotes.DecodeNeverLengthens` | src/config/parser.rs:676-707 | the result is never longer than the line |
| `Quotes.QuoteRoundTrip` | src/config/parser.rs:676-761 | quoting any string and decoding it, in any context outside quotes, gives it back |
| `PacketWalk.CheckNameCompression` | src/dns/filter.rs:717-804 | the walk halts on every packet, offset and pointer cycle, in bounds, and equals the recursive walk |
| `PacketWalk.WalkSucceedsExactly` | src/dns/filter.rs:717-804 | it succeeds exactly when labels and pointers lead to a null byte in at most 255 hops with every pointer target outside the removed ranges, and returns the byte after |
| `PacketWalk.WalkFailsForReason` | src/dns/filter.rs:717-804 | on failure it has come along labels and pointers to an offset from which it cannot go on for the reason given |
| `PacketWalk.PointerBits` | src/dns/filter.rs:740-749 | a pointer is a byte with both high bits set, and its target the other fourteen bits |
| `PacketWalk.AcceptedNamesAreAcyclic` | src/dns/filter.rs:717-804 | the offsets of an accepted name never repeat |
| `PacketWalk.PlainNameEnd` | src/dns/filter.rs:736-738 | for names without pointers the returned offset is the end of the name |
| `PacketWalk.WalkEndIsNameEnd` | src/dns/filter.rs:736-738 | it is the end of the name exactly when there is no pointer or the null byte reached is the low byte of the first pointer; never when that byte is not zero |
| `PacketWalk.PointerNameEndsElsewhere` | src/dns/filter.rs:736-738 | a packet where it is not |
| `PacketWalk.CheckCompressionIntegrity` | src/dns/filter.rs:369-449 | the section walk halts for all header counts, in bounds, and equals the specification |
| `PacketWalk.IntegrityIsTiled` | src/dns/filter.rs:369-449 | the check accepts with exactly those visits, as many as the header counts, that start at 12, follow a question after 4 bytes and a record after 10 bytes and its RDLENGTH, and whose names the walk ends there |
| `PacketWalk.LayoutIsTiled` | src/dns/filter.rs:369-449 | the same of the layout, with each name ended in place |
| `PacketWalk.IntegrityFollowsEveryName` | src/dns/filter.rs:369-449 | on success as many offsets were visited as the four counts say, and from each a chain avoiding the removed ranges was followed to its null byte |
| `PacketWalk.IntegrityReadsLayout` | src/dns/filter.rs:390-446 | for every packet with a layout, the check accepts it and visits exactly its names and fields exactly when each of those names has no pointer or ends at the low byte of its first one; and for every packet accepted, what was visited is the layout exactly when that holds of the names visited |
| `PacketWalk.CheckCanLeaveTheLayout` | src/dns/filter.rs:404-446 | packets of one record where the check reads the fields one byte late and accepts |
| `PacketWalk.CopyKeptBytes` | src/dns/filter.rs:500-551 | the copy loop halts with no bad slice for every list of ranges on a packet of at least 12 bytes |
| `PacketWalk.CopyKeepsTheRest` | src/dns/filter.rs:500-551 | for sorted disjoint ranges from byte 12 on it copies exactly the bytes outside them, in order |
| `PacketWalk.CopyLength` | src/dns/filter.rs:500-551 | for such ranges inside the packet the copy is shorter by their total length |
| `Pools.ConfigValidator.CheckRanges` | src/config/validator.rs:490-618 | stops at the first range that is ill-formed or cannot be counted, says which, and has warned about exactly those before it |
| `Pools.ConfigValidator.FindOverlap` | src/config/validator.rs:620-652 | the nested loop returns the first overlapping pair in its order |
| `Pools.ConfigValidator.ValidateDhcpPools` | src/config/validator.rs:485-655 | returns the verdict, and leaves exactly the warnings of the ranges passed before it |
| `Pools.VerdictExactly` | src/config/validator.rs:485-655 | validation panics exactly when the full IPv4 range comes before any ill-formed IPv4 range; otherwise the pools are accepted exactly when every range is of its family with start < end and the ranges of each family are pairwise disjoint |
| `Pools.ErrorsPointAtFaults` | src/config/validator.rs:499-652 | an error names the first ill-formed range, or two ranges that share an address |
| `Pools.FaultsInOrder` | src/config/validator.rs:490-652 | ill-formed ranges are reported before overlaps, and IPv4 before IPv6 in each |
| `Pools.OverlapIsFirst` | src/config/validator.rs:620-652 | the pair reported is the first in the order of the loops |
| `Pools.FullRangeIsNotAccepted` | src/config/validator.rs:510-513 | one full range: nothing is wrong with the configuration, and validation panics |
| `Pools.OverlapDecidesDisjointness` | src/config/validator.rs:620-652 | the nested loops find a pair sharing an address exactly when there is one |
| `Pools.ApartIsDisjoint` | src/config/validator.rs:620-652 | the endpoint test decides whether two ranges share an address |
| `Pools.SizeWarningExactly` | src/config/validator.rs:510-521 | counting overflows for exactly the full IPv4 range; of the others exactly those of more than 1000 addresses get a size warning, with the true size |
| `Pools.LeaseWarningExactly` | src/config/validator.rs:543-559 | a lease warning exactly below 300 or above 604800 seconds, with the number capped at 32 bits |
| `Pools.WarningsExactly` | src/config/validator.rs:490-618 | a warning is given exactly when a range passed gives cause for it |
| `Pools.WarningsInOrder` | src/config/validator.rs:490-618 | each range adds its size warning, if any, and then its lease warning, if any |
| `Pools.SizesAddUp` | src/config/validator.rs:620-652 | the sizes of accepted pools of a family add up to the size of their union |
| `Pools.PoolsFitAddressSpace` | src/config/validator.rs:485-655 | accepted IPv4 pools hold at most 2^32 addresses in all |

## Left out

- Sockets, async I/O, locks, logging: no effect on the logic modelled here.
- Overflow of usize counters and offsets, and of u64 times: integers are unbounded there. The one 32-bit sum, in DHCP validation, is checked.
- Unicode case folding: `to_lowercase` and the case-insensitive comparison are modelled on ASCII letters, the only letters an encoded host name has.
- Construction of domain names (`DomainName::new`, IDNA encoding, character checks): a name is any string without a trailing dot, as the constructors from strings leave it.
- `CacheEntry` fields `record` and `insert_time`, which no modelled operation reads, and `refresh_from_hosts`, which is a loop of inserts.
- Completeness of `find_by_addr` and the choice of `evict_expired` depend on hash order: both are nondeterministic, and the theorems on nested caches exclude them.
- `validate_compression` and `DomainName::from_wire`, further pointer walks of the same kind.
- Header-count patching in `rewrite_packet`, and `apply_filter`, whose list of records to remove is always empty.
- Option dispatch, `conf-dir` patterns and comment stripping of the configuration parser; a file is whether it parses and which includes it leaves pending.
- Includes.ConfigParser.ParseFile: the file system does not change during a run.
- Authoritative answers and zone transfers, which build messages step by step and leave subnet filtering unfinished.
- Command line, configuration structures, reload, DHCP service, ipset and nftset: plumbing or data.
