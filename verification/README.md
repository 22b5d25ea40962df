# Verification of the network engine and the server list

A Dafny 4.11 model of the parts of the repository that compute something: how the engine
looks names and addresses up, takes messages apart and hands out addresses, how it decides
where a connection goes, and how the desktop app keeps its list of servers in order.
`dafny verify dfyconfig.toml` checks all of it.

## What is modelled

* **The packed domain tree** (`Words`, `Bitmap`, `PackedBits`, `SuccinctTrie`, `Keys`,
  `TrieBuilder`, `TrieMeaning`, `Codec`, `DomainEntries`, `RuleSetFile`). In layers: bits of a
  word, rank and select over packed words, the walk by bit arithmetic, breadth-first
  numbering, membership, and the document it is stored in. `RuleSetFile.Ask` is the whole way
  from a list of entries to an answer. The hash-based `SuffixSet` of the router agrees with it.
* **Address tests** (`Addresses`, `IpSetFile`): mask, range and binary search, and the file the
  ranges are read from.
* **DNS** (`DnsMessage`, `DnsReply`, `DnsRecords`, `FakeIp`, `FakeDns`, `DnsCache`): the
  message codec of RFC 1035, the fake-IP allocator with its two maps and wrapping counter, and
  the cache.
* **Sniffing** (`ClientHello`, `QuicFrames`): names out of hellos and out of QUIC frames.
* **Connections** (`RuleMatcher`, `Router`, `RuleConfig`, `DialOrder`, `Dial`, `Framing`,
  `Sessions`, `ClashQuery`, `Utf8Text`, `ClashApi`, `ClashRequests`): the rule loop and the
  configuration its rules come from, the dial race, and the two loops that cut a stream into
  messages.
* **Dates** (`Calendar`): both copies of the days-to-date algorithm.
* **The server list** (`Servers`, `Pairing`, `SubscriptionMerge`, `MergeLaws`,
  `ServerIdentity`, `ServerOrder`, `AppState`, `IdRepair`) and **the download** (`Download`).

Objects the program changes in place are classes (`FakeIp.FakeIp`, `DnsCache.Cache`,
`Dial.Contest`, `RuleMatcher.Meta`, `AppState.State`, `DocumentCodec.Reader`,
`Framing.Stream`); loops are loops, each proved against a function that says what it computes,
and the laws are lemmas about those functions.  Growing vectors are sequences that the methods
reassign.  What has been read of an accepted rule set never changes, so it is a value with
methods.  Of a connection's `Meta` the fields that rules read are one value, `Facts`, which the
steps replace; the process, which is filled in lazily, is a field of its own.

The outside world is a parameter: the bytes a stream yields and where they are cut, the
events of a race in any order, what a server replies, the process tables, the time, random
ids.  A statement over all of these parameters is a statement over all runs.

## Results that qualify what the code promises

* `RuleSetFile.Ask`: the tree answers as the list does unless the name has a line feed right
  before a suffix entry and no shorter tail settles it; `DomainEntries.Mistold` is the exact
  class, empty for names without a line feed, and `DomainEntries.FeedIsMistold` a member of it.
* `Addresses.FoundIffUnshadowed`: the binary search is complete exactly if no range hides part
  of an earlier one; `Addresses.NestedRangesMiss` is a list where it is not.
* `DnsMessage.QueryRoundTrip`: the exact class of names a query carries whole.  The limit is 254
  bytes, not 253, since the length is compared before the dot is added.
* `IpSetFile.FileHoldsIff`: the flag by which an address set tells the families apart is also
  the top bit of an IPv6 address, so ranges that start within the first 2^32 addresses of 8000::
  end up under IPv4; `IpSetFile.MisfiledAnswers` says what is answered then.
* `RuleConfig.UnreadableFitsAll`: prefixes and query types that cannot be read are dropped, and
  a rule that states nothing else fires on everything.
* `ClashRequests.RequestRead`: a length that overflows a machine word crashes the session;
  `ClashRequests.LargestLengthCrashes` is such a request, `ClashRequests.CrashEndsSession` says
  what has been served by then.
* `ServerIdentity.FingerprintIsAlike`: a refresh takes two servers for one exactly if their fields
  agree or a bar inside a field runs on into the next; `ServerIdentity.BarCollides` are two
  different servers it takes for one.
* `ServerOrder.ReflowPermutesIff`: the exact condition under which reflowing loses nothing.
* `Download.CertainIffTold`: what came is sure to be the file exactly if its length had been
  announced.  `Download.UnknownSizeCutsShort` is a file cut short that nobody announced, and in
  `Download.SizeForgotten` the announcement is forgotten.
* `RuleSetFile.SoundFits`: the 32-bit index needs no limit on the bitmap beyond the one on the
  number of labels.

## Model

| member | source | states |
|---|---|---|
| Words.MaskTest | engine/src/ruleset.rs:145-147 | `w & (1 << k) != 0` is a test of bit `k`, for every word |
| Words.ClearLowest | engine/src/ruleset.rs:137 | `w & (w - 1)` clears the lowest set bit and no other |
| Words.CountMasked | engine/src/ruleset.rs:152-155 | counting under the mask `(1 << k) - 1` counts the bits below `k` |
| Bitmap.RankSelectInverse | engine/src/ruleset.rs:149-171 | on every bitmap, counting ones below a place and finding the i-th one undo each other, both ways |
| PackedBits.BuildIndex | engine/src/ruleset.rs:125-140 | the index holds the true rank at every word, and the true place of every 32nd one, without truncation to 32 bits as long as the places fit |
| SuccinctTrie.DomainSet.CountZeros | engine/src/ruleset.rs:150-156 | the number of zero bits below `i`, for every `i`, past the end too |
| SuccinctTrie.DomainSet.SelectOne | engine/src/ruleset.rs:159-171 | the place of the i-th one if there is one, and `None` exactly otherwise |
| SuccinctTrie.DomainSet.FollowEdge | engine/src/ruleset.rs:185-201 | on any accepted set an edge has a label and leads to a later node whose block lies in the bitmap: no index goes out of range, no subtraction below zero |
| SuccinctTrie.DomainSet.ScanBlock | engine/src/ruleset.rs:181-199 | the inner loop finds the first edge that settles the byte, and ends |
| SuccinctTrie.DomainSet.ScanMarks | engine/src/ruleset.rs:206-215 | the closing loop finds out whether a prefix or suffix marker leaves the node, and ends |
| SuccinctTrie.DomainSet.Follow | engine/src/ruleset.rs:200-201 | the child behind an edge and the beginning of its block; never `None` |
| SuccinctTrie.DomainSet.Lookup | engine/src/ruleset.rs:178-216 | on any accepted set, built by nobody in particular, the lookup ends with the answer of the walk for every name; every `?` is dead |
| SuccinctTrie.DomainSet.Matches | engine/src/ruleset.rs:174-176 | the same answer, as a truth value |
| Keys.SortDedup | engine/src/ruleset.rs:393-394 | strictly ascending keys, the same set |
| TrieBuilder.SetBit | engine/src/ruleset.rs:396-401 | sets one bit, growing the vector; every other bit stays |
| TrieBuilder.AddEdges | engine/src/ruleset.rs:411-421 | one edge per next byte of the keys in the range, each leading to exactly the keys with that byte |
| TrieBuilder.LayNode | engine/src/ruleset.rs:406-424 | one round of the queue lays the block of one node and keeps the tree right |
| TrieBuilder.BuildSet | engine/src/ruleset.rs:392-425 | the nodes are exactly the prefixes of the keys, each once, in breadth-first order; blocks, labels and leaf bits are theirs |
| RuleSetFile.NodeCount | engine/src/ruleset.rs:402-425 | the tree has one node per distinct prefix of a key |
| TrieMeaning.Edge | engine/src/ruleset.rs:185-201 | place `d` of the block of node `p` is its d-th edge or its end, and leads to the child the builder gave it |
| TrieMeaning.NodeScan | engine/src/ruleset.rs:181-199 | what a block does to a byte, told by the keys alone: accept at a marker, descend, or reject |
| TrieMeaning.WalkMember | engine/src/ruleset.rs:178-216 | walking from the node for what has been read answers membership of the reversed name among the keys, if no line feed of the name is met where a suffix marker is stored |
| TrieMeaning.WalkToSnag | engine/src/ruleset.rs:190-199 | if one is met, the answer is yes on a hit before it or if the name ends with it, and no otherwise |
| DomainEntries.FeedSettles | engine/src/ruleset.rs:178-216 | past a line feed in front of a suffix entry nothing is listed, so the list and the walk can part only there |
| DomainEntries.FeedIsMistold | engine/src/ruleset.rs:195-199 | a concrete name, a line feed and a suffix entry, which the tree takes for the entry though the list does not cover it |
| DomainEntries.MarkedKeys | engine/src/ruleset.rs:451-460 | exact entries are stored reversed as they are, suffix entries with a line feed and prefix entries with a carriage return in front |
| DomainEntries.MemberIsListed | engine/src/ruleset.rs:451-460 | membership of the reversed, marked keys means: an exact entry, a suffix entry or one of its subdomains, or a prefix entry the name ends with |
| DocumentCodec.UvarintRoundTrip | engine/src/ruleset.rs:38-48 | reading a variable-length number gives back the number written, for all 64-bit numbers, and leaves what follows |
| DocumentCodec.UvarintIs | engine/src/ruleset.rs:38-48 | seven bits a byte, the lowest first; every byte but the last has its high bit set |
| DocumentCodec.UvarintRefused | engine/src/ruleset.rs:38-48 | a number that does not end, or not within ten bytes, is refused |
| DocumentCodec.Reader.ReadUvarint | engine/src/ruleset.rs:38-48 | the reader takes exactly the bytes of the number, or fails; ten bytes at most |
| DocumentCodec.Reader.ReadLen | engine/src/ruleset.rs:53-59 | a length above 2^28 is refused |
| DocumentCodec.Reader.ReadU64s | engine/src/ruleset.rs:73-82 | a vector of words, or failure at a short input |
| DocumentCodec.DocumentRoundTrip | engine/src/ruleset.rs:426-444 | a written document decodes to the same arrays exactly if no length is over the limit |
| DocumentCodec.SmallDocument | engine/src/ruleset.rs:426-444 | the bytes of a small document: version, leaves, bitmap and labels, each behind its length, words with the first byte weighing most |
| RuleSetFile.SumOnes | engine/src/ruleset.rs:108 | the number of ones in the bitmap |
| RuleSetFile.LastOne | engine/src/ruleset.rs:109-115 | the place of the last one, or -1 exactly if there is none |
| RuleSetFile.Read | engine/src/ruleset.rs:100-142 | a document is accepted exactly if it decodes and its ones, zeros and labels fit together; what is returned is its arrays with a correct index |
| RuleSetFile.SoundFits | engine/src/ruleset.rs:116-141 | an accepted document is small enough for the 32-bit index: no precondition on the size of the bitmap is needed |
| RuleSetFile.Write | engine/src/ruleset.rs:426-444 | the bytes of the document |
| RuleSetFile.DomainSetOf | engine/src/ruleset.rs:451-460 | build, write and read back: this succeeds exactly if the keys have at most 2^28 non-empty prefixes, and for every name the set answers as the list of entries does, except exactly for the names `Mistold` |
| RuleSetFile.Ask | engine/src/ruleset.rs:178-216 | from entries to answer, through the document: for every name of any bytes the answer is what the entries say, except exactly for the names `Mistold`, which have a line feed in front of a suffix entry |
| SuffixSet.SuffixSet.Matches | engine/src/router.rs:117-128 | the hash probes hit exactly the names that are a suffix or a subdomain of one |
| SuffixSet.NewSuffixSet | engine/src/router.rs:113-115 | leading dots go and letters become small, for every entry |
| SuffixSet.NormalisedIs | engine/src/router.rs:113-115 | all dots in front go and nothing but dots; the rest is in lower case |
| SuffixSet.SuffixSetAgreesWithTrie | engine/src/router.rs:109-129 | the hash set and the packed tree of the same suffixes give the same answer for every name but a line feed followed by a listed suffix, which only the tree accepts |
| Addresses.CidrIsInterval | engine/src/router.rs:49-82 | the mask test holds exactly on the aligned block around the given address, in its own family; the block has 2^(width-bits) addresses, the whole width without a length or with too large a one |
| Addresses.PartitionPoint | engine/src/ruleset.rs:272-279 | the binary search finds the partition point of sorted ranges |
| Addresses.IpSet.Contains | engine/src/ruleset.rs:269-282 | the range before the partition point decides |
| IpSetFile.ReadIpSet | engine/src/ruleset.rs:227-267 | reads version, count and addresses, and fails exactly where the file does not say what it should; the pairs of bounds are filed by family and sorted |
| Addresses.SetHolds | engine/src/ruleset.rs:255-266 | the set is sorted and holds the range of every pair under its family, truncated to 32 bits for IPv4, and no other |
| IpSetFile.IpSetRoundTrip | engine/src/ruleset.rs:227-267 | a written address set is read back as it was, exactly if it has at most 2^28 ranges |
| IpSetFile.SmallSet | engine/src/ruleset.rs:227-250 | the bytes of a small set: version, count and the addresses behind their lengths |
| IpSetFile.OthersRefused | engine/src/ruleset.rs:228-250 | another version, or an address that is not of 4 or 16 bytes, is refused |
| IpSetFile.FileHoldsIff | engine/src/ruleset.rs:254-263 | the set read back holds the prefixes that were written, each under its family, exactly if none starts within the first 2^32 addresses of 8000:: |
| IpSetFile.MisfiledAnswers | engine/src/ruleset.rs:254-263 | every single address of that block, written as a set, is not found, and an IPv4 address is instead |
| IpSetFile.AskPrefixes | engine/src/ruleset.rs:227-282 | from prefixes through the file to an answer: no address outside the prefixes is found, and every one inside is unless a range hides it |
| Addresses.FiledByFamily | engine/src/ruleset.rs:259-263 | the flag test files a pair as IPv4 exactly if it starts as one, or as an IPv6 address in the flagged block |
| Addresses.FoundIsInSome | engine/src/ruleset.rs:269-282 | an address outside all ranges is never accepted |
| Addresses.FoundIffUnshadowed | engine/src/ruleset.rs:269-282 | the search agrees with the ranges on every address exactly if no range hides part of an earlier one |
| Addresses.NestedRangesMiss | engine/src/ruleset.rs:269-282 | a range inside another hides the rest of it: a concrete miss |
| Addresses.CidrListAgreesWithRanges | engine/src/router.rs:75-82 | for a list of prefixes of both families, the search over their ranges accepts the same addresses as the mask tests, exactly if no range hides part of an earlier one |
| ClientHello.SniInHello | engine/src/sniff.rs:28-48 | the name in a hello, by the layout of the message; `None` for every malformed one |
| ClientHello.HelloRead | engine/src/sniff.rs:28-48 | on every well-formed hello, whatever its session id, ciphers and compression, the first server_name extension decides |
| ClientHello.AnnouncedNameFound | engine/src/sniff.rs:28-48 | the announced name is found, in lower case, behind any other extensions, exactly if all its characters are letters, digits, dots, hyphens or underscores and there is one; section 3 of RFC 6066 |
| ClientHello.ServerNameCut | engine/src/sniff.rs:28-48 | an extension cut anywhere before its name ends has none |
| QuicFrames.QuicVarint | engine/src/dns.rs:26-35 | a variable-length integer and its size; `None` exactly if it is cut short |
| QuicFrames.NumberRoundTrip | engine/src/dns.rs:26-35 | every encoding of a number, in each of the four sizes, is read back; section 16 of RFC 9000 |
| QuicFrames.SniInCrypto | engine/src/sniff.rs:172-224 | reassembly by offset, with the stops and limits of the loop, and the name in what was collected |
| QuicFrames.AckRead | engine/src/sniff.rs:176-199 | an ACK frame of at most 256 ranges is passed over whole; section 19.3 of RFC 9000 |
| QuicFrames.CryptoRead | engine/src/sniff.rs:200-217 | a CRYPTO frame yields its offset and data; section 19.6 of RFC 9000 |
| QuicFrames.ReassemblyKeepsName | engine/src/sniff.rs:172-224 | however a hello of at most 64 KiB is cut into CRYPTO frames, in any order, with overlaps that agree and PADDING, PING and ACK between, the name is that of the uncut hello |
| QuicFrames.HelloInFrames | engine/src/sniff.rs:172-224 | from the frames of a client to the name: if they carry a handshake message of type 1 with a valid hello, of at most 64 KiB, the answer is the name of the first server_name extension |
| QuicFrames.AnnouncedInFrames | engine/src/sniff.rs:172-224 | the same for a host name announced behind any other extensions |
| QuicFrames.OtherInFrames | engine/src/sniff.rs:220-223 | frames that carry anything else, by its first byte, or nothing beyond it, give no name |
| QuicFrames.TooFarInFrames | engine/src/sniff.rs:206-210 | a frame that reaches beyond 64 KiB ends it without a name, whatever came before |
| DnsMessage.ParseQuestion | engine/src/dns.rs:43-64 | the name in lower case, the type and the end of the question; `None` for every malformed packet; section 4.1 of RFC 1035 |
| DnsMessage.EncodeQuery | engine/src/dns.rs:150-163 | the bytes of the query, told by `QueryIs` |
| DnsMessage.QueryIs | engine/src/dns.rs:150-163 | id, a query that wants recursion, one question and no records; the labels of the name without trailing dots, each cut at 63 bytes; type, and class IN |
| DnsMessage.LongLabelRefused | engine/src/dns.rs:43-64 | a length of 64 or more, a pointer for one, is refused behind any labels |
| DnsMessage.LabelsTaken | engine/src/dns.rs:43-64 | a reader of labels on the wire gets those before the first empty one |
| DnsMessage.FitsIs | engine/src/dns.rs:53-55 | the length test comes down to a name of at most 254 bytes, as the dot is not counted |
| DnsMessage.JoinedSplit | engine/src/dns.rs:155 | splitting a name at its dots and joining the labels gives the name back, in lower case |
| DnsMessage.QueryRoundTrip | engine/src/dns.rs:150-163 | reading an encoded query gives back the name in lower case, the type and the whole length exactly for names of at most 254 bytes with labels of 1 to 63 bytes |
| DnsMessage.TrimmedRoundTrip | engine/src/dns.rs:154 | trailing dots make no difference: what is read is the name without them, exactly if that is such a name |
| DnsReply.EmptyReply | engine/src/dns.rs:67-75 | the front of the query turned around, told by `EmptyTurnsAround` |
| DnsReply.EmptyTurnsAround | engine/src/dns.rs:67-75 | id, number of questions and question stay; a response, with recursion and the code given, and no records |
| DnsReply.AnswerWithIp | engine/src/dns.rs:77-101 | the same with one address record that points at the question |
| DnsReply.AnswerTurnsAround | engine/src/dns.rs:77-101 | the same with one answer: a pointer to the question, type, class IN, life, length and address, byte by byte |
| DnsReply.SkipName | engine/src/dns.rs:104-115 | behind a name, compressed or not |
| DnsReply.ParseAnswers | engine/src/dns.rs:118-148 | all records of a message are read, in order, and their addresses and least life returned; what they are is told by `DnsRecords.MessageRead` |
| DnsRecords.NameSkipped | engine/src/dns.rs:104-115 | behind labels of any number and the zero byte or the pointer that ends them |
| DnsRecords.MessageRead | engine/src/dns.rs:118-148 | for a message written with any questions and any records, names whole or compressed: the addresses are exactly those of the IPv4 and IPv6 records, in order, as often as they come, and the life is the least of theirs and of no other |
| DnsRecords.AliasIsNoAddress | engine/src/dns.rs:134-144 | an alias in front of an address, of 16 bytes or any other number, is no address and its life does not count |
| DnsRecords.CutMessageFails | engine/src/dns.rs:118-148 | a message cut anywhere before the end of its last record is refused |
| DnsReply.AnswerRoundTrip | engine/src/dns.rs:77-148 | for every complete one-question query that is accepted, the made-up answer yields exactly the address and its life, under the same id and question |
| DnsReply.EmptyRoundTrip | engine/src/dns.rs:67-75 | a refusal or empty answer yields no address, under the same id and question, with its code |
| DnsReply.TtlMeansAddress | engine/src/dns.rs:430-431 | a life below `u32::MAX` means there is an address, and the life is the least of all |
| FakeIp.FakeIp.constructor | engine/src/dns.rs:191-206 | 2^(32 - bits) addresses with the bits taken between 8 and 30, a size that divides 2^32; the counter at 2, and empty maps |
| FakeIp.FakeIp.IndexFor | engine/src/dns.rs:208-220 | the name is behind the index afterwards, both maps say who owns what in the history of names, and a new name gets the next number modulo the size, from 2 on |
| FakeIp.FakeIp.Allocate | engine/src/dns.rs:222-229 | an address of the family asked for, inside its range, that stands for the name; for a new name the base and the next number modulo the size |
| FakeIp.FakeIp.Lookup | engine/src/dns.rs:231-249 | the name the address stands for; `None` exactly if it stands for none |
| FakeIp.FakeIp.MapsAreInverse | engine/src/dns.rs:179-188 | in every reachable state the two maps undo each other and hold at most `v4_size` names |
| FakeIp.WrapHarmless | engine/src/dns.rs:213 | the wrap of the 32-bit counter does not disturb the index, as the size divides 2^32 |
| FakeIp.OwnerUnique | engine/src/dns.rs:208-220 | an index stands for one name at a time |
| FakeIp.IndexUnique | engine/src/dns.rs:208-220 | a live name has one index |
| FakeIp.IndexHoldsForSizeArrivals | engine/src/dns.rs:208-220 | in every run a name keeps its index until exactly `v4_size` more new names have arrived, and then another has it |
| FakeDns.Respond | engine/src/dns.rs:374-409 | every complete A or AAAA question to the fake range gets exactly one address, of its family, that stands for the name; other types and AAAA under ipv4_only get none; each under the query's id and question, with code 0, and 1 for what is no question |
| FakeDns.AskThenConnect | engine/src/dns.rs:374-417 | the address in the reply leads back to the name that was asked for |
| DnsCache.KeptReply | engine/src/dns.rs:430-442 | a reply that is kept says NOERROR and has an address; it is kept between ten seconds and an hour, and no longer than its shortest address lives, or ten seconds |
| DnsCache.LifeIs | engine/src/dns.rs:429-442 | a reply is kept exactly if it says NOERROR and its least life is not `u32::MAX`; for that many seconds, between ten and 3600 |
| DnsCache.Cache.Find | engine/src/dns.rs:420-427 | a hit is an earlier reply for that very name and type, within its clamped life, the same but for the id, which is the caller's |
| DnsCache.Cache.Store | engine/src/dns.rs:429-443 | what the cache holds afterwards, and at most 4096 entries, each still from the history |
| DnsCache.RoomedKeeps | engine/src/dns.rs:433-439 | making room leaves less than 4096 entries; what is still good stays unless the cache is full of it |
| DnsCache.Cache.ExchangeCached | engine/src/dns.rs:419-445 | every reply is what upstream said now, or such a hit; failures are passed on and change nothing |
| Calendar.CivilValid | engine/src/log.rs:54-64 | every day number, negative ones too, is a valid date of the proleptic Gregorian calendar |
| Calendar.CivilSuccessor | engine/src/log.rs:54-64 | the next day number is the next day of the calendar |
| Calendar.CivilIncreasing | engine/src/log.rs:54-64 | the dates are strictly increasing, so no two days share one |
| Calendar.Epoch | engine/src/log.rs:54-64 | day zero is 1 January 1970 |
| Calendar.StampDate | engine/src/tracker.rs:56-69 | the second copy of the algorithm gives the same date for every time |
| Calendar.StampTime | engine/src/tracker.rs:67-68 | hour, minute and second are in range and make up the rest of the day |
| DialOrder.Interleave | engine/src/common.rs:293-304 | the two stacks are popped in turn |
| DialOrder.InterleavedPermutes | engine/src/common.rs:293-304 | a permutation that keeps the order within each family |
| DialOrder.InterleavedAlternates | engine/src/common.rs:293-304 | families alternate while both last, beginning with that of the first address |
| Dial.Contest.StartNext | engine/src/common.rs:261-264 | the next address starts if there is one |
| Dial.Contest.OnFinish | engine/src/common.rs:271-281 | a success ends the race; a refusal starts exactly the next address, if there is one; a panic starts none |
| Dial.Contest.OnTick | engine/src/common.rs:282-286 | the delay starts exactly the next address, if there is one |
| Dial.Contest.Restart | engine/src/common.rs:260-267 | with nobody dialled the next address starts, or the race is lost |
| Dial.NextIsStep | engine/src/common.rs:259-288 | what one event does to the dials, by its kind |
| Dial.ExactlyPrompt | engine/src/common.rs:259-288 | from any point of a race there are exactly as many further dials as reasons for one, up to the number of addresses: a delay that ran out, a refusal, a panic that left nobody dialled |
| Dial.Race | engine/src/common.rs:252-290 | in every course of events, told state by state: the first four addresses start in order, each at most once, the first at once; a delay and a refusal start the next one, a panic does so only if it leaves nobody, a success starts none and ends the race; the race is lost only after all of them failed, with the error that came last; and there are as many dials as reasons for one |
| RuleMatcher.Meta.FindProcess | engine/src/router.rs:37-46 | the process is looked up at most once, and only for a known source; what rules see does not depend on when |
| RuleMatcher.PrivateIs | engine/src/router.rs:84-105 | exactly the addresses of the private, local, multicast, carrier and benchmark blocks, each written out by its bounds, in both families |
| RuleMatcher.WordOccurs | engine/src/router.rs:231 | a keyword hits exactly if it stands somewhere in the name |
| RuleMatcher.HeadlessRule.Matches | engine/src/ruleset.rs:333-354 | hits if the name is in the tree, holds a keyword anywhere or is accepted by an expression, or the address is found in the ranges; turned round by `invert`; unsupported rules never apply |
| RuleMatcher.RuleSet.Matches | engine/src/ruleset.rs:382-384 | some rule of the set applies |
| RuleMatcher.Matcher.AnyAddress | engine/src/router.rs:228-243 | the address conditions are alternatives |
| RuleMatcher.Matcher.Matches | engine/src/router.rs:196-256 | all kinds of conditions hold and the rule is not broken; the process is looked up only if everything else fits |
| Router.Router.Next | engine/src/router.rs:319-327 | the first rule from `from` on that fires, or the final outbound |
| Router.SniffStream | engine/src/engine.rs:80-94 | what was recognised gives the protocol, and the name if none was known; what was read is kept; nothing else changes, and nothing at all if nothing was recognised |
| Router.ResolveStep | engine/src/engine.rs:114-123 | rules see the address of a destination given by name; the destination stays the name, and nothing else changes |
| Router.TargetKept | engine/src/engine.rs:111-123 | whatever the rules find out, in every run, the connection goes where it wanted to go, and a name known beforehand stays known |
| RuleConfig.FindSets | engine/src/router.rs:164-173 | the sets that are there, in the order of their tags; broken exactly if some tag has none |
| RuleConfig.QueryTypeIs | engine/src/router.rs:148-159 | the names of query types in any letter case, and numbers below 2^16 with or without a plus sign, and nothing else |
| RuleConfig.ActionIs | engine/src/router.rs:305-311 | which words name which action; anything else routes to the outbound |
| RuleConfig.FiresAsWritten | engine/src/router.rs:161-256 | a rule of the configuration fires exactly if no set it names is missing and every kind of condition it states, and that can be read, holds |
| RuleConfig.NewRules | engine/src/router.rs:299-313 | the rules of the router are those of the configuration, in order |
| RuleConfig.MissingSetNeverActs | engine/src/router.rs:144-145 | a rule that names a missing set never decides and never enriches: in every run any other such rule in its place gives the same verdict |
| RuleConfig.UnreadableFitsAll | engine/src/router.rs:185-190 | a rule that states only prefixes and query types that cannot be read fires on everything |
| Router.Router.HandleTcp | engine/src/engine.rs:126-156 | the loop that resumes from an index gives the verdict of one pass from left to right; the rules that fire are strictly increasing, none of them broken, and there are at most rules + 1 rounds |
| Router.Router.OpenUdp | engine/src/engine.rs:274-291 | the first packet gives the protocol, and the name if none was known; then the same as for TCP, order of the rules and rounds included, with no sniffing after |
| Router.FixedModeVerdict | engine/src/engine.rs:131-156 | with one mode throughout the verdict is that of the first rule that decides and fires in its state; without one it is the final outbound.  The states are told by what the rules before have found out: the first sniff the protocol, the prefix and a name not known before, resolving the address of a destination that is a name |
| Router.EnrichedBehind | engine/src/engine.rs:131-156 | behind a rule that fires and does not decide, the rest of the run is one from exactly the state its step leaves |
| Router.SniffedNameRoutes | engine/src/engine.rs:80-156 | a sniff rule and a rule on the name it finds: the connection takes the outbound of the second, with the bytes read as prefix |
| Framing.Stream.Fill | engine/src/engine.rs:190-203 | reading on until there are enough bytes loses and reorders nothing |
| Framing.NextQuery | engine/src/engine.rs:189-206 | the next query, whole, and what was read beyond it |
| Framing.DnsOverTcp | engine/src/engine.rs:187-214 | the resolver gets exactly the framed queries of prefix and stream; fewer only if a reply could not be written |
| Framing.CutsDoNotMatter | engine/src/engine.rs:187-214 | the same bytes cut elsewhere, or split otherwise between sniffed prefix and stream, give the same queries |
| Framing.FramesRoundTrip | engine/src/engine.rs:187-210 | framed messages come out as they went in, and nothing of a last one that is cut short anywhere |
| ClashQuery.PercentDecode | engine/src/api.rs:45-76 | percent numbers and plus signs are decoded; a percent sign no number follows stays |
| ClashQuery.DecodedNumber | engine/src/api.rs:51-57 | a percent sign and two hexadecimal digits, of either letter case, are the byte of that number |
| ClashQuery.DecodedOther | engine/src/api.rs:58-71 | a percent sign no number follows is itself, a plus sign is a blank, and any other byte is itself |
| ClashQuery.PercentRoundTrip | engine/src/api.rs:45-76 | what is written byte by byte as percent numbers comes back |
| ClashQuery.QueryRoundTrip | engine/src/api.rs:104-109 | a query made of pairs gives back their map, in which the last value of a key counts |
| ClashApi.Parse | engine/src/api.rs:78-121 | a whole request with its settings and query, or not yet; a length over the machine word is told apart |
| ClashApi.ParseStable | engine/src/api.rs:78-121 | what has been read of a request is not changed by the bytes that follow it |
| ClashApi.ParseNeeds | engine/src/api.rs:102-105 | a request is read from as many bytes as it takes |
| Utf8Text.Utf8Is | engine/src/api.rs:80 | a head is text exactly if it encodes Unicode scalar values; section 3 of RFC 3629 |
| ClashRequests.TrimIs | engine/src/api.rs:90 | trimming takes away exactly the blanks at both ends |
| ClashRequests.NumberIs | engine/src/api.rs:92 | a number is digits, at least one, behind a plus sign if any, of a value that fits a machine word |
| Sessions.Drain | engine/src/api.rs:126-144 | all whole requests in the buffer are taken, in order, up to one that closes |
| Sessions.Serve | engine/src/api.rs:123-159 | the requests are those of the whole stream if none is longer than MAX_REQUEST, and a beginning of them otherwise; a session that crashes has served what came before the request that crashes it |
| Sessions.SessionCutsDoNotMatter | engine/src/api.rs:123-159 | the same bytes cut elsewhere hold the same requests |
| ClashApi.Session | engine/src/api.rs:123-159 | the same for the requests `parse` reads |
| ClashRequests.RequestRead | engine/src/api.rs:78-121 | a request with any headers is read back once the bytes it announces have come: authorized exactly if the secret is empty or the last Authorization header is "Bearer " and the secret, blanks aside; kept alive exactly if the last Connection header is not "close", or without one if the version is not HTTP/1.0; names in any letter case; as long as the last Content-Length says. It crashes the session exactly if head and length are more than a machine word counts |
| ClashRequests.BuildIs | engine/src/api.rs:104-109 | the path is the target up to a question mark, the query what is behind it |
| ClashRequests.AsksRead | engine/src/api.rs:123-159 | a stream of such requests holds exactly them, and then those of what follows |
| ClashRequests.CloseEndsSession | engine/src/api.rs:123-145 | a request that wants the connection closed is the last one answered |
| ClashRequests.CrashEndsSession | engine/src/api.rs:99-118 | with such a length, everything asked before has been answered and nothing behind it is |
| ClashRequests.LargestLengthCrashes | engine/src/api.rs:99-118 | a concrete request that does it |
| SubscriptionMerge.Merge | spike-slint/src/api.rs:1915-1954 | the result told by places: the r-th old node of a fingerprint becomes, where it stands and under its own id, the r-th incoming one; the others go; incoming nodes left over follow |
| MergeLaws.ForeignUntouched | spike-slint/src/api.rs:1932-1937 | manual servers and those of other subscriptions stay, unchanged and in order |
| MergeLaws.EachIncomingOnce | spike-slint/src/api.rs:1923-1953 | every incoming node is in the list exactly once, as the provider describes it |
| MergeLaws.OldIdsSurvive | spike-slint/src/api.rs:1939-1949 | of each fingerprint min(old, new) ids survive, in their old order, each used at most once |
| ServerIdentity.FingerprintIsAlike | spike-slint/src/model.rs:366-386 | two servers share a fingerprint exactly if they agree in protocol, address, port, credential and path, or the text of one field runs on over a bar into the next; the credential is the private key for AmneziaWG, user and password for Masque, and the uuid or else the password otherwise |
| ServerIdentity.PlainAlike | spike-slint/src/model.rs:366-386 | with no bars in address and credential, and no colons in Masque users, they are the same exactly if the fields are |
| ServerIdentity.BarCollides | spike-slint/src/model.rs:378-385 | two different servers, one with a bar in its address and one in its uuid, that are taken for one |
| ServerIdentity.IdsStayOnServers | spike-slint/src/api.rs:1915-1954 | after a refresh the kept nodes stand first, in their old order; each keeps its id, on the incoming server like it with as many alike before it; the new ones follow in the order they came in; of every server min(old, new) stay |
| ServerIdentity.PlainIdsStay | spike-slint/src/api.rs:1932-1948 | with such fields an id stays on the very same server |
| MergeLaws.IdsStayUnique | spike-slint/src/api.rs:1915-1954 | if no two nodes share an id before, none do after |
| ServerOrder.Reflow | spike-slint/src/api.rs:1975-1990 | the sections of the order, then the user's own |
| ServerOrder.ReflowStable | spike-slint/src/api.rs:1975-1990 | every section keeps its servers in their order |
| ServerOrder.ReflowSorts | spike-slint/src/api.rs:1975-1990 | told by the subscriptions of the servers: they are sorted by its place in the order, those of none that is known last, and those of each keep their order |
| ServerOrder.ReflowIdempotent | spike-slint/src/api.rs:1975-1990 | reflowing twice is reflowing once |
| ServerOrder.ReflowPermutesIff | spike-slint/src/api.rs:1975-1990 | nothing is lost or doubled, for every list, exactly if the ids are distinct and none is empty |
| ServerOrder.ShownIsReflowed | spike-slint/src/view.rs:333-391 | what `render_groups` shows, read top to bottom, is the reflowed list |
| ServerOrder.ShownUnderHeadings | spike-slint/src/view.rs:333-391 | every group shows exactly the servers of the subscription it is headed by, in order; the others come last without a heading, if there are any |
| ServerOrder.ShownAsListed | spike-slint/src/view.rs:333-391 | a reflowed list is shown in its own order |
| AppState.MovedIs | spike-slint/src/api.rs:1962-1964 | the element stands at its new place, the others as they stood to one another |
| AppState.ClampIsNearest | spike-slint/src/api.rs:1958 | the place nearest to the one asked for |
| AppState.State.MoveSubOrder | spike-slint/src/api.rs:1956-1965 | the subscription moves to the clamped place; unknown or already there, nothing changes |
| AppState.MoveIn | spike-slint/src/api.rs:2021-2043 | only the places of the group change hands, and within the group the node moves to the clamped rank |
| AppState.GroupMovedPermutes | spike-slint/src/api.rs:2017-2044 | such a move is a permutation, and none at all if the node stands there already |
| AppState.State.MoveWithinGroup | spike-slint/src/api.rs:2017-2044 | the first node with the id moves; an unknown id changes nothing |
| AppState.State.PinActive | spike-slint/src/api.rs:1968-1972 | the pinned server stays pinned if it is there; else the first one becomes it; and so the server in use stays in use |
| AppState.ReflowKeepsIds | spike-slint/src/api.rs:1975-1990 | whatever the sections, no server's id is lost and none appears |
| AppState.State.ReorderSub | spike-slint/src/api.rs:1993-2014 | after a section has moved the list is again what is shown, and the server in use is the same |
| AppState.State.ReorderNode | spike-slint/src/api.rs:2047-2060 | after a server has moved the list is a permutation, and the server in use is the same |
| AppState.State.RefreshSubscription | spike-slint/src/api.rs:2290-2295 | the list is the merge of the old list and the fetched nodes |
| IdRepair.Repair | spike-slint/src/state.rs:229-235 | rows that are not the first of their id get the random ids in turn; nothing else changes |
| IdRepair.RepairIs | spike-slint/src/state.rs:223-241 | afterwards all ids differ, the first row of every id has kept it, and a list that was in order is untouched |
| AppState.State.RepairIds | spike-slint/src/state.rs:223-241 | the same for the stored list, and whether it has to be saved |
| Download.Attempt | spike-slint/src/api.rs:3034-3072 | one attempt keeps what is right, resumes behind it or starts over, and ends only if nothing is known to be missing |
| Download.Fetch | spike-slint/src/api.rs:3012-3080 | against an honest server that may stop anywhere, the buffer is a beginning of the file after every chunk of every attempt, and a success with a known size is the whole file |
| Download.DownloadTakes | spike-slint/src/api.rs:3012-3080 | told by the answers: each is one to the request for what is behind the bytes of those since the last beginning; the first that ends without an error and leaves nothing missing of the size announced last settles the download, with those bytes; it fails exactly if none of six does |
| Download.RunIsSound | spike-slint/src/api.rs:3022-3075 | the same for the download from any attempt on |
| Download.WholeAnswerSuffices | spike-slint/src/api.rs:3067-3071 | an attempt that brings all that is missing ends the download with the whole file |
| Download.UnknownSizeCutsShort | spike-slint/src/api.rs:3068-3070 | an honest server that gives no size and stops early without an error is believed |
| Download.CertainIffTold | spike-slint/src/api.rs:3012-3080 | a download that succeeded is sure to have brought the file, whichever file the answers met were honest about, exactly if one of them had announced as many bytes as came |
| Download.SizeForgotten | spike-slint/src/api.rs:3049-3052 | an honest server whose first answer gave the size and more bytes: a later one from the beginning without a size is believed although it brings fewer |

## Left out

- RuleSetFile.Ask: entries must be made of bytes above the two markers, as the format requires; names may hold any bytes. At least one entry is needed: the builder takes the first key for granted.
- RuleSetFile.DomainSetOf: the number of tree nodes must be below 2^63, so that counting them does not overflow.
- DnsMessage.ParseQuestion: names are bytes; `from_utf8_lossy` changes only labels that are not UTF-8, and that is not modelled. The same goes for host names in the other parsers.
- DnsReply.AnswerRoundTrip: is about queries that hold their whole question and say so in the header; for others the reply is still computed by the same function.
- FakeIp.FakeIp.constructor: ranges that run past the end of the address space are excluded, and the text of the ranges is not parsed.
- FakeIp.FakeIp.IndexFor: each call is one step; the two locks are not modelled.
- DnsCache.Cache.ExchangeCached: the time before, at eviction and at insertion are parameters in no particular order; the exchange with the server itself, its timeouts and its pool of connections are one parameter.
- Calendar.CivilValid: day numbers are unbounded; the 64-bit overflow near the ends of `i64` is not modelled.
- Calendar.StampDate: the text of the time stamp, with its padding, is not modelled.
- Addresses.CidrIsInterval: starts from a parsed address and prefix length.
- QuicFrames.SniInCrypto: starts from the decrypted payload; header protection, keys and AEAD are foreign.
- Dial.Race: a dial is an event; sockets, the 250 ms of the delay and the text of errors are not modelled.
- RuleMatcher.HeadlessRule.Matches: a regular expression is the set of names it accepts, and item kinds that only make a rule unsupported are that flag.
- RuleConfig.FiresAsWritten: JSON and the text of prefixes are read by libraries; a rule holds what they read, or that they could not.
- RuleConfig.NewRules: the final outbound is a parameter; that an empty one stands for "direct" is not modelled.
- Router.Router.HandleTcp: ends with the verdict; dialling, fake-IP reversal of the target and the relay are left out, and what sniffing recognises in the first bytes is a parameter.
- ClashApi.Parse: decoded text is bytes, of which `from_utf8_lossy` changes only what is not UTF-8; blanks are the ASCII ones.
- ClashApi.Session: replies are not modelled, so neither are failures to write them; a request is what is answered.
- SubscriptionMerge.Merge: a node has the fields that make up its fingerprint, its id, its subscription and one more for all the settings nothing here looks at.
- AppState.State.RepairIds: the random ids are a parameter, all different and not in use.
- AppState.State.ReorderSub: saving to disk and telling the interface are left out; a place is an unbounded integer.
- Download.Fetch: pauses, timeouts and the progress callback are left out; an answer is a status, a size and chunks.
- `DnsRules.evaluate` and the choice of an upstream: the same matcher over another list of actions.
- `Target` codecs (SOCKS, VLESS), HTTP and TLS record sniffing, `percent_decode`: one-branch facts.
- The tracker's counters, the balancer, outbounds, TUN and NAT: mostly I/O.
- Links, JSON and Base64 of the app, its tray, windows and updater: presentation or foreign libraries.
- Concurrency beyond the dial race and the cache: locks are taken one at a time and the steps under them are the methods here.
