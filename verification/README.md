# A verified model of a V2Ray fork's core logic

This project models the parts of a Go proxy core (a V2Ray fork) that are hard to get right by reading them, and proves
what they are for. Each module follows one source file, or states what several of them achieve together. Where the
source changes fields in place, the model is a class whose methods are proved against a specification function; what the
source promises is then proved about that function.

* **String matching.** `AhoCorasickTheory` and `AcAutomaton` build the automaton in place by a breadth-first queue and
  prove that matching a text is following the longest suffix of it that is a trie path. `MphMatcher` is the two-level
  perfect hash with its seed search and its rollback, `MphExact` says for which rule sets it agrees with the
  one-pattern matchers of `Matchers`, and `MphGroup` says of the patterns as a caller gives them which names the
  built group finds. `Labels`, `DomainMatcher` and `MatcherGroup` do the same for the label trie.
* **CIDR index.** `CidrSearch` is the condition under which a binary search over block bases, in whatever order, finds
  what a linear scan finds. `GeoIp` proves the shift arithmetic of `normalize4`, `normalize6` and `less6`, `GeoIpMatcher`
  is the matcher, `GeoIpExact` puts these together, and `GeoIpExamples` holds small lists that go wrong.
* **Buffers.** `Buffer` and `BufferList` are the in-memory buffers and buffer lists, `MultiBuffer` what their operations
  do to contents, `Reader` and `BufferedWriter` the buffered ends.
* **Mux.** `Address`, `Frame` and `Chunk` are the wire formats, `SessionManager`, `MuxWriter`, `MuxServer` and
  `MuxClient` the two ends of a link, `MuxDelivery` and `MuxEndToEnd` the result: every session output receives exactly
  its own bytes, in order, under every interleaving of the writers and every fragmentation of the link. `Dispatch` has
  concurrent callers of one worker at the granularity of its critical sections.
* **Authenticated stream.** `Nonce`, `AuthWriter` and `AuthReader`: sealed chunks with padding, written and read back;
  `AuthPackets` is packet mode.
* **Small indexes.** `Lru` is the cache, `RecencyList` its list as a value and `LruRuns` what whole runs of calls evict;
  `ReplayFilter` and `Dns`.

Some properties one would expect are false of the code. For each there is an input that shows it and a theorem that
says exactly when the code is right:

* Build does not fold marks along fail links, so a keyword inside a longer keyword's prefix can be missed:
  `ShadowedKeywordIsMissed`; exactly when not: `KeywordMatchExact`.
* A rule that starts with a dot makes the perfect hash match more than the rule, and an empty group matches `empty___`:
  `TableCounterexamples`; `TableExact`.
* The binary search misses an address of a block that a nested block precedes, and host bits can break the order of the
  arrays it searches: `NestedBlockIsMissed`, `HostBitsUnsort`; `MatchExact`.
* A prefix longer than the address is accepted and acts as another one: `Hit4Acts` and `Hit6Acts` say as which;
  `HitTest4Exact`, `HitTest6Exact`.
* An empty rule in the middle of a DNS server's rules takes a pattern that is not its own: `EmptyRuleTakesPattern`;
  `NamesBlocksExactly`.
* A packet dropped by `seal` still draws a padding, and the reader, which draws in step with the chunks, misreads what
  follows: `DroppedPacketIsMisread`; `DroppedPacketBreaksStep`.
* Compact loses bytes when a merge does not fit behind a buffer that was read from, and panics on an empty one:
  `CompactLosesAndPanics`; `CompactConserves`, `CompactPanics`.
* The limits of a mux worker on allocations and on live sessions only hold while the 16-bit session counter cannot come
  round; beyond, both theorems build the run that exceeds them: `AllocationBoundExact`, `LiveBoundExact`.
* A replay filter whose clock reads 0 or goes back can accept a sum twice: `ZeroClockAcceptsTwice`,
  `BackwardClockAcceptsTwice`; `NoReplayExact`.
* Storing a value under a second key, or another value under a stored key, spoils the value map of the LRU cache:
  `SpoilByKey`, `SpoilByValue`; the last clause of `Lru.Lru.Put`.

`dafny verify dfyconfig.toml` checks everything.

## Model

| member | source | states |
|---|---|---|
| `AhoCorasickTheory.LongestSuffixStep` | common/strmatcher/ac_automaton_matcher.go:221-243 | following one more byte from the longest suffix of the text on the trie gives the longest suffix of the longer text: the automaton never needs to look back |
| `AhoCorasickTheory.LongestSuffixIsLongest` | common/strmatcher/ac_automaton_matcher.go:192-219 | the word the automaton stands at is a suffix of the text and no trie path that is a suffix is longer |
| `AhoCorasickTheory.KeywordMatchExact` | common/strmatcher/ac_automaton_matcher.go:221-243 | for keyword patterns, Match answers exactly whether some pattern occurs, on all texts, if and only if no pattern is shadowed by marks that Build does not fold (`Unshadowed`, a finite check on the patterns) |
| `AhoCorasickTheory.MatchIsSound` | common/strmatcher/ac_automaton_matcher.go:221-243 | without any condition, a true answer means that some keyword occurs in the text |
| `AhoCorasickTheory.NoKeywordInsideAnother` | common/strmatcher/ac_automaton_matcher.go:192-219 | patterns none of which is empty or occurs inside another are unshadowed |
| `AhoCorasickTheory.ShadowedKeywordIsMissed` | common/strmatcher/ac_automaton_matcher.go:192-219 | a family of pattern pairs and texts where a keyword occurs and Match says no |
| `AhoCorasickTheory.KeywordTrieAdd` | common/strmatcher/ac_automaton_matcher.go:135-190 | adding keywords one after the other keeps exactly the trie of the patterns added |
| `AhoCorasickTheory.OccursIsContains` | common/strmatcher/ac_automaton_matcher.go:42-106 | a pattern occurs in the automaton's reading of a text exactly when it stands in the text up to bytes that read alike; over letters, digits and the 17 signs that is strings.Contains of the two in lower case |
| `AhoCorasickTheory.IndexFoldsCase` | common/strmatcher/ac_automaton_matcher.go:42-106 | for any two bytes below 127: one index exactly when they are one letter in either case, the same digit or sign, or both like "a", which is how every byte not listed reads; 40 is the dot's index |
| `AcAutomaton.ACAutomaton.constructor` | common/strmatcher/ac_automaton_matcher.go:124-133 | one unmarked root, not built |
| `AcAutomaton.ACAutomaton.Descend` | common/strmatcher/ac_automaton_matcher.go:135-190 | the edge to the child on a symbol is created if missing; no other path gains or loses its mark |
| `AcAutomaton.ACAutomaton.Walk` | common/strmatcher/ac_automaton_matcher.go:135-190 | after the loop every prefix of the pattern's reading is a path, other marks are kept, and the node reached is that reading's |
| `AcAutomaton.ACAutomaton.Add` | common/strmatcher/ac_automaton_matcher.go:135-190 | the abstract trie gains the pattern's reading and, for a domain, the reading with a dot; the row, fail and mark arrays stay consistent with it |
| `AcAutomaton.ACAutomaton.Build` | common/strmatcher/ac_automaton_matcher.go:192-219 | ends for every trie, with every missing edge leading to the longest suffix that is a path and every fail link to the longest proper suffix; no mark changes |
| `AcAutomaton.ACAutomaton.Expand` | common/strmatcher/ac_automaton_matcher.go:192-219 | one queue entry: its row becomes complete, its children get the right fail links and are appended to the queue in order |
| `AcAutomaton.FailIsFinished` | common/strmatcher/ac_automaton_matcher.go:192-219 | when a node leaves the queue, the row its fail link points to is already complete |
| `AcAutomaton.UnfinishedIsDeep` | common/strmatcher/ac_automaton_matcher.go:192-219 | every unfinished node is at least as deep as the queue's head, so the queue runs empty only when all are done |
| `AcAutomaton.NextFrontier` | common/strmatcher/ac_automaton_matcher.go:192-219 | the queue stays the breadth-first frontier without repetition: each node is enqueued once |
| `AcAutomaton.ACAutomaton.Match` | common/strmatcher/ac_automaton_matcher.go:221-243 | the walk over the completed rows answers what the abstract trie defines: after some byte, the longest suffix on the trie is marked as a keyword, or as a domain rule that the text has followed from its end |
| `MphMatcher.RollingHash` | common/strmatcher/mph_matcher.go:15-25 | the loop from the last byte to the first computes the recursive hash whose step extends a suffix by one byte in front |
| `MphMatcher.RollingIsPolynomial` | common/strmatcher/mph_matcher.go:15-25 | that hash is the polynomial with byte i multiplied i times by 16777619, modulo 2^32 |
| `MphMatcher.RollingDotted` | common/strmatcher/mph_matcher.go:39-49 | "." in front of a pattern is one hash step, so the dotted key is stored under its own hash |
| `MphMatcher.NextPow2IsPower` | common/strmatcher/mph_matcher.go:151-159 | nextPow2 is the power of two above its argument and at most twice it, and 1 up to 1 |
| `MphMatcher.MaskIsModulo` | common/strmatcher/mph_matcher.go:161-168 | masking with a power of two less one is the remainder |
| `MphMatcher.TrySeed` | common/strmatcher/mph_matcher.go:117-149 | a seed is taken exactly when it sends the bucket to distinct free slots; a failed seed leaves the marks as they were, and a slot of a finished bucket is never touched |
| `MphMatcher.Rollback` | common/strmatcher/mph_matcher.go:117-149 | clearing the slots a failed attempt took restores the marks from before it |
| `MphMatcher.SearchSeed` | common/strmatcher/mph_matcher.go:117-149 | the search returns exactly when some 32-bit seed fits the bucket, and then every key of the bucket is found in its slot |
| `MphMatcher.FillBuckets` | common/strmatcher/mph_matcher.go:92-116 | each rule is numbered once and listed once, in the bucket of its own hash |
| `MphMatcher.PlaceBuckets` | common/strmatcher/mph_matcher.go:117-149 | on success every rule is found through both levels; otherwise a bucket was met that no seed places beside buckets at least as large |
| `MphMatcher.BuildTable` | common/strmatcher/mph_matcher.go:92-149 | the finished tables have the sizes nextPow2 gives, find every key, and every slot names a rule; failure is a real dead end for these keys |
| `MphMatcher.MphMatcherGroup.AddFullOrDomainPattern` | common/strmatcher/mph_matcher.go:39-49 | the rule map keeps each key of the rules under the key's own hash |
| `MphMatcher.MphMatcherGroup.AddKeyword` | common/strmatcher/mph_matcher.go:66-90 | the automaton stays the keyword trie of all keywords added |
| `MphMatcher.MphMatcherGroup.AddPattern` | common/strmatcher/mph_matcher.go:66-90 | the pattern joins the set of its kind, full and domain rules in lower case (`LowerCaseFolds`), keywords as they are; only a regular expression that does not compile is refused |
| `MphMatcher.MphMatcherGroup.BuildRules` | common/strmatcher/mph_matcher.go:92-149 | tables for the keys of all rules, or for the sentinel when there are none |
| `MphMatcher.MphMatcherGroup.Build` | common/strmatcher/mph_matcher.go:92-149 | a group that may be asked, or a proof that the search would not end |
| `MphMatcher.MphMatcherGroup.Lookup` | common/strmatcher/mph_matcher.go:161-168 | for any hash function, true exactly for stored keys when given the key's rolling hash, never true otherwise, and no index out of range |
| `MphMatcher.MphMatcherGroup.Match` | common/strmatcher/mph_matcher.go:170-198 | non-empty exactly when the name or a suffix from a dot on is a stored key, the keyword automaton matches, or another matcher does; the answer is [1] or the id of the first other matcher that accepts |
| `MphExact.TableExact` | common/strmatcher/mph_matcher.go:39-49 | the suffix lookup agrees with the one-pattern full and domain matchers on every name if and only if there is a rule and every rule with a leading dot ends in "." and a domain rule |
| `MphExact.TableCounterexamples` | common/strmatcher/mph_matcher.go:92-116 | an empty group finds the name "empty___" and no other, and the full rule ".com" finds "a.com"; no rule accepts either |
| `MphExact.MatchAll` | common/strmatcher/mph_matcher.go:170-198 | for a group that meets both conditions, Match finds something exactly when some added rule, keyword or other matcher accepts the name on its own |
| `MphGroup.BuildAndMatch` | common/strmatcher/mph_matcher.go:66-198 | on the patterns as the caller gives them: after adding all and Build, Match finds a name exactly when some pattern accepts it, a full rule the name equal to it up to case, a domain rule also every name that ends in "." and it up to case, a keyword every text it stands in, read alike, a regular expression what it accepts, if rules with a leading dot are covered and no end of a keyword hides a keyword |
| `MphGroup.AcceptedByPattern` | common/strmatcher/matchers.go:10-36 | some pattern accepts a name on its own exactly when the lower-case rule sets, the keyword readings or the compiled expressions do, for any patterns and names |
| `MphGroup.CoveredByPattern` | common/strmatcher/mph_matcher.go:66-90 | the condition on the dotted patterns as given is the one on the stored rules |
| `MphGroup.UnshadowedByPattern` | common/strmatcher/mph_matcher.go:66-90 | patterns of which every end that contains a keyword also ends in one leave an unshadowed automaton |
| `Matchers.DomainMatchCases` | common/strmatcher/matchers.go:30-36 | a domain rule accepts its own name and the names that end in "." and it, and nothing else |
| `Matchers.LowerCaseFolds` | common/strmatcher/mph_matcher.go:73-75 | lower case holds no capital, leaves text without capitals alone, and makes two texts one exactly when they are equal up to the case of letters |
| `Labels.PathIsReversedSplit` | common/strmatcher/domain_matcher.go:5-41 | the path Add walks is breakDomain's labels from the last to the first |
| `Labels.DomainMatchIsPrefix` | common/strmatcher/domain_matcher.go:47-98 | a domain rule accepts a name exactly when its label path starts the name's |
| `Labels.PathInjective` | common/strmatcher/domain_matcher.go:5-41 | different names have different paths |
| `DomainMatcher.DomainMatcherGroup.Add` | common/strmatcher/domain_matcher.go:20-41 | the trie holds one more rule, behind those already at its node |
| `DomainMatcher.DomainMatcherGroup.Walk` | common/strmatcher/domain_matcher.go:47-98 | the backward scan for dots collects the values of every rule on the name's path, shallow to deep |
| `DomainMatcher.DomainMatcherGroup.Match` | common/strmatcher/domain_matcher.go:47-98 | the values of all rules on the name's path, deepest node first, insertion order within a node |
| `MatcherGroup.GroupMatchExact` | common/strmatcher/strmatcher.go:93-106 | Match returns the id of every accepting matcher once and nothing else, if and only if the name is non-empty or no empty domain rule was added |
| `MatcherGroup.MatchIdOnce` | common/strmatcher/strmatcher.go:93-106 | how often any id comes back, for every name: once if its matcher is reported, else never |
| `MatcherGroup.MatchIdsOrder` | common/strmatcher/strmatcher.go:93-106 | in the answer, full matchers come before domain matchers and these before all others, full and others by insertion, domains longer names first |
| `MatcherGroup.DomainPartOrder` | common/strmatcher/domain_matcher.go:47-98 | among domain ids, a longer pattern comes before a shorter one, equal ones in insertion order |
| `MatcherGroup.FullMatcherGroup.Add` | common/strmatcher/full_matcher.go:7-13 | the map holds one more rule, behind those of the same name |
| `MatcherGroup.FullMatcherGroup.Match` | common/strmatcher/full_matcher.go:19-25 | the values of exactly the rules of this name, in insertion order |
| `MatcherGroup.MatcherGroup.Add` | common/strmatcher/strmatcher.go:73-91 | each matcher goes to one part under the next 32-bit id |
| `MatcherGroup.MatcherGroup.Match` | common/strmatcher/strmatcher.go:93-106 | the three parts together return what the list of added matchers defines |
| `CidrSearch.SearchExact` | app/router/condition_geoip.go:92-155 | on any arrays, sorted or not, the binary search finds what the linear scan finds, for every address, if and only if no base lies below the first and, wherever the search can end, no block reaches further among the addresses that end there than the blocks tested on the way (`Unshadowed`) |
| `CidrSearch.CoveredExact` | app/router/condition_geoip.go:92-155 | the same from any state of the loop on, by induction over the search tree: the condition on the blocks against the answers on all addresses that come there |
| `CidrSearch.FloorIsQuotient` | app/router/condition_geoip.go:27-39 | clearing the n lowest bits is rounding down to a multiple of 2^n |
| `CidrSearch.DisjointIsUnshadowed` | app/router/condition_geoip.go:92-121 | blocks in order that are pairwise disjoint or identical meet that condition |
| `GeoIp.Normalize4IsFloor` | app/router/condition_geoip.go:27-29 | shifting right and left is rounding down to a multiple of 2^(32 - prefix), for every prefix up to 32 |
| `GeoIp.Normalize6IsFloor` | app/router/condition_geoip.go:31-39 | the two-word shifts round the 128-bit number down to a multiple of 2^(128 - prefix), for every prefix up to 128 |
| `GeoIp.Less6IsNumeric` | app/router/condition_geoip.go:123-125 | comparing the words is comparing the 128-bit numbers |
| `GeoIp.FloorIsBlock` | app/router/condition_geoip.go:92-121 | for a base without host bits, an address rounds down to it exactly when it lies in the block |
| `GeoIpMatcher.LexIsNumeric` | app/router/config.go:22-46 | byte order of addresses of one length is the order of their numbers |
| `GeoIpMatcher.LessLoop` | app/router/config.go:22-46 | the byte loop decides the order by length, bytes and prefix |
| `GeoIpMatcher.LessIsStrictOrder` | app/router/config.go:22-46 | Less is irreflexive, asymmetric, transitive, and any two different entries compare |
| `GeoIpMatcher.SortListInOrder` | app/router/condition_geoip.go:41-86 | the sorted list is in order |
| `GeoIpMatcher.SortListPermutes` | app/router/condition_geoip.go:41-86 | the sorted list has the same entries as often |
| `GeoIpMatcher.OrderedListsEqual` | app/router/condition_geoip.go:41-86 | any sort by Less gives this one list |
| `GeoIpMatcher.GeoIPMatcher.Init` | app/router/condition_geoip.go:41-86 | fails exactly on an address of a wrong length; otherwise files every entry under its length, normalised, in sorted order |
| `GeoIpMatcher.GeoIPMatcher.FileOne` | app/router/condition_geoip.go:41-86 | the arrays stay parallel and hold the entries so far |
| `GeoIpMatcher.GeoIPMatcher.Match4` | app/router/condition_geoip.go:92-121 | the in-place loop is the search over the two Boolean lists "base above the address" and "address rounds to base"; no index leaves the arrays |
| `GeoIpMatcher.GeoIPMatcher.Match6` | app/router/condition_geoip.go:127-155 | the same for two-word addresses |
| `GeoIpMatcher.GeoIPMatcher.Match` | app/router/condition_geoip.go:158-180 | chosen by address length and reversed where asked; other lengths match nothing, reversed or not |
| `GeoIpExact.MatchExact` | app/router/condition_geoip.go:41-180 | for every list of entries Init accepts, with host bits or overlong prefixes too, Match equals the linear scan on every IPv4 and IPv6 address if and only if no block of either length is shadowed in the arrays Init leaves |
| `GeoIpExact.AnswersExactlyIffClear` | app/router/condition_geoip.go:92-155 | the same for one address length |
| `GeoIpExact.DisjointBlocksMatch` | app/router/condition_geoip.go:41-180 | for pairwise disjoint or identical blocks, host bits or not, Match is the linear scan |
| `GeoIpExact.MatchIsSound` | app/router/condition_geoip.go:41-180 | for any entries at all, a true answer means that some entry covers the address |
| `GeoIpExact.HitTest4Exact` | app/router/condition_geoip.go:27-29 | the test of an IPv4 entry is its prefix on every address if and only if the prefix is at most 32, which Init does not check |
| `GeoIpExact.HitTest6Exact` | app/router/condition_geoip.go:31-39 | the same for IPv6 and 128 |
| `GeoIpExact.FittingScan` | app/router/condition_geoip.go:92-180 | where every prefix fits its address, the scan these theorems speak of is the plain prefix scan |
| `GeoIpExact.Hit4Acts` | app/router/condition_geoip.go:27-29 | what the test of any entry is: the prefix modulo 256 where that is at most 32, and otherwise prefix 0, every address |
| `GeoIpExact.Hit6Acts` | app/router/condition_geoip.go:31-39 | the same for IPv6: a prefix modulo 256 over 128 acts as 64, since only the low word is cleared |
| `GeoIpExact.InitAndMatch` | app/router/condition_geoip.go:185-205 | a new matcher, Init and Match: refused exactly for a wrong address length, and answering by the scan wherever nothing is shadowed |
| `GeoIpExamples.OuterBlockIsMissed` | app/router/condition_geoip.go:92-121 | of any two nested IPv4 blocks, addresses of the outer one behind the inner one are missed |
| `GeoIpExamples.NestedBlockIsMissed` | app/router/condition_geoip.go:92-121 | 0.0.0.0/25 with 0.0.0.16/28: the scan finds 0.0.0.32 and Match does not |
| `GeoIpExamples.HostBitsUnsort` | app/router/condition_geoip.go:61-83 | 0.0.0.20/32 with 0.0.0.30/24: normalising after sorting puts base 0 behind base 20, and 0.0.0.5 is missed |
| `Address.TablesAgree` | common/protocol/address.go:56-86 | after any options with distinct bytes and families the two tables are inverse to each other |
| `Address.ReadsBackAddress` | common/protocol/address.go:178-263 | what writeAddress wrote is read back, using exactly its bytes, if and only if the address survives the wire (`Portable`): IPv4, IPv6 not beginning with ten zeros, 255, 255 (section 2.5.5.2 of RFC 4291), or a name of 1 to 255 letters, digits, - . and _ that is not taken for an IP address |
| `Address.ReadsBackAddressPort` | common/protocol/address.go:89-146 | the same with the port on either side |
| `Address.ReadsBackOtherwise` | common/protocol/address.go:178-230 | what comes back of addresses that do not survive: an IPv4-mapped address as the IPv4 address in it, a name that is an IP address as that address, and any other name with a byte outside letters, digits and -._ not at all |
| `Address.EmptyDomainIsRejected` | common/protocol/address.go:178-230 | a zero-length domain is never accepted, because the text then read is the whole buffer |
| `Frame.MuxParserTables` | common/mux/frame.go:37-42 | the mux tables agree for all three families |
| `Frame.BodyFits` | common/mux/frame.go:64-90 | encoded metadata is at most 265 bytes, within the limit of 512 |
| `Frame.WriteTo` | common/mux/frame.go:64-90 | the buffer grows by exactly the frame: two length bytes filled in afterwards, then fields and target; an address that cannot be written is the only error |
| `Frame.FrameBytes` | common/mux/frame.go:30-90 | every frame that encodes, byte by byte: length, id, status and option, and behind status 1 the network (1 or 2), the port and the address under its type (1 IPv4, 2 domain, 3 IPv6); it fails to encode exactly for a domain of more than 256 bytes |
| `Frame.OptionBits` | common/mux/frame.go:25-28 | the data option is bit 1 and the error option bit 2 of the option byte |
| `Frame.UnmarshalBytes` | common/mux/frame.go:93-124 | reading any bytes with a status other than 1: at most 512 bytes of metadata are accepted, at least 4 are needed, and id, option and status stand at their places |
| `Frame.UnmarshalFrom` | common/mux/frame.go:93-146 | two full reads over any fragmentation consume and return what decoding the plain bytes does, errors included |
| `Frame.FrameRoundTrip` | common/mux/frame.go:64-146 | decoding an encoded frame followed by anything gives the frame (target only for New) and leaves exactly what follows, if and only if the frame can travel: a New frame has a TCP or UDP target with a portable address |
| `Buffer.Buffer.Extend` | common/buf/buffer.go:83-91 | contents grow by the n reserved bytes, or nothing changes when they do not fit |
| `Buffer.Buffer.Write` | common/buf/buffer.go:162-166 | appends as much as fits and says how much; no byte before the end changes |
| `Buffer.Buffer.WriteByte` | common/buf/buffer.go:169-176 | appends one byte or reports a full buffer, which then is unchanged |
| `Buffer.Buffer.Read` | common/buf/buffer.go:184-195 | old contents are what was handed over and what is left; EOF exactly on an empty buffer |
| `Buffer.Buffer.Resize` | common/buf/buffer.go:121-133 | contents become the given part, negative positions counting from the end |
| `Buffer.Buffer.Advance` | common/buf/buffer.go:136-141 | contents lose the given prefix |
| `Buffer.Buffer.Clear` | common/buf/buffer.go:61 | nothing is left and the whole array is free again |
| `Buffer.Buffer.PutUint16` | common/mux/frame.go:64-90 | two reserved bytes are overwritten, all others kept |
| `MultiBuffer.SplitBytesConserves` | common/buf/multi_buffer.go:120-144 | what is taken and what is left make up the list; as many bytes as asked for or all; no empty buffer is left in front |
| `MultiBuffer.SplitSizeConserves` | common/buf/multi_buffer.go:197-229 | the same for a split into buffers, never over the size, and always some progress |
| `MultiBuffer.SplitSizeTakesMost` | common/buf/multi_buffer.go:197-229 | whole buffers are taken while they fit, and one more would not; only a first buffer that is too large is cut |
| `MultiBuffer.MergeBytesConserves` | common/buf/multi_buffer.go:46-62 | the bytes are appended in order and no buffer overflows |
| `MultiBuffer.CompactConserves` | common/buf/multi_buffer.go:159-181 | no byte is gained, and the contents are kept if and only if every merge fits behind the contents it is appended to |
| `MultiBuffer.CompactPanics` | common/buf/multi_buffer.go:159-181 | panics exactly when a buffer after the first is empty |
| `MultiBuffer.CompactLosesAndPanics` | common/buf/multi_buffer.go:159-181 | one byte at the very end of its array takes nothing of the next buffer, whose byte is lost; an empty buffer behind another panics |
| `MultiBuffer.UnreadIsRoomy` | common/buf/multi_buffer.go:159-181 | buffers nobody has read from always have room |
| `BufferList.SplitBytes` | common/buf/multi_buffer.go:120-144 | the loop over in-memory buffers leaves a suffix of the list and does to contents what the value form does |
| `BufferList.SplitSize` | common/buf/multi_buffer.go:197-229 | the same; the buffers are the list's own or one fresh buffer cut from the first |
| `BufferList.MergeBytes` | common/buf/multi_buffer.go:46-62 | in-memory contents grow by exactly the source bytes |
| `BufferList.Compact` | common/buf/multi_buffer.go:159-181 | the in-place merging gives the value form's list, or panics where that does |
| `BufferedWriter.BufferedWriter.Write` | common/buf/writer.go:93-127 | sink and buffer together are everything written; the sink gets whole buffers of 2048 bytes only, the rest waits, and unbuffered nothing stays behind |
| `BufferedWriter.BufferedWriter.WriteMultiBuffer` | common/buf/writer.go:130-161 | the same for a buffer list, which the loop always uses up |
| `BufferedWriter.BufferedWriter.FlushInternal` | common/buf/writer.go:171-186 | everything written is in the sink, the buffer is gone |
| `BufferedWriter.BufferedWriter.Flush` | common/buf/writer.go:164-169 | everything written is in the sink |
| `BufferedWriter.BufferedWriter.SetBuffered` | common/buf/writer.go:189-198 | switching buffering off flushes; nothing is lost or repeated |
| `Reader.BufferedReader.Read` | common/buf/reader.go:64-90 | hands over a prefix of what remains; EOF only at the end |
| `Reader.BufferedReader.ReadFull` | common/buf/buffer.go:205-217 | succeeds exactly when enough bytes remain, over any fragmentation, and consumes exactly those; else it consumes everything |
| `Reader.BufferedReader.ReadAtMost` | common/buf/reader.go:105-121 | a prefix of at most the given size, order kept |
| `Reader.BufferedReader.ReadMultiBuffer` | common/buf/reader.go:93-102 | a prefix of what remains; the end only at the end |
| `Chunk.ChunkStreamReader.ReadMultiBuffer` | common/crypto/chunk.go:95-126 | whatever the fragmentation, one call hands over the next part of what draining the remaining bytes means |
| `Chunk.ChunkStreamReader.Copy` | common/buf/copy.go:83-102 | copying returns exactly the drained data and leaves exactly the rest |
| `Chunk.DrainInParts` | common/crypto/chunk.go:95-126 | handing a chunk over in pieces is handing it over at once |
| `Chunk.WriteMultiBuffer` | common/crypto/chunk.go:140-160 | the writer's loop emits one chunk per slice of at most 8192 bytes, and an empty chunk for an empty write |
| `Chunk.ChunkRoundTrip` | common/crypto/chunk.go:95-160 | a reader undoes the writer for all sequences of buffer lists, up to the first empty write, whose chunk ends the stream and leaves what follows untouched |
| `Chunk.StreamPayloadIsChunk` | common/mux/reader.go:51-53 | a one-chunk reader takes the two size bytes and the data and leaves the next frame aligned |
| `Chunk.PacketPayloadIsChunk` | common/mux/reader.go:27-48 | a packet reader does so if and only if the packet fits a buffer |
| `Chunk.PacketReader.ReadMultiBuffer` | common/mux/reader.go:27-48 | one whole packet or an error; after one packet it reports the end |
| `Chunk.PacketReader.Copy` | common/mux/reader.go:27-48 | copying returns that packet and leaves exactly the rest |
| `SessionManager.SessionManager.Allocate` | common/mux/session.go:47-62 | refused exactly when closed; else the id is the next 16-bit count and its entry replaced |
| `SessionManager.SessionManager.Add` | common/mux/session.go:64-74 | adds under the given id and counts, or nothing when closed |
| `SessionManager.SessionManager.Remove` | common/mux/session.go:76-89 | exactly this id is gone; a closed table stays empty |
| `SessionManager.SessionManager.Get` | common/mux/session.go:91-101 | the stored session or none |
| `SessionManager.SessionManager.CloseIfNoSession` | common/mux/session.go:103-117 | closes only an empty table, so closed always implies empty |
| `SessionManager.SessionManager.Close` | common/mux/session.go:119-137 | closes the table and ends exactly the sessions in it |
| `MuxWriter.Writer.constructor` | common/mux/writer.go:23-40 | a writer that has yet to send New, or one for responses that never does |
| `MuxWriter.Writer.Send` | common/mux/writer.go:58-85 | the link grows by one whole encoded message or not at all |
| `MuxWriter.Writer.WriteMultiBuffer` | common/mux/writer.go:95-119 | the loop puts on the link exactly the frames the write stands for and ends in their state, error or not |
| `MuxWriter.Writer.Close` | common/mux/writer.go:122-137 | one End frame, with the error option exactly after an error |
| `MuxWriter.MessageBytes` | common/mux/writer.go:58-85 | one write on the link, byte by byte: the frame, and with data its size in two bytes and the data |
| `MuxWriter.LinkExample` | common/mux/writer.go:58-137 | a New frame to TCP port 443 of a domain with data, and an End frame after an error, as the very bytes on the link |
| `MuxWriter.StreamSlices` | common/mux/writer.go:95-119 | a stream write is cut into slices of at most 8192 bytes, each of as many buffers as that allows, which together are the write |
| `MuxWriter.PacketSlices` | common/mux/writer.go:95-119 | a packet write is cut buffer by buffer |
| `MuxWriter.ChunksAreSlices` | common/crypto/chunk.go:140-160 | the chunk stream writer cuts a write at the same places |
| `MuxServer.ServerWorker.HandleStatusKeepAlive` | common/mux/server.go:113-118 | only the data of the frame is consumed |
| `MuxServer.ServerWorker.HandleStatusNew` | common/mux/server.go:121-166 | the state and the bytes consumed are those of the frame-by-frame specification, accepted or refused |
| `MuxServer.ServerWorker.HandleStatusKeep` | common/mux/server.go:168-200 | data goes to the session of the id; an unknown id is answered and its data discarded |
| `MuxServer.ServerWorker.HandleStatusEnd` | common/mux/server.go:202-215 | the session ends as the frame says and leaves the table |
| `MuxServer.ServerWorker.Handle` | common/mux/server.go:217-243 | one frame over any fragmentation is one step of the specification |
| `MuxServer.HandleByStatus` | common/mux/server.go:113-243 | by the number of the status: 1 opens an output for an accepted target and ends the worker for any other, 2 adds data to a known session and reports an unknown one, 3 forgets the session and ends its output, 4 changes no session, every other number ends the worker |
| `MuxServer.ServerWorker.Run` | common/mux/server.go:245-267 | the worker runs all frames of its input and then ends exactly the sessions that were still open |
| `MuxServer.StepKeepsValid` | common/mux/server.go:121-243 | table entries always name open outputs that were opened under the same id |
| `MuxServer.FrameConsumes` | common/mux/server.go:245-267 | every frame that does not end the loop consumes input |
| `MuxDelivery.FrameIsApply` | common/mux/server.go:121-243 | on the wire form of a well-formed message the worker consumes exactly its bytes and does what the message means |
| `MuxDelivery.PlayIsRun` | common/mux/server.go:245-267 | on any schedule of frames and closing outputs, parsing the link bytes is applying the messages in order, and what follows stays untouched |
| `MuxDelivery.Isolation` | common/mux/server.go:121-243 | what one id sees of a run is decided by the actions of that id alone |
| `MuxEndToEnd.MessagesAreClients` | common/mux/writer.go:95-137 | a writer's frames are New (1) first, then Keep (2), then one End (3) when closed, with option 1 for data and 2 after an error; together they carry exactly the bytes written |
| `MuxEndToEnd.RunClient` | common/mux/client.go:261-288 | running the writer over all writes of a client and closing it puts exactly these frames on the link |
| `MuxEndToEnd.MuxDelivers` | common/mux/server.go:121-243 | for any writers with distinct ids, any interleaving of their frames and of closing outputs on one link, and any fragmentation: each session has one output that received exactly the bytes of its delivered frames in order, nothing after End |
| `MuxEndToEnd.AllDelivered` | common/mux/writer.go:95-137 | once all of a writer's frames arrived, its output holds exactly what was written and was closed as the writer was |
| `MuxClient.FetchOne` | common/mux/client.go:327-426 | one frame on the client side over any fragmentation; New only has its data discarded |
| `MuxClient.FetchByStatus` | common/mux/client.go:389-426 | by the number of the status: 1 and 4 leave the sessions alone, 2 adds data to a known session, 3 forgets it, and every other number ends the loop |
| `MuxClient.FetchOutput` | common/mux/client.go:389-426 | the loop runs all frames up to the end of the input |
| `MuxClient.FetchDelivers` | common/mux/client.go:327-426 | a live session receives exactly the bytes of its response frames, in order, whatever other sessions receive and whatever closing notices follow its End |
| `MuxClient.ResponsesDeliver` | common/mux/client.go:344-387 | the same for the actions one session sees, with how it ends |
| `Dispatch.TableIsBounded` | common/mux/client.go:290-325 | with k interleaved callers the session table never holds more than MaxConcurrency + k - 1 entries, and a closed table is empty, in every reachable state |
| `Dispatch.LiveIsBounded` | common/mux/client.go:290-325 | sessions not yet closed, whatever the table remembers of them, never exceed MaxConcurrency + k - 1 while allocations stay below 65536 |
| `Dispatch.LiveBoundExact` | common/mux/client.go:290-325 | that bound holds on all interleavings if and only if MaxConnection is set and MaxConnection + k - 1 is below 65536; otherwise ids come round again while the sessions that had them go on, and live sessions go beyond any number |
| `Dispatch.AllocationsAreBounded` | common/mux/client.go:290-325 | allocations never exceed MaxConnection + k - 1 and all ids differ, while that bound is below 65536 |
| `Dispatch.AllocationBoundExact` | common/mux/client.go:290-325 | the allocation bound holds on all interleavings if and only if MaxConnection + k - 1 is below 65536 |
| `Dispatch.ClientWorker.IsClosing` | common/mux/client.go:290-296 | true exactly when the count has reached a set limit |
| `Dispatch.ClientWorker.IsFull` | common/mux/client.go:298-308 | full exactly when the checks of a step of the interleaved model refuse |
| `Dispatch.ClientWorker.Dispatch` | common/mux/client.go:310-325 | undisturbed, one call is admitted exactly when the checks pass and the table is open, and then is the run of its five critical sections |
| `Dispatch.ClientWorker.HandleEnd` | common/mux/client.go:375-387 | an End frame closes the session the table has under the id, and is that event of the interleaved model |
| `Dispatch.ClientWorker.FinishInput` | common/mux/client.go:261-288 | a returning fetchInput closes its session, and with it the table's entry for its id, whichever session that names by now |
| `Dispatch.ClientWorker.Tick` | common/mux/client.go:227-245 | a tick closes an empty table and ends the worker, and changes nothing otherwise |
| `Dispatch.ClientWorker.CloseTable` | common/mux/client.go:227-245 | once done, the table is closed and exactly the sessions in it end; a closed table stays as it is |
| `Nonce.IncrementAddsOne` | common/crypto/auth.go:32-43 | the carry loop adds one to the little-endian number, modulo 256^n |
| `Nonce.KthNonce` | common/crypto/auth.go:32-43 | the k-th nonce is N0 + k modulo 256^n |
| `Nonce.NoncesAgree` | common/crypto/auth.go:32-43 | two calls return the same nonce exactly when they are a multiple of 256^n apart |
| `Nonce.IncreasingNonce.Next` | common/crypto/auth.go:32-43 | the array is incremented in place and handed out |
| `AuthWriter.PlainParserOk` | common/crypto/chunk.go:28-41 | every size below 65536 is read back from its two bytes |
| `AuthWriter.AeadParserOk` | common/crypto/chunk.go:43-64 | the sealed size field is read back for every size, overhead subtracted and added modulo 2^16 |
| `AuthWriter.AeadParserSeals` | common/crypto/chunk.go:43-64 | the k-th size field seals the size less the overhead modulo 2^16, high byte first, under the nonce k + 1 steps behind the first |
| `AuthWriter.ChunkLayout` | common/crypto/auth.go:248-274 | the i-th chunk, byte by byte: a size field that decodes to the length of the rest, the payload sealed under the nonce i + 1 steps behind the first, and the padding drawn |
| `AuthWriter.PayloadsCover` | common/crypto/auth.go:276-313 | the payloads of a write are non-empty, all but the last exactly as long as allowed, and together its bytes |
| `AuthWriter.AuthenticationWriter.Seal` | common/crypto/auth.go:248-274 | one chunk of the stream or, exactly when it would overflow a buffer, an error that uses a padding but no nonce |
| `AuthWriter.AuthenticationWriter.WriteStream` | common/crypto/auth.go:276-313 | the sink grows by the sealed chunks of the write, cut at 2048 bytes less overhead, size field and maximal padding, however it is split into buffers; no chunk overflows, and nonces and paddings stay in step |
| `AuthWriter.AuthenticationWriter.WritePacket` | common/crypto/auth.go:315-342 | one chunk per packet that fits, in order |
| `AuthWriter.AuthenticationWriter.WriteMultiBuffer` | common/crypto/auth.go:345-358 | a write without content is the empty chunk that ends the stream; others go by mode |
| `AuthWriter.FittingPacketsAreStream` | common/crypto/auth.go:315-342 | packets that each fit beside the padding drawn for them produce one chunk each, in order and in step |
| `AuthWriter.DroppedPacketBreaksStep` | common/crypto/auth.go:248-342 | all packets are sealed, and with padding the two generators stay in step, if and only if every packet fits beside the padding drawn for it |
| `AuthReader.AuthenticationReader.ReadSize` | common/crypto/auth.go:117-131 | whether stored by a soft read or decoded now, the size and padding are those of the next chunk; the end only after the last one |
| `AuthReader.AuthenticationReader.ReadInternal` | common/crypto/auth.go:151-202 | in each state of hasSize, soft and done: the next payload opened, or a soft stop that loses nothing, or the end exactly at an empty chunk or the end of input |
| `AuthReader.AuthenticationReader.ReadMultiBuffer` | common/crypto/auth.go:204-224 | between one and 16 chunks a call, their payloads in order |
| `AuthReader.AuthenticationReader.Copy` | common/crypto/auth.go:204-224 | everything up to the first empty chunk, then EOF, over any fragmentation |
| `AuthReader.DeliversWrites` | common/crypto/auth.go:276-358 | what a reader hands over of the payloads of any writes is their bytes up to the first empty write |
| `AuthReader.WritePayloadsFit` | common/crypto/auth.go:276-313 | no chunk of a stream write needs more than one buffer |
| `AuthReader.WriteAll` | common/crypto/auth.go:345-358 | any sequence of stream writes puts exactly their chunks on the wire |
| `AuthReader.ReadBack` | common/crypto/auth.go:117-224 | the round trip: reading the chunks of any writes, with any paddings and fragmentation, returns exactly the plaintext up to the first empty write |
| `AuthPackets.MisreadChunk` | common/crypto/auth.go:151-202 | the reader cuts a chunk where the writer joined it if and only if the padding it draws is as long as the one the writer drew |
| `AuthPackets.DroppedPacketIsMisread` | common/crypto/auth.go:248-342 | at a concrete format a dropped packet makes the reader take the padding of the next one for content |
| `AuthPackets.WriteAllPackets` | common/crypto/auth.go:315-358 | any sequence of packet writes whose packets fit puts exactly one chunk per packet on the wire |
| `AuthPackets.ReadBackPackets` | common/crypto/auth.go:117-224 | the round trip of packets over any fragmentation: one buffer per packet, holding exactly that packet, up to the first write without content |
| `Lru.Lru.Get` | common/cache/lru.go:39-46 | the stored value, whose entry moves to the front while all others keep their order; for an absent key nothing moves |
| `Lru.Lru.GetKeyFromValue` | common/cache/lru.go:48-55 | while the value map is the inverse: the key stored with this value, whose entry moves to the front while all others keep their order, or none |
| `Lru.Lru.Put` | common/cache/lru.go:57-76 | the entry is in front, in place of the one with its key or before all others, of which the last goes beyond the capacity; the value map stays the inverse if and only if the pair was stored already or neither key nor value was |
| `Lru.SpoilByKey` | common/cache/lru.go:57-76 | one value put under two keys leaves a value map that is no longer the inverse |
| `Lru.SpoilByValue` | common/cache/lru.go:57-76 | so does another value put under a stored key |
| `Lru.Lru.MoveToFront` | common/cache/lru.go:39-55 | the order changes by moving this entry to the front; nothing happens to one that is not listed |
| `Lru.Lru.RemoveBack` | common/cache/lru.go:57-76 | the entry evicted is the one touched longest ago |
| `LruRuns.RunOrder` | common/cache/lru.go:39-76 | after every run of puts and lookups of either kind: one entry for a key, no more than the capacity, in the order of the last use of each key, which the history of calls defines |
| `LruRuns.EvictsOldest` | common/cache/lru.go:57-76 | a put gives up an entry exactly when its key is new and the cache full, and then the one whose key was used longest ago |
| `LruRuns.Run` | common/cache/lru.go:30-76 | a new cache runs through any calls as this list does, if lookups by value are made while the value map is exact |
| `LruRuns.FiveCalls` | common/cache/lru.go:39-76 | capacity 2: the lookup of key 1 saves it, and the third put gives up key 2 |
| `ReplayFilter.ReplayFilter.Check` | common/antireplay/replayfilter.go:35-58 | start, swap and insertion change the two generations as specified, and the sum is in pool A afterwards, accepted or not |
| `ReplayFilter.NoReplayExact` | common/antireplay/replayfilter.go:35-58 | for every interval and every sequence of clock readings: no choice of sums is ever accepted twice within an interval if and only if, between any two calls less than an interval apart, the filter does not restart and swaps at most once, which the readings alone decide |
| `ReplayFilter.NoReplay` | common/antireplay/replayfilter.go:35-58 | so on a clock that neither goes back nor reads 0, a sum accepted at t is accepted again only from t + interval on |
| `ReplayFilter.FreshIsAccepted` | common/antireplay/replayfilter.go:35-58 | a sum never checked before is accepted, whatever the clock does |
| `ReplayFilter.CheckedIsRemembered` | common/antireplay/replayfilter.go:35-58 | accepted or not, the next check of a sum finds it in pool A exactly unless pool A was emptied in between, which the readings alone decide, and rejects it there |
| `ReplayFilter.ZeroClockAcceptsTwice` | common/antireplay/replayfilter.go:35-58 | a clock at 0 restarts the filter and lets a sum pass twice |
| `ReplayFilter.BackwardClockAcceptsTwice` | common/antireplay/replayfilter.go:35-58 | so does a clock that goes back |
| `Dns.NamesBlocksExactly` | app/dns/nameserver.go:101-129 | the rule cursor names the block of every pattern if and only if no empty rule comes before the last pattern |
| `Dns.EmptyRuleTakesPattern` | app/dns/nameserver.go:101-129 | of three rules of sizes 1, 0 and 1 the second pattern is filed under the empty rule |
| `Dns.RuleIsBlock` | app/dns/nameserver.go:101-129 | then the stored index is the block's, both directions, for up to 65536 rules |
| `Dns.TableIsExact` | app/dns/dns.go:94-129 | every id the matcher group hands out resolves to the server and pattern it was added for, with client and rule index in range |
| `Dns.Builder.UpdateDomain` | app/dns/dns.go:110-117 | the next id is filed under this client and rule, no other id changes |
| `Dns.Builder.EstablishRules` | app/dns/nameserver.go:101-129 | fails exactly on an invalid pattern; else every pattern is filed in order under the cursor's rule, and every such rule has a name |
| `Dns.Builder.AddServer` | app/dns/nameserver.go:71-158 | adding a server keeps the whole table exact |
| `Dns.Build` | app/dns/dns.go:88-134 | after all servers the table is exact, and there is always a client |
| `Dns.SortClients` | app/dns/dns.go:264-311 | on the matches themselves: the client of the first match is asked first, matched clients in the order of their first matches, behind them in configuration order the others that may be fallen back to, each once, and client 0 if there is no other |
| `Dns.SortedIsOrder` | app/dns/dns.go:264-311 | for any list of matched clients: exactly these and, unless fallback is off, those that allow it (or the first client when there is none), each once and in its place |

## Left out

- Bytes outside the alphabet of `char2Index`, on which it panics: the automaton's methods require every byte to be indexable (`Indexable`), and keyword results are about texts modulo that mapping; `OccursIsContains` says where it is `strings.Contains`.
- AcAutomaton.ACAutomaton.Add: mixing keyword and domain patterns in one automaton is modelled (`AddSpec`), but the exactness theorem is about keywords only, the one use the source makes of it. Adding to an automaton after Build is not modelled.
- MphMatcher.MphMatcherGroup.Build: no termination for a concrete hash. The hash is an arbitrary function, and a search that tries all seeds in vain, which the source would repeat for ever, returns false, only at a real dead end (`Unbuildable`).
- MphGroup.BuildAndMatch: under conditions on the patterns that rule out the failures above; the exact conditions, on the rules and on the keywords apart, are those of `TableExact` and `KeywordMatchExact`. Keywords and, where there are any, names have bytes below 127.
- MphMatcher.MphMatcherGroup.AddPattern: lower-casing is that of ASCII letters only, and compiling a regular expression is a parameter.
- DomainMatcher.DomainMatcherGroup.Add: trie nodes are positions in a list of nodes instead of pointers, and so are the list elements of Lru; aliasing of nodes is not modelled.
- GeoIpMatcher.GeoIPMatcher.Init: sort.Sort is the function `SortList`, the only ordered permutation (`OrderedListsEqual`); that the caller's own slice is reordered is not modelled, nor is the container that shares matchers between countries.
- GeoIpMatcher.GeoIPMatcher.Match4: lists of more than 2^31 entries, where the sum of two 32-bit positions would overflow, are excluded; so in Match6, Match and `InitAndMatch`.
- Address: net.ParseAddress is a parameter of which only is known that it answers IP-looking text with no domain; a domain of 256 bytes passes the length check and is written with length byte 0, as in the code.
- BufferList: releasing buffers to the pool, use after release, SplitFirst, MergeMulti and Copy. The protocol modules use lists of byte strings, which `BufferList` shows to be what the in-memory lists hold.
- Reader.BufferedReader.Read: the underlying reader delivers a finite list of buffers and then EOF, fails in no other way, and a custom splitter is not modelled. A read may return nothing without being at the end, which makes all fragmentations a case.
- BufferedWriter.BufferedWriter.Write: the underlying writer accepts everything.
- MuxWriter.Writer.Send: the link accepts every frame; errors of its own writer, and with them a write cut short in the middle (Writer.WriteMultiBuffer), are not modelled.
- MuxServer.ServerWorker.HandleStatusKeep: writing to a session's output never fails, so what the code does after such a failure is only modelled as far as draining the frame; a session that is closed but not yet removed from the table is not modelled, removal and closing being one step.
- MuxServer.ServerWorker.HandleStatusNew: whether the dispatcher accepts a destination is a parameter; a handler that outlives its session and a later one with the same id (ids are distinct here), context cancellation, timers, the worker picker and the wrapping chunk counter are left out.
- MuxEndToEnd.MuxDelivers: buffers of packet sessions hold at most 2048 bytes, which is what a buffer can hold.
- MuxClient.FetchOne: as on the server, writing to a session's output never fails.
- MuxClient.FetchOutput: a client's session table closed by another goroutine meanwhile is seen as an empty table.
- AuthReader.AuthenticationReader.ReadInternal: corrupted or truncated streams, on which this fork drops errors. The AEAD is a parameter that opens what it sealed under one nonce (sections 2.1 and 2.2 of RFC 5116), without associated data; sizes and paddings are functions of the number of the call; a format whose framing exceeds a buffer, on which `common.Must` panics, is excluded by `FormatOk`.
- AuthReader.AuthenticationReader.ReadSize: the same.
- AuthPackets.ReadBackPackets: packets that all fit; with a packet dropped, `MisreadChunk` says which chunks the reader still cuts rightly, and what an AEAD then makes of the others is not modelled.
- Dispatch.TableIsBounded: an upper bound, not shown to be reached.
- LruRuns.Run: lookups by value after a put has spoiled the value map, of which only `Lru.Lru.GetKeyFromValue` says what they may do.
- Lru.Lru.Put: the locking discipline around the two concurrent maps.
- ReplayFilter.ReplayFilter.Check: the cuckoo filters are exact sets that never fill up; false positives and the width of the clock are left out.
- Dns.Builder.AddServer: creating the server itself and its address matchers, which can fail too.
- Dns.Build: whether a pattern can be compiled is a parameter; static hosts, expected addresses and queries are left out. More than 65536 clients or rules would wrap the stored indexes, which `TableIsExact` and `RuleIsBlock` exclude.
- Sockets, transports, configuration, logging and generated code.
