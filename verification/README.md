# ShieldGhita: a verified model of its DNS engine and guards

ShieldGhita is a Windows network guard. It answers DNS for a machine or a LAN, blocks listed
names, forwards the rest, and polices the clients that ask. This project models the parts that
decide things and proves what they promise:

* **The blocklist.** A feed is compacted, written to a binary index, validated on `open`, searched
  by binary search with a scan over equal hashes, and consulted by a dot-suffix walk memoised in a
  4096-slot table. `DiskFormat` and `DiskTheorems` say what a well-formed file is and prove that
  looking a name up in it is membership in the feed, for every hash, collisions included;
  `DiskStore` builds, opens and searches such files. `DomainRules` covers hierarchy matching and
  compaction; `MemoWalk`, `MemoFailure` and `BlockEngine` cover the memoised lookup.
* **The wire format and the responder.** `DnsWire`, `DnsAnswers`, `DnsQuery` and `Discovery` hold
  the program's independent readers and builders of RFC 1035 messages and show that they agree;
  `DnsMessages` and `MdnsMessages` have the messages as data and say what the readers find in them;
  `Utf8Text` says which bytes a label may hold. `Responder` is the packet handler and its response
  cache as a state machine; `ResponderTheorems` states what it decides on the packet, the client and
  the bytes sent; `DnsServer` is the same as an object.
* **Timed and stateful guards.** `RateGate` and `RateLimiter` (the two-second hard limit and its
  temporary blocks), `RebindCooldown`, and `Quarantine` (MAC-bound isolation).
* **Smaller cores.** `LocationScan` (the worklist over a possibly cyclic directory graph),
  `BlockStats` (counters that survive a crash), `AdBlock` (block accounting), `Backup` (the MAC
  message) and `Subnet` (the hosts of a scan). `Eviction`, `Bytes` and `Time` are shared.

Each component has one set of functions that say what it computes. Where the program changes
things step by step, a method or class does the same in place and is proved equal to those
functions; the theorems are about the functions and about whole runs of them. Constants, ranges and
orders of precedence are stated in theorems of their own, in numbers, bytes or sets, so that the
functions are not their own specification.

Four laws turned out not to hold of the program as written, and the model keeps the program:

* **The memo under-blocks.** The suffix walk stores exact membership of a suffix where
  `should_block` later reads a hierarchy answer (`src/modules/dns/mod.rs:893` and `:864`), so a name
  the list covers can be let through. `MemoFailure.NegativeMemoUnderblocks` gives the two questions,
  under the program's own hash. `MemoWalk.WrongOnlyIfReached`: in every run an answer is wrong only
  for a name that the disk list alone decides and covers, after a longer name was asked for whose
  walk comes to it and finds it unlisted. `MemoWalk.AllRightIffNoneEndangered`: when no names share
  a slot, all answers of all runs over some names are right if and only if there is no such pair
  among them. `MemoWalk.WrongIffSpoiled` is exact for two questions, shared slots included.
  `MemoWalk.WithoutNegativesExact`: dropping the negative insert repairs it.
* **The response cache confuses names that lower alike.** Its key is the Unicode-lowered name.
  `Responder.RepliesMatchIffSeparated`: every reply of every run over a set of names answers its
  query if and only if no two of the names that differ in more than ASCII case lower alike. ASCII
  names never do (`Responder.EveryReplyMatches`); the Kelvin sign and "k" do
  (`Responder.KelvinSignCollides`).
* **The A-record decoder skips compressed names wrongly.** It takes a pointer after a label for one
  more label (`src/modules/dns/mod.rs:1733-1742`); `DnsMessages.SharedSuffixHidesAnswer` is a reply
  whose only answer it misses. `DnsMessages.FirstAExactly`: the first A record is found if and only
  if no answer name up to it has both labels and a pointer, when fewer than 192 bytes follow the
  first that has; `DnsMessages.FirstAIsFirst` covers the others.
* **The TTL decoder stops early and skips one question whether or not there is one.** It counts the
  question's length bytes and the answers against one limit of 256 (`DnsMessages.LastAnswerIsNotRead`),
  and a reply whose answer stands where the question would is accepted but gives no TTL
  (`DnsMessages.NoQuestionMisleads`); either way a reply can be cached for longer than its records
  allow (`Responder.CrowdedReplyIsOvercached`, `Responder.UnaskedReplyIsOvercached`).
  `DnsMessages.MinTtlIsLeast` says exactly what it finds in a message with one question.

Time is a natural number of nanoseconds passed in. Names and packets are byte sequences. Unicode
lowering, IPv4 text parsing, file outcomes, cancellation and progress ticks are parameters or
oracles. Where several entries of a hash map are equally old, which of them an eviction takes is
left open. `hide` statements only keep definitions out of a proof that does not need them.

## Model

| member | source | states |
|---|---|---|
| `DiskFormat.AcceptedBucketsTile` | src/modules/dns/disk_store.rs:118-159 | In any file `open` accepts, the 256 buckets tile the index section: each starts where the counts before it end, with no gap or overlap, and the last ends at the strings. |
| `DiskFormat.AcceptedExactly` | src/modules/dns/disk_store.rs:72-167 | `open` accepts a file if and only if it starts with "SGBL" and version 1, has room for the index its total asks for, its bucket counts add up to the total, and the buckets lie in order between byte 4096 and the strings. |
| `DiskFormat.FieldsInBytes` | src/modules/dns/disk_store.rs:101-114 | Bucket `b` is two little-endian 32-bit numbers from byte 16 + 8b on; a record is a 64-bit hash, a 32-bit offset and a 16-bit length. |
| `DiskTheorems.EncodedFileOpens` | src/modules/dns/disk_store.rs:384-396 | Every file in the format `build` writes is accepted by `open`, with the number of distinct names as its total. |
| `DiskTheorems.BucketsAreRuns` | src/modules/dns/disk_store.rs:376-382 | In hash order the names of one bucket are consecutive, so record number and name number coincide. |
| `DiskTheorems.EncodedBucketSorted` | src/modules/dns/disk_store.rs:353-358 | The records of every bucket of a written file ascend by hash, which is what the binary search relies on. |
| `DiskTheorems.IndexRefinesSet` | src/modules/dns/disk_store.rs:173-345 | For every case-folding hash, collisions included, a lookup in a written file succeeds if and only if the query is non-empty, some listed name equals it ignoring ASCII case, and its bucket is within the 64 MiB read cap. |
| `DiskTheorems.CapInNames` | src/modules/dns/disk_store.rs:177-204 | A bucket is within the read cap exactly when at most 4 793 490 listed names have a hash with its top byte. |
| `DiskStore.HashDomain` | src/modules/dns/disk_store.rs:11-20 | The hash loop computes 64-bit FNV-1a over the lower-cased bytes. |
| `DiskStore.FnvFoldsCase` | src/modules/dns/disk_store.rs:11-20 | The program's hash is equal on names that differ only in ASCII case, so the theorems apply to it. |
| `DiskStore.Partition` | src/modules/dns/disk_store.rs:376-382 | Pushing each ordered name to the bucket of its top hash byte leaves every bucket holding one run of the names, in order. |
| `DiskStore.LayOutBuckets` | src/modules/dns/disk_store.rs:384-396 | Bucket offsets are packed from 4096 on, and an error is reported exactly when the index section would pass the 32-bit range. |
| `DiskStore.LayOutStrings` | src/modules/dns/disk_store.rs:398-411 | Every name stands at its recorded offset with its recorded length; an error is reported exactly when a start exceeds 32 bits or a length 16. |
| `DiskStore.WriteRecords` | src/modules/dns/disk_store.rs:413-426 | Writing the buckets one after the other writes the 14-byte record of every name at its place. |
| `DiskStore.WriteHeader` | src/modules/dns/disk_store.rs:449-460 | The header reads back as magic, version 1, total, bucket count and the 256 table entries. |
| `DiskStore.Build` | src/modules/dns/disk_store.rs:348-486 | Succeeds exactly when the distinct names fit the format's integer widths, and then returns their number and a file that encodes them. |
| `DiskFormat.EncodableInNumbers` | src/modules/dns/disk_store.rs:384-411 | The widths in numbers: 306 783 085 names, 65 535 bytes a name, and a start within the first 2^32 bytes of the strings. |
| `DiskStore.Open` | src/modules/dns/disk_store.rs:72-167 | Accepts or rejects with the first failing check, in the program's order of checks. |
| `DiskStore.SearchHash` | src/modules/dns/disk_store.rs:218-248 | Returns an index holding the hash, or none, and in a sorted bucket none means no record has it. |
| `DiskStore.ScanEqual` | src/modules/dns/disk_store.rs:250-342 | The scan in both directions from any index with the hash finds a matching record whenever the sorted bucket has one. |
| `DiskStore.Contains` | src/modules/dns/disk_store.rs:173-345 | A reported hit is real in any file; in a file with sorted buckets the answer is exactly whether a matching record exists. |
| `DomainRules.MatchDomainHierarchy` | src/modules/dns/mod.rs:903-915 | True exactly when the name or one of its non-empty dot-suffixes is in the set. |
| `DomainRules.CoveredIsByEnding` | src/modules/dns/mod.rs:903-915 | A name is covered exactly when a listed name is that name, or is non-empty and stands at its end after a dot. |
| `DomainRules.CompactCoveredDomains` | src/modules/dns/mod.rs:917-942 | Keeps the normalised names that no other one covers and counts the rest without underflow. |
| `DomainRules.CompactionPreservesMeaning` | src/modules/dns/mod.rs:917-942 | For every query the compacted list gives the same hierarchy answer as the full one. |
| `DomainRules.CompactionIsMinimal` | src/modules/dns/mod.rs:917-942 | No kept name is a proper dot-suffix of another, and every sublist with the same answers contains the kept list. |
| `MemoWalk.WalkIsExact` | src/modules/dns/mod.rs:882-900 | From any cache in the invariant the memoised suffix walk gives the memo-free answer and restores the invariant. |
| `MemoWalk.CheckDiskIsExact` | src/modules/dns/mod.rs:874-901 | `check_disk_hierarchy` equals the memo-free walk whatever the reachable cache holds. |
| `MemoWalk.QueryIsExact` | src/modules/dns/mod.rs:813-872 | One query keeps the cache's invariant, never blocks what the rule allows, and goes wrong only through a negative the suffix walk left. |
| `MemoWalk.AllowedIsNeverBlocked` | src/modules/dns/mod.rs:829-841 | A name covered by either allow list is never blocked, whatever else covers it and whatever is memoised. |
| `MemoWalk.RuledIsAlwaysBlocked` | src/modules/dns/mod.rs:843-860 | A non-empty name covered by the custom or built-in block list and by no allow list is always blocked. |
| `MemoWalk.OnlyTheDiskDecides` | src/modules/dns/mod.rs:862-872 | A name none of the four sets covers is blocked only if the disk list covers it, and on an empty memo exactly then. |
| `MemoWalk.WrongOnlyIfReached` | src/modules/dns/mod.rs:813-901 | After every run of queries, slot overwrites, reloads and rule changes: no query is blocked that the rule allows, and one is wrongly let through only if no rule set decides it, the disk list covers it, and since the last reload or rule change a longer name was asked for that no rule set decides and of which nothing down through this name is listed. |
| `MemoWalk.AllRightIffNoneEndangered` | src/modules/dns/mod.rs:813-901 | When no two names share a slot, every answer of every run of questions over a set of names is right if and only if no name of the set reaches another in that way that the disk list alone decides and covers. |
| `MemoWalk.WrongIffSpoiled` | src/modules/dns/mod.rs:862-901 | After one question on a clear cache, the next answer is wrong if and only if the second name is a proper suffix of the first, no rule set decides either, nothing from the first name down to the second is listed but a shorter suffix is, and no memo written later took the second name's slot. |
| `MemoWalk.WithoutNegativesExact` | src/modules/dns/mod.rs:886-897 | With the walk's negative insert removed, every answer in every run equals the uncached rule. |
| `MemoFailure.NegativeMemoUnderblocks` | src/modules/dns/mod.rs:862-897 | With only `b.c` on disk and the program's FNV hash, asking `x.a.b.c` and then `a.b.c` lets the second through although the rule blocks it. |
| `BlockEngine.FastDomainCache.Lookup` | src/modules/dns/disk_store.rs:34-46 | Answers from the slot only for the very hash it was written for, hash zero included. |
| `BlockEngine.FastDomainCache.Insert` | src/modules/dns/disk_store.rs:48-54 | Overwrites the hash's slot and no other. |
| `BlockEngine.FastDomainCache.Clear` | src/modules/dns/disk_store.rs:56-60 | Leaves every slot unoccupied. |
| `BlockEngine.DnsBlocker.CheckDiskHierarchy` | src/modules/dns/mod.rs:874-901 | The loop over the store and the slot table does what the memoised walk says, answer and table both. |
| `BlockEngine.DnsBlocker.ShouldBlockName` | src/modules/dns/mod.rs:813-872 | Allow lists, custom and built-in rules, memo, disk, in that order, as the functional engine has them. |
| `BlockEngine.DnsBlocker.LoadStore` | src/modules/dns/mod.rs:392-402 | Swapping in a store with sorted buckets drops every memoised answer. |
| `BlockEngine.DnsBlocker.SetCustomRules` | src/modules/dns/mod.rs:742-756 | The rule lists become the valid texts, normalised, and every memoised answer is dropped. |
| `BlockEngine.ValidRuleIsNormal` | src/modules/dns/mod.rs:223-285 | An accepted rule is in the form queries are compared in, has a dot inside (so no whole top-level domain is ruled on), and is accepted again as it is. |
| `BlockEngine.ValidExactly` | src/modules/dns/mod.rs:223-285 | A text is accepted exactly when, trimmed and lowered, it is at least two labels of 1 to 63 letters, digits, hyphens and underscores, at most 253 bytes and no public suffix; the rule is that name. |
| `BlockEngine.DiskWalkIsFeed` | src/modules/dns/mod.rs:707-726 | Compaction, encoding, opening, lookup and walk together: whenever the buckets of the query and its suffixes are within the read cap, the disk rule is hierarchy matching on the normalised feed. |
| `BlockEngine.RebuildFrom` | src/modules/dns/mod.rs:707-731 | Succeeds exactly when the compacted feed in hash order fits the file's integer widths; then the engine answers by the new feed with an empty memo, otherwise nothing changes. |
| `BlockEngine.OrderIsUnique` | src/modules/dns/disk_store.rs:353-358 | A set of names has only one listing in (hash, text) order, so that condition depends on the feed alone. |
| `DnsWire.ParseQueryInfo` | src/modules/dns/mod.rs:949-984 | The question parser: pointers, overruns, invalid UTF-8 and more than 128 length bytes are refused, otherwise the joined name and type. |
| `Utf8Text.TextIsUtf8` | src/modules/dns/mod.rs:975 | Whatever Unicode scalar values encode to is text a label may hold. |
| `Utf8Text.Utf8IsText` | src/modules/dns/mod.rs:975 | Whatever a label may hold is the encoding of scalar values: no overlong form, surrogate or value above U+10FFFF. |
| `DnsWire.ResponseMatchesQuery` | src/modules/dns/mod.rs:991-1007 | Same transaction ID, QR set, same name ignoring ASCII case, same type. |
| `DnsWire.ParseLocal` | src/modules/dns/mod.rs:949-984 | Packets that agree from byte 12 through the question type parse alike. |
| `DnsWire.LengthByteBits` | src/modules/dns/mod.rs:966 | The byte ranges used by the model are the program's bit masks. |
| `DnsAnswers.BuildSinkholeARecord` | src/modules/dns/mod.rs:1148-1197 | Builds the one-answer A reply, or none when the question cannot be walked to its class. |
| `DnsAnswers.BuildSinkholeAaaaRecord` | src/modules/dns/mod.rs:1199-1248 | Likewise for AAAA. |
| `DnsAnswers.BuildError` | src/modules/dns/mod.rs:1137-1146 | The query as an NXDOMAIN or SERVFAIL reply with its record counts cleared. |
| `DnsAnswers.ExtractMinTtl` | src/modules/dns/mod.rs:1009-1085 | The loops compute the scan with its guards and truncation rules, on any bytes; `DnsMessages.MinTtlIsLeast` says what it finds. |
| `DnsAnswers.IsPrivateIpRecord` | src/modules/dns/mod.rs:1275-1354 | The loops compute the scan over readable records, on any bytes; `DnsMessages.PrivateIsExact` says what it finds. |
| `DnsAnswers.ParseFirstARecord` | src/modules/dns/mod.rs:1707-1770 | The loops compute the scan with this decoder's own rules for names, on any bytes; `DnsMessages.FirstAIsFirst` says what it finds. |
| `DnsAnswers.WalkersAgree` | src/modules/dns/mod.rs:1017-1035 | On the question bytes a builder copied, every other walker stops where the builder's did. |
| `DnsAnswers.ParserAndBuilderAgree` | src/modules/dns/mod.rs:1162-1182 | On a name the parser accepts, the builder's walker stops where the parser does. |
| `DnsAnswers.SinkholeADecodes` | src/modules/dns/mod.rs:1148-1197 | For every query and address the A reply decodes to that address, with TTL 10, and is private exactly when the address is. |
| `DnsAnswers.SinkholeAaaaDecodes` | src/modules/dns/mod.rs:1199-1248 | For every query and address the AAAA reply has TTL 10, no A record, and is private exactly when the IPv6 address is. |
| `DnsAnswers.SinkholeMatches` | src/modules/dns/mod.rs:1148-1248 | A sinkhole reply to a parsable query answers that query. |
| `DnsAnswers.ErrorMatches` | src/modules/dns/mod.rs:1137-1146 | An error reply to a parsable query exists and answers it. |
| `DnsAnswers.PrivateRangesV4` | src/modules/dns/mod.rs:1356-1368 | An IPv4 address is private exactly inside ten ranges, given by their first and last address. |
| `DnsAnswers.PrivateRangesV6` | src/modules/dns/mod.rs:1336-1349 | An IPv6 address is private exactly when it is ::1, in fe80::/10 or fc00::/7, or maps a private IPv4 address. |
| `DnsMessages.PrivateIsExact` | src/modules/dns/mod.rs:1275-1354 | For every RFC 1035 message (any questions, names with labels and pointers, any records) the scan reports a private address if and only if some answer is an A or AAAA record in the program's private ranges. |
| `DnsMessages.MinTtlIsLeast` | src/modules/dns/mod.rs:1009-1085 | For every message with one question the result is the least TTL of the answers, all of them unless they and the question's labels exceed 255 (then of the first ones); a least TTL of 2^32 - 1 counts as none. |
| `DnsMessages.NoQuestionMisleads` | src/modules/dns/mod.rs:1017-1036 | Of a reply with an A record of TTL 5 and no question, which the question parser takes for one about the record's name, the TTL decoder finds no TTL. |
| `DnsMessages.LastAnswerIsNotRead` | src/modules/dns/mod.rs:1017-1046 | Of 255 answers to a one-label question, the last with TTL 1 and the others 60, the TTL decoder finds 60. |
| `DnsMessages.FirstAIsFirst` | src/modules/dns/mod.rs:1707-1770 | For every message in which no answer name up to it mixes labels with a pointer, the first A record is returned, or none if there is none. |
| `DnsMessages.FirstAExactly` | src/modules/dns/mod.rs:1733-1742 | When fewer than 192 bytes follow the first answer name that mixes labels with a pointer, the first A record is returned if and only if no name up to it does. |
| `DnsMessages.SharedSuffixHidesAnswer` | src/modules/dns/mod.rs:1733-1742 | A reply for `b.a` whose A record is named by `b` and a pointer to `a` gives no A record. |
| `DnsMessages.MessageParses` | src/modules/dns/mod.rs:949-984 | Every message whose first question has a plain name of valid text parses to that name and type. |
| `DnsQuery.BuildAQuery` | src/modules/dns/mod.rs:1687-1705 | Encodes the trimmed host label by label, or refuses empty and over-long labels. |
| `DnsQuery.BuiltExactly` | src/modules/dns/mod.rs:1687-1705 | A query is built exactly when every label of the trimmed host has 1 to 63 bytes; its header and its last five bytes. |
| `DnsQuery.TrimmedIsInside` | src/modules/dns/mod.rs:1688 | Trimming drops white space at both ends and then dots at the end, and nothing else. |
| `DnsQuery.QueryRoundTrip` | src/modules/dns/mod.rs:1687-1705 | The query for an ASCII host parses back to the trimmed host with type 1 exactly when it has at most 127 labels, and 253 bytes never hold more. |
| `Responder.RepliesMatchIffSeparated` | src/modules/dns/mod.rs:1431-1598 | For any set of names that can be asked for: every reply of every run over them, however packets interleave and whatever comes back from upstream, answers its own query if and only if names that lower alike are equal up to ASCII case. |
| `Responder.EveryReplyMatches` | src/modules/dns/mod.rs:1431-1598 | Over ASCII names every reply of every run answers its own query. |
| `Responder.CacheStaysBounded` | src/modules/dns/mod.rs:1106-1135 | In every run the cache holds at most 5501 entries. |
| `Responder.ServeMatches` | src/modules/dns/mod.rs:1462-1578 | Before forwarding, a reply fails to answer its query if and only if it comes from the cache and was stored for another name. |
| `ResponderTheorems.LimitedIsDropped` | src/modules/dns/mod.rs:1439-1460 | A packet that does not parse, or whose source is rate-limited or blocked, gets no reply. |
| `ResponderTheorems.IsolatedIsDenied` | src/modules/dns/mod.rs:1462-1502 | A quarantined client, a darknet name or an incident under automatic blocking is sent a matching NXDOMAIN without records, whatever else holds. |
| `ResponderTheorems.OverrideIsAnswered` | src/modules/dns/mod.rs:1504-1519 | An override is answered by one record with its address for the type asked, or NXDOMAIN for other types. |
| `ResponderTheorems.ListedIsSinkholed` | src/modules/dns/mod.rs:1521-1557 | A listed name of an ordinary client, and any name of a strict one that is not this machine, is answered 127.0.0.1 or 0.0.0.0, or `::`, unless blocking is paused. |
| `ResponderTheorems.ForwardedExactly` | src/modules/dns/mod.rs:1431-1578 | A query is forwarded if and only if it parses, nothing before the cache refuses or answers it, and no entry under its lowered name and type is within its TTL. |
| `ResponderTheorems.BlockedNameIsSinkholed` | src/modules/dns/mod.rs:1521-1557 | With the block lists at work: a query for a name under a custom or built-in rule and no allow list gets the sinkhole address, whatever is memoised or cached. |
| `ResponderTheorems.AllowedNameIsForwarded` | src/modules/dns/mod.rs:1521-1578 | A query for a name on or below an allow list is forwarded unless a live cache entry answers it. |
| `Responder.FinishMatches` | src/modules/dns/mod.rs:1580-1597 | A forwarded, withheld or failed query always gets a reply that answers it. |
| `ResponderTheorems.AcceptedIsPassedOn` | src/modules/dns/mod.rs:1580-1594 | The client gets the first acceptable body, which is stored under the query's key; for a private answer to a guarded name it gets NXDOMAIN and nothing is stored. |
| `ResponderTheorems.FailureIsReported` | src/modules/dns/mod.rs:1595-1597 | When no body is acceptable the client is told SERVFAIL and the state stays. |
| `Responder.RetaggedMatches` | src/modules/dns/mod.rs:1092-1104 | Rewriting the transaction ID of a stored reply yields an answer exactly when the names agree. |
| `Responder.StoreKeepsCacheOk` | src/modules/dns/mod.rs:1106-1135 | Storing keeps the bound of 5501, the QR bit, and each entry's type and name in step with its key. |
| `Responder.PolicyReplyDecodes` | src/modules/dns/mod.rs:1504-1557 | A blocked or overridden A or AAAA query is answered by one record for the name asked, holding exactly the policy's address for ten seconds, as the program's decoders agree; any other query by NXDOMAIN without answers. |
| `Responder.RebindingIsWithheld` | src/modules/dns/mod.rs:1580-1617 | For a name neither local nor allowlisted no message with a private A or AAAA answer is forwarded, and an accepted upstream message is passed on unchanged if and only if the name is exempt or no answer is private. |
| `ResponderTheorems.LocalByEnding` | src/modules/dns/mod.rs:1261-1273 | A name is local exactly when, lowered and without trailing dots, it is "localhost" or ends after a dot in one of eight words. |
| `Responder.CachedRebindingIsWithheld` | src/modules/dns/mod.rs:1559-1578 | A cached message is served if and only if the name is exempt at that moment or no answer is private. |
| `Responder.CachedReplyIsRecent` | src/modules/dns/mod.rs:1092-1135 | In every run on a clock that does not run backwards, a reply from the cache is, but for its ID, a body accepted from upstream earlier in the run for the same lowered name and type, less than its clamped TTL ago. |
| `ResponderTheorems.RecentReplyIsFound` | src/modules/dns/mod.rs:1092-1135 | The converse: in every run a stored reply is what every later packet with the same lowered name and type finds until its TTL runs out, unless a newer one was stored or more than 5500 entries were live at some store in between. |
| `ResponderTheorems.TrimmedInNumbers` | src/modules/dns/mod.rs:1106-1127 | Making room keeps everything up to 5000 entries, beyond that the live ones, and of more than 5500 live ones 5000, none older than one dropped. |
| `Responder.CachedWithinTtl` | src/modules/dns/mod.rs:1087-1090 | A message with one question is cached for at most a minute and no longer than any answer's TTL (but at least a second), as far as the TTL decoder reads. |
| `ResponderTheorems.CachedForLeastTtl` | src/modules/dns/mod.rs:1087-1090 | The cache time is exactly the least TTL of the answers the decoder reads, held within 1 and 60 seconds, and ten without answers. |
| `Responder.UnaskedReplyIsOvercached` | src/modules/dns/mod.rs:1087-1090 | A reply without a question is accepted for a query and cached for ten seconds although its only record allows five. |
| `Responder.CrowdedReplyIsOvercached` | src/modules/dns/mod.rs:1087-1090 | A reply with 255 answers matches its query and is cached for a minute although its last record allows a second. |
| `Responder.KelvinSignCollides` | src/modules/dns/mod.rs:1092-1135 | If lowering maps the Kelvin sign to "k", some run over these two names sends a reply that does not answer its query. |
| `DnsServer.DnsServer.CachedResponseFor` | src/modules/dns/mod.rs:1092-1104 | A fresh entry under the lowered name and type, with the query's transaction ID. |
| `DnsServer.DnsServer.StoreCacheResponse` | src/modules/dns/mod.rs:1106-1135 | Above 5000 entries the expired go, above 5500 the oldest down to 5000, none newer than one kept; then the reply is stored with its TTL clamped to 1..60. |
| `DnsServer.DnsServer.ForwardedAnswerHitsPrivateSpace` | src/modules/dns/mod.rs:1600-1617 | Private, not a local name, and not under the administrator's allowlist. |
| `DnsServer.DnsServer.ServePacket` | src/modules/dns/mod.rs:1431-1578 | The handler's decisions up to forwarding, in order, without touching the cache. |
| `DnsServer.DnsServer.FinishForward` | src/modules/dns/mod.rs:1580-1597 | The handler's end: reply, and store only an unsuspicious upstream answer. |
| `DnsServer.DnsServer.FirstAcceptedBody` | src/modules/dns/mod.rs:1844-1857 | The first upstream body within 64 KiB that answers the query. |
| `RateGate.NoWindowExceedsLimit` | src/modules/security/mod.rs:265-330 | In every run with a fixed rate setting a non-loopback source gets at most max(4 * base, 200) packets past both gates in any two seconds in which no eviction took its recent history. |
| `RateGate.WellBehavedAlwaysPasses` | src/modules/security/mod.rs:265-330 | A source that stays within its limit in every two seconds and that no other detector blocks has every packet pass, whatever evictions do. |
| `RateGate.LoopbackIsDroppedExactly` | src/modules/security/mod.rs:267-318 | A loopback packet is dropped if and only if the timestamps kept from the last two seconds and its own exceed 10 * base held within 200 to 2000. |
| `RateGate.OverrunIsPunished` | src/modules/security/mod.rs:291-328 | An overrun keeps the last ten timestamps and blocks a non-loopback source for a minute, unless it was alerted on within the last minute. |
| `RateGate.BlockHoldsUntilExpiry` | src/modules/security/mod.rs:381-423 | A block holds exactly until it expires and changes no other source's. |
| `RateGate.OnlyTheExpiredArePruned` | src/modules/security/mod.rs:303-328 | Up to 500 blocks and 1024 alerts everyone stays in the tables, beyond that whoever's time still runs. |
| `RateGate.EvictionOnlyWhenFull` | src/modules/security/mod.rs:277-289 | Every active source keeps its history unless more than 1000 are active; then exactly 256 lose it. |
| `RateGate.RunKeepsInv` | src/modules/security/mod.rs:303-328 | While the alert cooldown runs the source stays blocked to its end and passes nothing; otherwise its history holds every recent pass since a chosen instant, if evictions spared it from then on. |
| `RateGate.HistoryStaysBounded` | src/modules/security/mod.rs:277-299 | The history never holds more than 1001 sources. |
| `RateLimiter.RateLimiter.EnforceHardRateLimit` | src/modules/security/mod.rs:265-330 | The whole new state of one counted packet: history, cooldown, block and drop count. |
| `RateLimiter.RateLimiter.BlockIpTemporarily` | src/modules/security/mod.rs:408-423 | Blocks every source but loopback until the given expiry, pruning only what has expired. |
| `RateLimiter.RateLimiter.IsIpTemporarilyBlocked` | src/modules/security/mod.rs:381-406 | Blocked until its expiry, then removed. |
| `RateLimiter.RateLimiter.AdmitPacket` | src/modules/dns/mod.rs:1446-1460 | The two gates in the handler's order. |
| `Eviction.ShedOldest` | src/modules/security/mod.rs:332-345 | Removes exactly the asked-for number of entries, none younger than one it keeps. |
| `RebindCooldown.AcceptedAMinuteApart` | src/modules/dns/mod.rs:1622-1651 | Two accepted incidents of one pair are at least 60 s apart unless an eviction under saturation dropped the pair between them. |
| `RebindCooldown.TableStaysBounded` | src/modules/dns/mod.rs:1632-1646 | The table never holds more than 1024 pairs. |
| `RebindCooldown.RejectedWithinAMinute` | src/modules/dns/mod.rs:1622-1631 | In every run a call is rejected only when one of the same pair was accepted less than a minute before. |
| `RebindCooldown.EvictionOnlyWhenFull` | src/modules/dns/mod.rs:1632-1646 | No running cooldown is dropped unless 1024 are running, and then a quarter of them. |
| `RebindCooldown.Cooldown.TakeSlot` | src/modules/dns/mod.rs:1622-1651 | Rejects inside the minute and changes nothing; otherwise stamps the pair after pruning and shedding. |
| `Quarantine.InvAlways` | src/modules/security/mod.rs:480-578 | In every reachable state no self or gateway address is quarantined, there are at most 256 entries, and an entry with a current observation agrees with its bound MAC. |
| `Quarantine.ReleasedExactlyOnEvidence` | src/modules/security/mod.rs:480-517 | An update releases an entry if and only if the address is seen with a different MAC or became a self or gateway address; absence never releases, and bindings never change. |
| `Quarantine.ReleasedOnOtherDigits` | src/modules/security/mod.rs:480-517 | The same on the texts observed: the last usable sighting of the address shows a MAC whose hex digits differ, up to case, from the bound one's. |
| `Quarantine.AcceptedExactly` | src/modules/security/mod.rs:171-191 | A MAC text is accepted exactly when its alphanumerics are twelve hex digits, neither all 0 nor all F. |
| `Quarantine.SameMacExactly` | src/modules/security/mod.rs:171-191 | Two accepted texts normalise alike if and only if their hex digits agree up to case. |
| `Quarantine.NormalFormIsNormal` | src/modules/security/mod.rs:183-190 | The result has 17 characters, a colon at every third place, and normalises to itself. |
| `Quarantine.AcceptedRequests` | src/modules/security/mod.rs:519-569 | A request is accepted exactly for a usable, observed address that is not this machine's or a gateway's, on an inventory at most 300 seconds old, while there is room. |
| `Quarantine.RefusalReasons` | src/modules/security/mod.rs:519-569 | Each refusal names a reason that holds. |
| `Quarantine.QuarantineHolds` | src/modules/security/mod.rs:480-578 | Over any run an entry stays, with its MAC, until such evidence or an operator removes it. |
| `Quarantine.QuarantineStore.UpdateInventory` | src/modules/security/mod.rs:480-517 | The new inventory from at most 4096 observations, later ones winning, and the releases it forces. |
| `Quarantine.QuarantineStore.QuarantineIp` | src/modules/security/mod.rs:519-569 | Refuses for the first reason in the program's order, otherwise binds the observed MAC; repeated requests change nothing. |
| `Quarantine.QuarantineStore.UnquarantineIp` | src/modules/security/mod.rs:571-578 | Removes that address only. |
| `Quarantine.QuarantineStore.Observe` | src/modules/security/mod.rs:195-209 | Records a normalised binding and reports whether it is new or changed. |
| `LocationScan.ScanLocation` | src/modules/security/location_scan.rs:208-340 | On every finite directory graph, cyclic or not, the scan terminates; counts exactly the files among the entries it dealt with, each canonical directory at most once; sets each flag only for its cause; ascending progress, at most 0.95 if cancelled; and unless interrupted has read every reachable readable directory to its end. |
| `LocationScan.UncancelledAccounts` | src/modules/security/location_scan.rs:234-316 | If nobody cancels: with fewer files than the budget the report is the exact total over the reachable readable directories, and with more the budget is used up and reported. |
| `LocationScan.TotalsAreFiles` | src/modules/security/location_scan.rs:268-316 | The totals are the numbers of allowed files that scanned clean or as threats, that were threats, and that lacked metadata, had a wrong size or failed to scan. |
| `LocationScan.CoversAgree` | src/modules/security/location_scan.rs:234-316 | That total does not depend on the order the directories are read in. |
| `LocationScan.CoverExists` | src/modules/security/location_scan.rs:234-316 | Every location has a list of its reachable readable directories, each once, so the total always exists. |
| `LocationScan.RunWorklist` | src/modules/security/location_scan.rs:234-316 | The loop keeps its invariant: tally, flags and polls accounted for by what was read; it ends uninterrupted only with nothing seen and readable left unread, and if cancellation stays set at most the last directory is cut short. |
| `LocationScan.AllReached` | src/modules/security/location_scan.rs:234-316 | A dry worklist has covered everything a path of enterable directories leads to. |
| `LocationScan.SoftProgress` | src/modules/security/location_scan.rs:195-206 | The running ratio is between 0 and 0.95 for all counts. |
| `LocationScan.ProgressInNumbers` | src/modules/security/location_scan.rs:195-206 | The ratio is 0.95 of the scanned files over min(scanned + 12 * waiting + 8, max(budget, scanned)). |
| `LocationScan.ProgressDoesNotFall` | src/modules/security/location_scan.rs:195-206 | The ratio does not fall when more files were scanned and no more directories wait. |
| `Discovery.ReadDnsName` | src/modules/monitor/discovery.rs:157-194 | Terminates on every buffer, pointer cycles included, and returns what the bytes spell, each label decoded lossily, and where the name ends in place. |
| `Discovery.ReadsExactlyWhatIsSpelled` | src/modules/monitor/discovery.rs:157-194 | A name is returned if and only if the bytes spell it, in the sense of RFC 1035 section 4.1.4, with at most 63 labels and pointers together. |
| `Discovery.EndAdvances` | src/modules/monitor/discovery.rs:167-186 | After a successful read the position is strictly greater and within the buffer. |
| `Discovery.PlainNameReadsBack` | src/modules/monitor/discovery.rs:157-194 | A plainly encoded name reads back exactly when it has at most 63 labels. |
| `Discovery.CompressedNameReadsBack` | src/modules/monitor/discovery.rs:175-185 | Labels followed by a pointer to an encoded suffix read back as both together, exactly when labels and pointers number at most 63. |
| `Discovery.ReadersAgree` | src/modules/monitor/discovery.rs:157-194 | On a parsable question this reader and the responder's parser give the same name and end, up to this one's lower limit. |
| `Discovery.ExtractMdnsServices` | src/modules/monitor/discovery.rs:196-236 | Exactly the distinct names starting with an underscore that the readable PTR records point to. |
| `MdnsMessages.ServicesAreTargets` | src/modules/monitor/discovery.rs:196-236 | On an encoded message with readable names the names collected are what its PTR records point to. |
| `BlockStats.CleanMeansPersisted` | src/modules/stats.rs:53-176 | In every interleaving of recorders and flusher, with writes failing and restarts anywhere: when the dirty flag is clear and nothing is in flight, reloading under the current keys gives the in-memory counts. |
| `BlockStats.RestartLosesNothing` | src/modules/stats.rs:53-87 | From such a state a restart under the same keys changes nothing. |
| `BlockStats.NoBlockIsLost` | src/modules/stats.rs:89-129 | In every interleaving within one day and week: once nothing is in flight both counters have gone up by the number of recordings started, modulo 2^64. |
| `BlockStats.RecordRuns` | src/modules/stats.rs:124-129 | A recording nothing interrupts raises both counters by one and marks them dirty. |
| `BlockStats.RollRuns` | src/modules/stats.rs:105-121 | A roll nothing interrupts zeroes exactly the counters whose key changed. |
| `BlockStats.FlushRuns` | src/modules/stats.rs:142-176 | A flush nothing interrupts writes memory and clears the flag, or on failure leaves file and flag as they were. |
| `BlockStats.Stats.RecordBlock` | src/modules/stats.rs:124-129 | Rolls at most once a second, counts one, and leaves the counters dirty. |
| `BlockStats.Stats.RollIfNewPeriod` | src/modules/stats.rs:89-122 | Nothing within a second of the last check; otherwise the counters of a new period restart at zero. |
| `BlockStats.Stats.FlushIfDirty` | src/modules/stats.rs:142-176 | The file equals memory after a successful flush; a failed one stays dirty. |
| `AdBlock.AdBlockControls.RecordBlock` | src/modules/dns/client_policy.rs:202-235 | At any clock value the hour's bucket gains one; buckets are distinct hours of the recorded day, at most 24, and sum to the total until 2^64 blocks. |
| `AdBlock.HourlyCountsTheBlocks` | src/modules/dns/client_policy.rs:217-228 | After any recordings of a day there is one bucket for each hour with a block, holding the number of clock values in that hour. |
| `AdBlock.BumpCountsOne` | src/modules/dns/client_policy.rs:93-95 | A bump counts its key once more, up to 2^64 - 1, and no other. |
| `AdBlock.BumpKeepsTheLargest` | src/modules/dns/client_policy.rs:96-101 | Nothing is dropped while the keys fit the cap; otherwise half of the cap remains and nothing dropped was counted more often. |
| `AdBlock.AdBlockControls.ClearStats` | src/modules/dns/client_policy.rs:237-248 | Empties totals, lists and buckets and keeps the recorded day. |
| `AdBlock.AtMost24` | src/modules/dns/client_policy.rs:217-227 | Distinct hours of one day number at most 24, so the 48-bucket eviction never loses a count. |
| `AdBlock.BumpEntry` | src/modules/dns/client_policy.rs:93-102 | Counts the key, and above the cap keeps only the cap / 2 largest counts. |
| `Backup.MacPayload` | src/modules/backup.rs:113-133 | The fields behind their 64-bit lengths, lists end to end. |
| `Backup.DecodesBack` | src/modules/backup.rs:113-133 | The framed fields can be read back from the message, uniquely. |
| `Backup.PayloadDeterminesFields` | src/modules/backup.rs:113-133 | Two packages have equal messages if and only if version, creation time, configuration and the concatenated lists agree. |
| `Subnet.BoundedSubnetHosts` | src/modules/monitor/lan_scanner.rs:36-60 | Strictly ascending, exactly the addresses of a window of min(cap, 254) that are hosts of the masked subnet and not the local address; the window starts at the first host, or cap / 2 before the local address in a subnet larger than cap. |
| `Subnet.HostsAreTheSubnet` | src/modules/monitor/lan_scanner.rs:41-49 | First to last are the addresses with the subnet's network part, less the two with host part all zeros or all ones when the prefix is at most 30. |
| `Subnet.WindowReachesValue` | src/modules/monitor/lan_scanner.rs:49-57 | In a subnet larger than the cap the window starts at the least host no more than cap / 2 below the local address. |
| `Subnet.EndsInRange` | src/modules/monitor/lan_scanner.rs:41-49 | First and last host are 32-bit addresses in order for every address and prefix, so nothing overflows. |
| `Subnet.InsideIsSameSubnet` | src/modules/monitor/lan_scanner.rs:41-43 | Every address from network to broadcast has the same masked network. |

## Left out

- User interface, tray, hotkeys, sockets, HTTP, DoH racing, tokio tasks and real files: wiring and foreign calls; their outcomes are inputs.
- Windows calls, registry, DPAPI, ICMP, process memory and all cryptography: no semantics visible in the repository.
- Entropy, DGA, file-analysis and speed heuristics and the large constant tables: no crisp promise to prove.
- ETag bookkeeping in `load_blocklists`: a mixed 200/304 round stores new ETags without rebuilding, so a stored ETag does not mean its rules are on disk.
- Lock poisoning, weak memory ordering, and a lookup that inserts into the memo after a reload cleared it: engine calls are sequential; only the counters and the responder interleave.
- The file behind an opened store being replaced or damaged while the store is in use: a lookup is given the bytes it reads.
- I/O errors while building a store, its temporary file and the atomic rename: `Build` covers the errors that depend on the names.
- Sorting is a library call in the source; `SortDedup` here and the selection loop in `ShedOldest` stand for it by their results.
- `RateGate.NoWindowExceedsLimit`: both gates read one clock value per packet, and the bound is for windows in which no eviction took the source's recent history, because eviction forgets what it counted.
- `BlockEngine.DnsBlocker.LoadStore`: the program swaps in any file `open` accepts; one whose buckets are not sorted by hash, which `build` never writes, is left out, because a binary search over it may miss names (a reported hit is real even then, `DiskStore.Contains`).
- `MemoWalk.AllRightIffNoneEndangered`: with shared slots whether a memo survives depends on every other name asked for; then only `MemoWalk.WrongOnlyIfReached` and `MemoWalk.WrongIffSpoiled` apply.
- `MemoWalk.WrongOnlyIfReached`: the hash has no collision among the finitely many names in play (two of them may share a slot); a full 64-bit collision would also mix up answers.
- `DomainRules.CompactCoveredDomains`: lowering is ASCII; the normalised feed has ASCII names only.
- `Discovery.ReadDnsName`: how invalid UTF-8 in a label is repaired is a parameter. Label lengths 64 to 191 are taken as plain lengths, as the code does.
- `LocationScan.ScanLocation`: a directory is its canonical identity and skippability belongs to it; with exactly as many files as the budget, whether the budget is reported depends on where the last file stands; `estimate_scannable_files` is not modelled; progress is exact rather than floating-point.
- `BlockEngine.DnsBlocker.SetCustomRules`: rule texts are lowered and trimmed as ASCII, and the table of public suffixes is a parameter.
- `DnsMessages.MinTtlIsLeast`: one question, because the decoder skips exactly one; what it makes of other messages is not described beyond `DnsMessages.NoQuestionMisleads`.
- `Responder.CachedWithinTtl`: one question and the answers the decoder reads, because the other replies that are accepted can be cached for longer than their records allow.
- `DnsMessages.FirstAExactly`: in longer messages a misread pointer lands on other bytes of the message and may by chance find an A record.
- `DnsMessages.PrivateIsExact`: private means the program's ranges, which do not contain the IPv6 address `::`; on bytes that are no RFC 1035 message the scan is what `DnsAnswers` computes.
- The subnet mask is written with remainders; that `value & (u32::MAX << k)` is `value - value % 2^k` is not proved bit by bit.
- `BlockStats.CleanMeansPersisted`: key locks are ignored, which only adds interleavings.
- `Quarantine.InvAlways`: address text is parsed by a parameter; incidents and alerts an action records are not modelled.
- `Responder.RepliesMatchIffSeparated`: what the rate limit, the detectors and the response policy say about a packet, the client's mode and `should_block`'s answer are inputs of each step; `ResponderTheorems.BlockedNameIsSinkholed` puts the block lists' answer in.
- `MemoWalk.OnlyTheDiskDecides`: for caches the engine can reach; an arbitrary table could hold any answer.
- `BlockStats.NoBlockIsLost`: within one day and week; a recording between another's change of key and its reset of the count is zeroed with the old period.
