# Verified models of yuhaiin

This project states and proves, in Dafny, what the stateful core of the proxy promises: how a Set of
nodes races its members, how pooled buffers hand out and take back storage, how traffic is counted,
how the nested key-value stores agree, how legacy settings are decoded and repaired, and how nodes,
tags, rules, connection events and the live log are kept in order.

`dafny verify dfyconfig.toml` checks everything. The modules do not depend on each other except where
one builds on another; Options and Words hold what several of them share.

| file | subject |
|---|---|
| SetRace, SetNesting, SetDial | the racing dial of a Set; Sets inside Sets, cyclic ones included; races within races |
| Pool, Buffer | size-class pool of byte slices; the growing and shrinking buffer on top of it |
| TotalCache, Telemetry | traffic totals and traffic per dimension, with concurrent counting |
| KeyRange, Caches | byte key ranges; flat prefixed store against nested maps |
| Wire, BypassProto | Protocol Buffers wire format; decoders of the legacy settings |
| ProxyStore, NodeTags, NodeRuntime | concurrent proxy cache; tag resolution; node table with its cache |
| Notify | batches of connection events |
| RuleMatch, RuleOrder | compiling rules to matchers; ordering rules in memory and in the table |
| ChainRepair, FakeIPImport | repairs of migrated chains; import of legacy FakeIP entries |
| LogTail | live log lines and the hand-over from snapshot to stream |

Code that changes objects step by step is modelled by classes and loops that are proved against a
specification (a queue of bytes, a list of names, a map). Code whose interest is concurrency
(SetRace, TotalCache, ProxyStore, Telemetry, Notify) is modelled as a machine over its atomic operations, and
the theorems hold in every interleaving.

Some expectations turn out not to hold of the code. The model keeps the code as it is, shows an input
where the expectation fails and proves exactly when it holds:

- Reordering a rule relative to itself loses the rule in memory and is refused by the store
  (`SliceKeepsElementsIff`, `SliceAndStoreAgreeIff`).
- A second node repair can make a chain longer when its legacy form has a whole split before a partial
  one (`WholeSplitGrows`; exactly when: `IdempotentIff`), but after one repair more than the legacy chain
  has whole splits nothing changes any more (`RepairsEnd`). A second transport repair makes the chain
  longer exactly when conversion renames a transport it puts back (`MergeIdempotentIff`).
- A lost partial split that stood right before a whole one is not rebuilt (`RebuildsIff`).
- `any`, `not` and a nested `all` are skipped when a rule is compiled, so that a rule may accept too
  much (`NegationIsLost`; exactly when: `CompiledIsIntendedIff`, `RuleIsIntendedIff`).
- Two tags that mirror each other never resolve (`MirrorsCanLoop`; exactly when: `StopsIffNoCycle`).
- A total that could not be read at the start lets the stored total shrink (`NeverLowersIff`). After
  Close the reported total counts the last delta twice (`ClosedCountsTwice`), a second Close stores it
  twice (`SecondCloseStoresTwice`), and a Load that is not atomic is off by what the worker takes off in
  between (`LoadReports`).
- A subscriber can keep a closed connection for ever: one that was pending when it got its snapshot
  (`JoinedTooEarly`), one that was stored but not pushed yet (`JoinedBeforePush`), or one whose removal
  went out between its snapshot and its registration (`MissedRemoval`). `JoinInStepIff` says exactly when
  a registered subscriber stays up to date for ever, and `QuietJoin` what is enough at the snapshot. A
  batch missed in between need not do harm (`MissedHarmless`). A connection whose removal is recorded
  before it is pushed is announced and never removed (`RemovedBeforePush`).
- A follower of the log that joins in the middle of a line sees that line twice (`TailJoinsIff`).
- A slash in a name or a key can make the flat store confuse buckets (`SlashesCollide`); all runs over
  given addresses agree with the nested store exactly when these are separate (`AlwaysAgreeIff`), which
  the FakeIP buckets are although their names have slashes (`FakeIPBucketsAreSeparate`). Listing a bucket
  of the flat store also lists the buckets below it (exactly when: `RunListingIff`). A bucket kept across
  its deletion behaves differently in the two stores (`StaleBucket`; exactly when: `RunHandleIff`,
  `KeepBucket`).
- Settings are decoded over defaults that show through where a scalar is zero (`DefaultsShowThrough`), and
  a list without a name takes the one it is filed under (`UnnamedTakesKey`; exactly when both do not
  matter: `RoundTripIff`).
- Saving a node while it is being loaded leaves a proxy of the old settings in the cache
  (`SaveInBetween`; exactly when, for any operations in between: `DialAcross`), and so does dialing a node
  of a group that is being replaced (`DialInBetween`; exactly when: `ReplaceAcross`).
- Clearing idle proxies closes members of a Set that is in use (`MemberIsDropped`; exactly when:
  `KeepsMembersIff`).
- Bytes credited to a connection while it is being removed never reach the table
  (`CreditDuringRemoval`; exactly when: `BytesStrandedIff`).

## Model

| member | source | states |
|---|---|---|
| SetRace.ReachableInv | pkg/node/set.go:117-190 | every reachable state of the race satisfies the invariant: offers in order, joined errors exactly those of failed offers, at most one winner, every cancellation explained |
| SetRace.AtMostOneConnection | pkg/node/set.go:145-187 | in every interleaving at most one connection is handed over, and it is the one the caller has |
| SetRace.ErrorMeansAllFailed | pkg/node/set.go:125-187 | unless the parent was cancelled, an error is returned only if every member failed, and carries each member's error exactly once |
| SetRace.NeverStuck | pkg/node/set.go:117-190 | a state has no possible step left exactly when caller, offering goroutine and all dials have ended |
| SetRace.LateDialCloses | pkg/node/set.go:155-172 | a dial that finishes after the caller left can close its connection and can no longer deliver it |
| SetRace.StepLowersRank | pkg/node/set.go:117-190 | every step lowers a measure |
| SetRace.RunBounded | pkg/node/set.go:117-190 | no schedule of a race over n members has more than 6n + 5 steps |
| SetRace.NoConnectionLeaks | pkg/node/set.go:109-190 | when all have ended, every connection made is closed or is the caller's, and the index this race stored is the winner's |
| SetRace.OneSuccessSuffices | pkg/node/set.go:117-190 | unless the parent was cancelled, one successful dial makes the caller get a connection |
| SetRace.CanWin | pkg/node/set.go:117-190 | for every Set and every offer there is a run in which all before it fail or have no dialer and its connection becomes the caller's |
| SetRace.CanWinRace | pkg/node/set.go:125-190 | for every offer there is a run in which it wins while all before it are under way, and these close the connections they get |
| SetRace.CanFail | pkg/node/set.go:125-187 | there is a run in which all members fail, and the caller gets the errors of all |
| SetRace.CanBeCancelled | pkg/node/set.go:117-190 | there is a run in which the parent cancels, and the caller gets that cause |
| SetRace.LastIdInRange | pkg/node/set.go:109-115 | the index that one race stores stays within -1 and the number of members |
| SetRace.RacesRunAlone | pkg/node/set.go:109-190 | any number of races of one Set, started and interleaved at will, each run as if alone, so that the results above hold of each |
| SetRace.SharedIndex | pkg/node/set.go:109-115 | the index that all races of a Set share is the one at the beginning or that of a connection some race handed to its caller, and always names a member |
| SetRace.LastRecordWins | pkg/node/set.go:109-115 | the shared index is the member of the last recorded dial of a race that stores its index, and the first value if there was none |
| SetNesting.OfferOrderIsPermutation | pkg/node/set.go:47-76 | with or without a cached index, each member is offered exactly once, the cached one first |
| SetNesting.Offer | pkg/node/set.go:47-76 | the loop offers a prefix of that order, up to the first refusal |
| SetNesting.TakenIsBeginning | pkg/node/set.go:47-76 | what is offered is the beginning of the order through the first refusal, or all of it |
| SetNesting.EntryLowersRemaining | pkg/node/set.go:87-101 | each accepted entry into a Set uses up one of its ten entries and lowers the sum over all Sets |
| SetNesting.EntersIff | pkg/node/set.go:87-101 | an entry is accepted exactly when one is left |
| SetNesting.TenEntries | pkg/node/set.go:87-101 | of nested entries into one Set the first ten are accepted, all others refused |
| SetNesting.ChainEntries | pkg/node/set.go:87-101 | along a nesting chain no Set is entered more often than it still may, whatever other goroutines enter meanwhile |
| SetNesting.NestingBounded | pkg/node/set.go:87-101 | nesting is at most ten times the number of Sets deep and enters each Set at most ten times, on every graph |
| SetNesting.PingReachesExactly | pkg/node/set.go:198-220 | a Ping answers exactly when a member that answers is reachable, on every graph of Sets and in every order of trial: the entry limit costs nothing |
| SetNesting.PingFollowsPath | pkg/node/set.go:198-220 | an answer comes along a path of Sets to a member that answers |
| SetNesting.PathAnswers | pkg/node/set.go:198-220 | a path through Sets not entered yet is never cut off |
| SetNesting.FreshAlwaysEnter | pkg/node/set.go:87-101 | Sets not entered yet are never refused, whatever other goroutines do to the shared counters |
| SetNesting.DialReachesLive | pkg/node/set.go:87-101 | if a live member is reachable, there is a way to it on which no Set is ever refused, under any interference |
| SetDial.DialDeliversIff | pkg/node/set.go:87-190 | a dial through Sets of Sets, each running its race, that is not cancelled from outside delivers a connection exactly when a live member is reachable, on every graph, in every interleaving and under any interference |
| SetDial.SomeDial | pkg/node/set.go:87-190 | on every graph every stored node has a dial that runs to its end |
| SetDial.LiveIsDelivered | pkg/node/set.go:87-190 | a live member that can be reached is reached by such a dial |
| SetDial.PathDelivers | pkg/node/set.go:117-190 | a live member on a way without loops is not missed by the nested races |
| SetDial.DeliveredFollowsPath | pkg/node/set.go:117-190 | a connection delivered by nested races comes from a live member, whatever was cancelled |
| SetDial.CancelledEarly | pkg/node/set.go:117-190 | a dial under way finds the race's context cancelled only when the parent was or the caller left with a connection |
| Pool.NextLogRoundsUp | pkg/pool/pool.go:54-57 | the rounded-up logarithm gives the least power of two not below the size |
| Pool.PrevLogRoundsDown | pkg/pool/pool.go:59-66 | the rounded-down logarithm brackets the capacity between neighbouring powers of two |
| Pool.BucketInRange | pkg/pool/pool.go:70-99 | every size served and every capacity taken back has one of the 32 buckets |
| Pool.Pool.GetBytes | pkg/pool/pool.go:70-87 | returns storage of at least the size and less than four times it, which nobody else owns |
| Pool.Pool.Take | pkg/pool/pool.go:70-87 | what a bucket yields, reused or new, has the bucket's capacity range |
| Pool.Pool.PutBytes | pkg/pool/pool.go:89-99 | takes back storage from its owner only; it then waits in the bucket of its capacity beside all that waited before, unless it is empty or too large and is dropped |
| Pool.Pool.OnlyInItsBucket | pkg/pool/pool.go:89-99 | no storage waits in two buckets |
| Buffer.Buffer.GetBuf | pkg/pool/buffer.go:120-125 | storage for n bytes is never the storage in use |
| Buffer.Buffer.ReturnBuf | pkg/pool/buffer.go:113-118 | only storage above the bootstrap size goes back to the pool, once |
| Buffer.Buffer.Relocate | pkg/pool/buffer.go:93-103 | moving to other storage keeps the unread bytes and never overlaps the old storage |
| Buffer.Buffer.Extend | pkg/pool/buffer.go:76-104 | makes room in place, by sliding or in new storage, keeping the unread bytes in front |
| Buffer.Buffer.Slide | pkg/pool/buffer.go:89-103 | sliding to the front keeps the unread bytes |
| Buffer.Buffer.Shrink | pkg/pool/buffer.go:296-316 | keeps the unread bytes and leaves at most 64 bytes or eight times what is stored |
| Buffer.Buffer.Write | pkg/pool/buffer.go:232-235 | appends the bytes, all of them |
| Buffer.Buffer.WriteByte | pkg/pool/buffer.go:198-202 | appends the byte |
| Buffer.Buffer.Grow | pkg/pool/buffer.go:206-209 | makes room for n more bytes without changing the contents |
| Buffer.Buffer.Read | pkg/pool/buffer.go:283-294 | takes bytes off the front, end of file only when there are none and some were asked for |
| Buffer.Buffer.Next | pkg/pool/buffer.go:221-229 | takes at most n bytes off the front and returns them as a view of the storage in use |
| Buffer.Buffer.View | pkg/pool/buffer.go:145-147 | the view of the contents is the storage itself |
| Buffer.Buffer.ReadByte | pkg/pool/buffer.go:188-195 | takes one byte off the front if there is one |
| Buffer.Buffer.Truncate | pkg/pool/buffer.go:173-179 | keeps the first n unread bytes, panics exactly when there are fewer |
| Buffer.Buffer.Reset | pkg/pool/buffer.go:182-185 | empties the buffer and gives its storage up |
| Buffer.Buffer.WriteTo | pkg/pool/buffer.go:239-250 | the writer gets a prefix of the contents and the rest stays |
| Buffer.Buffer.ReadFrom | pkg/pool/buffer.go:259-279 | appends exactly what the reader yields, until it reports its end or an error; the end is no error |
| Buffer.PerformAll | pkg/pool/buffer.go:173-294 | every sequence of operations on a buffer is a run of a plain byte queue |
| Buffer.FirstInFirstOut | pkg/pool/buffer.go:173-294 | as long as nothing is cut off, what came out followed by what is inside equals what was inside followed by what went in |
| Buffer.PerformBeside | pkg/pool/buffer.go:106-125 | buffers that share a pool never change each other's bytes |
| TotalCache.NothingIsLost | pkg/statistics/cache.go:76-139 | in every interleaving the reported total is the start plus all bytes added plus exactly the delta in flight, modulo 2^64, and every byte moved is in the hourly table, in a failed write or about to be written |
| TotalCache.LoadReports | pkg/statistics/cache.go:120-139 | a Load that reads the counters one after the other reports all bytes added by then plus what was in flight at its first read, less what the worker took off in between; the error lies between minus what was moved meanwhile and the delta in flight |
| TotalCache.StepExact | pkg/statistics/cache.go:76-99 | a write never lowers the stored total of either direction |
| TotalCache.StoredIsMonotone | pkg/statistics/cache.go:76-156 | later writes store at least what earlier ones stored and never more than was added |
| TotalCache.NeverLowersIff | pkg/statistics/cache.go:52-102 | stored totals never shrink in any run exactly when the stored total was not above the loaded one |
| TotalCache.CloseStoresEverything | pkg/statistics/cache.go:141-156 | a first Close that succeeds stores the start plus everything added before it took the counters, whatever the database held and whatever the worker did |
| TotalCache.ClosedCountsTwice | pkg/statistics/cache.go:141-156 | after Close the reported total counts the last delta once too often, and is right exactly when that delta was zero |
| TotalCache.SecondCloseStoresTwice | pkg/statistics/cache.go:141-156 | a second Close stores the delta of the first once more: its total is right exactly when that delta was zero |
| TotalCache.StoresWhatWasRead | pkg/statistics/cache.go:77-97 | a write stores beside its own direction the total reported of the other one when the worker read it, whatever was added since |
| TotalCache.CanSync | pkg/statistics/cache.go:77-97 | an idle worker can move, write and take off all that is pending in either direction |
| KeyRange.UpperBound | pkg/cache/pebble/pebble.go:185-198 | the in-place carry computes the least key above all keys with the prefix, or none if it is all 0xff |
| KeyRange.RangeIsPrefix | pkg/cache/pebble/pebble.go:69-85 | a key lies between prefix and upper bound exactly when it starts with the prefix |
| KeyRange.ClearedKeys | pkg/cache/pebble/pebble.go:40-45 | Clear spares exactly the empty key and the keys from ff ff ff ff on |
| Caches.CachePrefix | pkg/cache/pebble/pebble.go:162-179 | the loop builds each name followed by a slash behind the base prefix |
| Caches.BucketRangeHasEnd | pkg/cache/pebble/pebble.go:181-198 | the range of a bucket always has an upper bound |
| Caches.EncodedPrefix | pkg/cache/pebble/pebble.go:147-179 | without slashes in names and keys, an encoded key has a bucket's prefix exactly when it belongs to that bucket or one below |
| Caches.EncodeInjective | pkg/cache/pebble/pebble.go:147-160 | no two bucket-key pairs without slashes share an encoding |
| Caches.SlashesCollide | pkg/cache/pebble/pebble.go:147-160 | a slash in a key reproduces the encoding of another bucket |
| Caches.Flat.Get | pkg/cache/pebble/pebble.go:47-58 | returns what the table holds under the encoding |
| Caches.Flat.Put | pkg/cache/pebble/pebble.go:60-63 | sets exactly the encoded key |
| Caches.Flat.Delete | pkg/cache/pebble/pebble.go:65-67 | removes exactly the encoded key |
| Caches.Flat.DeleteBucket | pkg/cache/pebble/pebble.go:116-123 | removes exactly the keys with the bucket's prefix; without names, nothing |
| Caches.Flat.Range | pkg/cache/pebble/pebble.go:69-85 | yields exactly the keys with the bucket's prefix, cut off |
| Caches.Memory.LoadOrCreateBucket | pkg/cache/memory/cache.go:45-50 | finds or creates the sub-bucket without changing any answer |
| Caches.Memory.NewCache | pkg/cache/memory/cache.go:52-58 | reaches the bucket of the path without changing any answer |
| Caches.Memory.Get | pkg/cache/memory/cache.go:19-22 | returns what the path's bucket holds and changes no answer |
| Caches.Memory.Put | pkg/cache/memory/cache.go:24-27 | changes exactly the answer for that path and key |
| Caches.Memory.Delete | pkg/cache/memory/cache.go:29-32 | changes exactly the answer for that path and key |
| Caches.Memory.DeleteBucket | pkg/cache/memory/cache.go:64-74 | empties exactly the bucket and everything below it |
| Caches.Replay | pkg/cache/pebble/pebble.go:47-123 | both stores answer every run as specified (the last value put and not deleted or dropped since, by path or by encoded key), and alike wherever the addresses of the run are separate |
| Caches.PerformNested | pkg/cache/memory/cache.go:19-74 | after any operations the nested store holds for each path and key the last value put that was not deleted or dropped since |
| Caches.PerformFlat | pkg/cache/pebble/pebble.go:47-123 | the same of the flat store by encoded key and prefix |
| Caches.AlwaysAgreeIff | pkg/cache/pebble/pebble.go:147-179 | all runs over given addresses and droppable buckets get the same answers from both stores exactly when encodings are distinct and no dropped prefix starts the encoding of an address outside its bucket |
| Caches.PlainIsSeparate | pkg/cache/pebble/pebble.go:147-179 | names and keys without slashes are separate |
| Caches.SiblingsAreSeparate | pkg/cache/pebble/pebble.go:147-179 | buckets side by side are separate, whatever their keys, if no prefix starts another |
| Caches.FakeIPBucketsAreSeparate | pkg/legacy/migrate/pebble.go:178-184 | the two buckets of the FakeIP import are separate, although the name of one has a slash |
| Caches.RunsAreSame | pkg/cache/pebble/pebble.go:47-123 | after any run without slashes the two stores hold the same, and every key of the flat one encodes a bucket and a key |
| Caches.RangesAgreeIff | pkg/cache/pebble/pebble.go:69-85 | of two stores that hold the same, listing a bucket agrees exactly when the buckets below it are empty |
| Caches.RunListingIff | pkg/cache/pebble/pebble.go:69-85 | after any run without slashes, listing a bucket agrees in both stores exactly when the run left nothing in the buckets below |
| Caches.StaleBucket | pkg/cache/memory/cache.go:64-74 | a bucket obtained before its deletion is detached in the nested store and alive in the flat one |
| Caches.PutThroughSeenIff | pkg/cache/memory/cache.go:24-27 | a write through a bucket obtained earlier is seen alike by both stores exactly when the bucket is still attached or the value was there already |
| Caches.HandleGoodIff | pkg/cache/memory/cache.go:45-58 | all writes through a bucket are seen alike exactly when it is attached |
| Caches.RunHandleIff | pkg/cache/memory/cache.go:45-58 | so it is of every bucket after any run without slashes |
| Caches.KeepBucket | pkg/cache/memory/cache.go:45-74 | a bucket stays attached through a run exactly when no operation dropped it or one above it; once detached it stays so |
| Wire.VarintRoundTrip | pkg/legacy/chore/sqlite_db.go:1640-1660 | every 64-bit number survives varint encoding and decoding, whatever follows it |
| Wire.NextOfEncoded | pkg/legacy/chore/sqlite_db.go:1640-1728 | the first field read off an encoded field and any rest is that field, and the rest is untouched |
| Wire.DecodeMessage | pkg/legacy/chore/sqlite_db.go:1640-1728 | the decoding loop ends, consuming bytes every round, and applies field after field; any malformed field is an error |
| Wire.DecodeOfEncoded | pkg/legacy/chore/sqlite_db.go:1640-1728 | decoding encoded fields applies exactly these fields in order |
| Wire.DecodeJoin | pkg/legacy/chore/sqlite_db.go:1640-1728 | input behind whole fields is decoded on top of them: concatenation merges, and the last value wins |
| Wire.UnknownFieldIgnored | pkg/legacy/chore/sqlite_db.go:1640-1728 | a well-formed unknown field, groups included, may stand at any field boundary without effect |
| Wire.NextOfWritten | pkg/legacy/chore/sqlite_db.go:1640-1728 | a tag with a number, eight bytes, counted bytes, four bytes, or fields up to the end tag of its group is one field, groups nested at will up to the limit |
| Wire.ProperFieldIgnored | pkg/legacy/chore/sqlite_db.go:1640-1728 | every such field that is unknown may stand at any field boundary without effect |
| Wire.RefusedFieldFails | pkg/legacy/chore/sqlite_db.go:1640-1728 | a field that the decoder refuses is the error of the whole input |
| BypassProto.UnmarshalBypass | pkg/legacy/chore/sqlite_db.go:1640-1728 | of what an encoder wrote, the rules, the lists (named after their key if they have no name) and the scalars that are not zero come back, the other scalars are those decoded into; on any input, what is decoded into matters only for scalars the input does not mention, never for the outcome, the rules or the lists |
| BypassProto.TextRoundTrip | pkg/legacy/chore/sqlite_db.go:1899-1926 | a one-string message decodes to its string |
| BypassProto.NetworkRoundTrip | pkg/legacy/chore/sqlite_db.go:1927-1954 | a one-number message decodes to its number, negative ones included |
| BypassProto.SourceRoundTrip | pkg/legacy/chore/sqlite_db.go:1955-1987 | an inbound source decodes to its name and its names in order |
| BypassProto.RuleRoundTrip | pkg/legacy/chore/sqlite_db.go:1833-1897 | a condition decodes to the same condition |
| BypassProto.OrRoundTrip | pkg/legacy/chore/sqlite_db.go:1800-1831 | an alternative decodes to the same conditions in the same order |
| BypassProto.RuleV2RoundTrip | pkg/legacy/chore/sqlite_db.go:1730-1798 | a rule decodes to the same rule with its alternatives in the same order |
| BypassProto.TextsRoundTrip | pkg/legacy/chore/sqlite_db.go:2050-2077 | repeated strings decode to the same strings in order |
| BypassProto.ListRoundTrip | pkg/legacy/chore/sqlite_db.go:1989-2049 | a list decodes to the same list |
| BypassProto.EntryRoundTrip | pkg/legacy/chore/sqlite_db.go:1605-1636 | a map entry decodes to its name and its message |
| BypassProto.BypassRoundTrip | pkg/legacy/chore/sqlite_db.go:1640-1728 | a whole configuration decoded over any other gives its rules in the same order, its nonzero scalars and the lists written, in whatever order and however often, the last of a key winning |
| BypassProto.FiledAll | pkg/legacy/chore/sqlite_db.go:1699-1721 | in whatever order the lists of a map are written, each comes back, with its key for a name if it had none |
| BypassProto.RoundTripIff | pkg/legacy/chore/sqlite_db.go:1640-1728 | the configuration itself comes back exactly when each of its zero scalars is zero where it is decoded into and each of its lists has a name or is filed under the empty one |
| BypassProto.UnnamedTakesKey | pkg/legacy/chore/sqlite_db.go:1713-1717 | a list without a name filed under "x" comes back with the name "x" |
| BypassProto.DefaultsShowThrough | pkg/legacy/schema/config/default.go:63-65 | over the defaults, a configuration without resolvers comes back with the default ones |
| BypassProto.DecodeAlike | pkg/legacy/chore/sqlite_db.go:1640-1728 | decoding the same input over two configurations gives two errors or results that agree wherever the input had its say |
| BypassProto.UnknownSettingIgnored | pkg/legacy/chore/sqlite_db.go:1715-1726 | an unknown field between settings changes nothing |
| BypassProto.UnknownRuleFieldIgnored | pkg/legacy/chore/sqlite_db.go:1730-1798 | an unknown field inside a rule changes nothing |
| BypassProto.UnknownConditionFieldIgnored | pkg/legacy/chore/sqlite_db.go:1833-1897 | nor does one inside a condition |
| BypassProto.UnknownAlternativeFieldIgnored | pkg/legacy/chore/sqlite_db.go:1800-1831 | nor inside an alternative |
| BypassProto.UnknownSourceFieldIgnored | pkg/legacy/chore/sqlite_db.go:1955-1987 | nor inside a source |
| BypassProto.UnknownListFieldIgnored | pkg/legacy/chore/sqlite_db.go:1989-2049 | nor inside a list |
| BypassProto.UnknownEntryFieldIgnored | pkg/legacy/chore/sqlite_db.go:1605-1636 | nor inside the entry a list is filed in |
| BypassProto.LastModeWins | pkg/legacy/chore/sqlite_db.go:1730-1798 | whatever came before, the last mode of a rule is its mode |
| BypassProto.WrongSettingFails | pkg/legacy/chore/sqlite_db.go:1640-1728 | a known setting of the wrong type, or a rule or list that cannot be decoded, is an error wherever it stands |
| BypassProto.WrongRuleFieldFails | pkg/legacy/chore/sqlite_db.go:1730-1798 | so is a field of the wrong type in a rule, or an alternative that cannot be decoded |
| BypassProto.WrongConditionFails | pkg/legacy/chore/sqlite_db.go:1800-1987 | so it is in alternatives, conditions and sources |
| BypassProto.WrongListFieldFails | pkg/legacy/chore/sqlite_db.go:1989-2049 | so it is in lists and their entries |
| BypassProto.LowBitsKept | pkg/legacy/chore/sqlite_db.go:1640-1728 | an enumeration keeps the low 32 bits of any number |
| BypassProto.FlagOfNumber | pkg/legacy/chore/sqlite_db.go:1640-1728 | a flag of the settings is set by every number but zero, whatever came before |
| BypassProto.RuleFlagOfNumber | pkg/legacy/chore/sqlite_db.go:1730-1798 | so is that of a rule |
| ProxyStore.EveryProxyAccounted | pkg/node/store.go:47-103 | in every interleaving each proxy ever created is cached, in the hands of one deleting goroutine or closed, and was closed at most once |
| ProxyStore.CloseIsFinal | pkg/node/store.go:92-103 | after Close the store is empty and stays empty, nothing more is created, and every proxy is closed or in the hands of a Delete of somebody else that had begun before Close returned |
| ProxyStore.LeftByOthers | pkg/node/store.go:74-103 | a proxy still open when Close has returned was taken out of the store by a Delete of somebody else |
| ProxyStore.CanLoad | pkg/node/store.go:47-72 | on an open store a loader is admitted and finds the stored proxy or stores a new one |
| ProxyStore.CanFailToLoad | pkg/node/store.go:47-72 | a loader that cannot make its proxy leaves everything as it was |
| ProxyStore.CanDelete | pkg/node/store.go:74-86 | a stored proxy can be taken out and closed |
| ProxyStore.CanClose | pkg/node/store.go:92-103 | in every reachable state Close can come to its end, and then all that was stored is closed |
| NodeTags.Insert | pkg/store/node.go:217-238 | adding a tag row adds that row only |
| NodeTags.InsertKeepsOrder | pkg/store/node.go:217-238 | the rows stay ordered by tag, node targets before tag targets, then by target |
| NodeTags.WithoutKeepsOrder | pkg/store/node.go:240-248 | so they do when rows are deleted |
| NodeTags.GetTag | pkg/store/node.go:256-285 | a tag has exactly the targets of its rows and is a mirror exactly when one row names a tag |
| NodeTags.FirstTarget | pkg/store/node.go:256-285 | a tag's first target is that of its first row in table order |
| NodeTags.MixedTagFollowsNode | pkg/node/runtime.go:324-346 | a tag with node and tag targets goes on with a tag named like its first node |
| NodeTags.StopsIffNoCycle | pkg/node/runtime.go:324-346 | resolution stops exactly when the chain of mirrors visits no tag twice; a tag that lists itself first ends it |
| NodeTags.ResolvableIff | pkg/node/runtime.go:324-346 | whether a tag resolves can be told after as many steps as there are rows |
| NodeTags.MirrorsCanLoop | pkg/node/runtime.go:324-346 | two tags can be made to mirror each other, and then neither resolves |
| NodeTags.EndIsOne | pkg/node/runtime.go:324-346 | a chain of mirrors ends at one tag at most |
| NodeTags.ResolvedIsNode | pkg/node/runtime.go:324-346 | what a tag resolves to is a node target of some row |
| NodeTags.TagConn | pkg/node/runtime.go:324-346 | returns the picked target of the tag where the chain of mirrors ends if that tag is no mirror and has targets, else nothing |
| NodeRuntime.Runtime.DeleteProxy | pkg/node/store.go:74-86 | closes the cached proxy of an id once and forgets it |
| NodeRuntime.Runtime.ClearIdle | pkg/node/runtime.go:157-172 | keeps exactly the proxies whose id a selection or a tag refers to |
| NodeRuntime.Runtime.Save | pkg/node/runtime.go:83-94 | stores the node as given, with origin manual, and drops its old proxy; refuses exactly nodes without id or name, and everything once closed |
| NodeRuntime.Runtime.ReplaceRemote | pkg/node/runtime.go:96-110 | without operations in between, stores the given points as remote nodes of the group, the last of an id winning, and of the others keeps exactly those that were not remote nodes of the group, unchanged; all or none; the proxies of the given ids are dropped in any case, and those that became idle on success; the cache stays up to date |
| NodeRuntime.ReplacedUpToDateIff | pkg/store/node.go:45-74 | a replacement leaves a cache up to date exactly when each cached proxy whose node it writes was built from just that node |
| NodeRuntime.ReplaceAcross | pkg/node/runtime.go:96-110 | with any operations between dropping the proxies and the transaction, the group is replaced in the nodes found then, and the cache is up to date exactly when nobody cached a proxy of an older node for an id that is written and in use |
| NodeRuntime.DialInBetween | pkg/node/runtime.go:96-110 | a selected node dialed in between keeps a proxy of the old settings |
| NodeRuntime.Runtime.StoreRemote | pkg/store/node.go:45-74 | inserts the given nodes over those kept, failing on the first malformed one |
| NodeRuntime.Runtime.Remove | pkg/node/runtime.go:112-122 | removes the node, its tag rows and its proxy, and clears what became idle |
| NodeRuntime.Runtime.Use | pkg/node/runtime.go:124-133 | selects a stored node for both networks and clears what became idle |
| NodeRuntime.Runtime.Tag | pkg/node/runtime.go:135-144 | adds the tag row and clears what became idle |
| NodeRuntime.Runtime.DeleteTag | pkg/node/runtime.go:146-155 | removes exactly the rows of the tag and clears what became idle |
| NodeRuntime.Runtime.LoadOrCreate | pkg/node/store.go:47-72 | returns the cached proxy or one new proxy, which is then cached |
| NodeRuntime.Runtime.GetDialerByID | pkg/node/runtime.go:309-322 | hands out a proxy exactly when the runtime is open, the node is stored and the proxy is cached or can be built; it was built from the node stored now |
| NodeRuntime.Runtime.SelectedID | pkg/store/node.go:172-193 | the selected id is stored and in use |
| NodeRuntime.Runtime.Get | pkg/node/runtime.go:262-307 | the proxy of the node that the tag resolves to is the result whenever it can be had, before any mode; else direct, block, or the proxy of the node selected for the network; a proxy was built from the stored node, and its id is in use |
| NodeRuntime.SelectedByNetwork | pkg/node/runtime.go:282-307 | without a tag, and unless the mode is direct or block, the proxy is that of the node selected for networks starting with tcp or with udp |
| NodeRuntime.Runtime.CloseSet | pkg/node/set.go:222-241 | closing a Set drops exactly its members that nothing refers to |
| NodeRuntime.Runtime.Close | pkg/node/runtime.go:64-81 | after Close nothing is cached and every proxy ever made was closed |
| NodeRuntime.Runtime.Step | pkg/node/runtime.go:64-322 | each operation takes tables, cache and counters to the state, and hands out the proxy, that its specification says |
| NodeRuntime.Runtime.Serve | pkg/node/runtime.go:64-322 | over every run of all operations, each takes the state it finds to the one its specification says and hands out exactly the specified proxy, which was built from the node stored at that moment, under the id asked for or one in use; every proxy made is cached or was closed once |
| NodeRuntime.AnswerIsRight | pkg/node/runtime.go:262-322 | in any state with an up-to-date cache, a proxy handed out is that of the stored node, cached from then on, under the id asked for or one in use |
| NodeRuntime.ClosedForGood | pkg/node/runtime.go:64-81 | once closed, no run changes anything and nothing is handed out |
| NodeRuntime.SaveInBetween | pkg/node/runtime.go:245-260 | loading and caching are two steps: a save in between leaves a proxy of the old settings in the cache |
| NodeRuntime.CachedLateIff | pkg/node/runtime.go:245-260 | caching a proxy of a node loaded earlier leaves the cache up to date exactly when the node is gone or unchanged |
| NodeRuntime.DialAcross | pkg/node/runtime.go:245-260 | with any operations between loading and caching, a proxy is made exactly when the runtime is still open, nobody cached one and it can be built; the cache is up to date exactly when none was made, or the node is gone or unchanged |
| NodeRuntime.KeepsMembersIff | pkg/node/runtime.go:157-172 | whatever is cached, clearing idle proxies keeps those that a Set in use dials through, at any depth, exactly when the direct members of every Set in use are selections or tag targets themselves |
| NodeRuntime.MemberIsDropped | pkg/node/runtime.go:124-172 | a Set is selected and dialed with a member, a tag is added, and the proxy of the member is closed |
| Notify.Store.Push | pkg/statistics/notify.go:167-176 | announces the connection and keeps the length at least what is pending |
| Notify.Store.Remove | pkg/statistics/notify.go:178-194 | forgets an unannounced connection or records the removal; the length never underflows |
| Notify.Store.Dump | pkg/statistics/notify.go:196-225 | hands out everything pending, removals first, and starts over |
| Notify.PushInStep | pkg/statistics/notify.go:167-176 | after a push the next batch still brings the view to the live set |
| Notify.RemoveInStepIff | pkg/statistics/notify.go:178-194 | a removal is lost on a subscriber exactly when the connection is pending although the subscriber has it |
| Notify.DumpInStep | pkg/statistics/notify.go:196-225 | a batch brings a view in step to the live set |
| Notify.RunTimely | pkg/statistics/statistic.go:181-201 | every run keeps store, collector and the batch under way in agreement: what is pending as added is announced and not removed, what is recorded as removed is gone |
| Notify.ViewIsLive | pkg/statistics/notify.go:79-96 | in every run, whenever no connection is half opened or half closed, the next batch brings a subscriber that joined well to exactly the live connections |
| Notify.ComesAndGoes | pkg/statistics/notify.go:79-96 | a subscriber that is up to date gets a new connection with the next batch and loses it with the batch after it closed |
| Notify.JoinedTooEarly | pkg/statistics/notify.go:58-76 | a subscriber whose snapshot has a connection that is pending as added can keep it for ever |
| Notify.JoinedBeforePush | pkg/statistics/statistic.go:193-201 | so can one whose snapshot has a connection that is stored and not pushed yet |
| Notify.MissedRemoval | pkg/statistics/notify.go:58-76 | so can one whose snapshot has a connection whose removal goes out before it is registered |
| Notify.MissedHarmless | pkg/statistics/notify.go:58-76 | a batch missed between snapshot and registration need not do harm |
| Notify.RemovedBeforePush | pkg/statistics/statistic.go:126-135 | a connection whose removal is recorded before it is pushed is announced to every subscriber |
| Notify.JoinInStepIff | pkg/statistics/notify.go:58-96 | a registered subscriber is up to date in every run from then on exactly when it is now and nothing in its view is pending as added or stored and not pushed yet |
| Notify.QuietJoin | pkg/statistics/notify.go:58-76 | a subscriber stays up to date for ever if nothing of its snapshot was pending as added or not pushed yet and no batch with anything in it was dumped and delivered between snapshot and registration |
| RuleMatch.Match | pkg/route/nested.go:160-190 | evaluation decides what the matcher means and makes exactly the tests up to the first that decides, in conjunctions and alternatives |
| RuleMatch.NeededDecide | pkg/route/nested.go:160-190 | a connection with the same answers to the tests made is matched alike |
| RuleMatch.AnyStopsAtFirst | pkg/route/nested.go:182-190 | behind the first alternative that holds nothing is asked |
| RuleMatch.AllStopsAtFirst | pkg/route/nested.go:160-168 | behind the first condition that fails nothing is asked |
| RuleMatch.SortRule | pkg/route/nested.go:372-398 | sorting rearranges the conditions: ports and networks, processes, inbounds, countries, hosts, the rest |
| RuleMatch.CompileExpr | pkg/route/nested.go:312-370 | an expression becomes a matcher that accepts exactly when all its conditions whose object is present hold: the host or process list, the inbound names, the network, the ports or the countries that go with the type |
| RuleMatch.RecognisesConditions | pkg/route/nested.go:317-347 | a condition is compiled exactly when the object that goes with its type is present, and then asks just that of the connection |
| RuleMatch.ParseMatcher | pkg/route/nested.go:312-363 | a rule's matcher accepts exactly when one of its expressions holds, on every connection |
| RuleMatch.Matchers.AppendRules | pkg/route/nested.go:212-228 | the entries decide as the first enabled rule that holds; tags are those of enabled rules |
| RuleMatch.Matchers.Update | pkg/route/nested.go:258-272 | after an update the first accepting entry has the mode the rules decide |
| RuleMatch.Matchers.Add | pkg/route/nested.go:230-240 | added rules decide only what the earlier ones leave open, and the tags of the enabled ones join the known tags |
| RuleMatch.Matchers.Route | pkg/route/nested.go:274-288 | the mode is that of the first accepting entry, else proxy |
| RuleMatch.AlwaysHoldsIff | pkg/route/nested.go:312-363 | an expression compiles to "always" exactly when no part of it is a condition with its object |
| RuleMatch.IntendedImpliesCompiled | pkg/route/nested.go:312-370 | what is compiled never asks for more than what is meant |
| RuleMatch.CompiledIsIntendedIff | pkg/route/nested.go:312-370 | compiled and meant agree on a connection exactly when the compiled form is not met or every skipped part holds as meant |
| RuleMatch.RuleIsIntendedIff | pkg/route/nested.go:312-363 | the same of a whole rule, which may accept too much and never too little |
| RuleMatch.SimpleIsFaithful | pkg/route/nested.go:312-370 | single conditions and conjunctions of conditions keep their intended meaning |
| RuleMatch.PortRule | pkg/route/nested.go:340-343 | a rule on ports asks about the ports and nothing else |
| RuleMatch.NegationIsLost | pkg/route/nested.go:312-370 | a negation accepts also what it should exclude |
| RuleOrder.InsertBefore | pkg/route/rule.go:232-245 | moves the element directly before the target; beside itself it is lost |
| RuleOrder.InsertAfter | pkg/route/rule.go:247-260 | moves the element directly behind the target; beside itself it is lost |
| RuleOrder.MovedIsRightMove | pkg/route/rule.go:232-260 | a move is a permutation that puts the element next to the target and keeps the order of all others |
| RuleOrder.ReorderSlice | pkg/route/nested.go:242-256 | an exchange swaps the two places and leaves all others; an insertion puts the element directly before or behind the target and keeps the order of the others; anything else changes nothing |
| RuleOrder.SliceIsReordered | pkg/route/nested.go:242-256 | the same said of names: source and target change places, or the source stands directly before or behind the target |
| RuleOrder.SliceKeepsElementsIff | pkg/route/nested.go:242-256 | no rule is lost exactly when none is inserted beside itself |
| RuleOrder.SliceAndStoreAgreeIff | pkg/store/route_rule.go:140-203 | memory and store end in the same order exactly when no rule is inserted beside itself |
| RuleOrder.Reinsert | pkg/store/route_rule.go:172-196 | removing, finding the target again and inserting gives the same move |
| RuleOrder.Rearrange | pkg/store/route_rule.go:153-199 | missing names, unknown operations and insertions beside itself are refused; otherwise source and target change places, or the source stands directly before or behind the target, all others as before |
| RuleOrder.ListingIsUnique | pkg/store/route_rule.go:240-269 | distinct priorities determine the listing |
| RuleOrder.Rules.List | pkg/store/route_rule.go:240-269 | lists all names by rising priority |
| RuleOrder.Rules.UpdateRow | pkg/storage/sqlite/migrations.go:303-304 | a row update is refused exactly when another row has the priority |
| RuleOrder.Rules.Stage | pkg/store/route_rule.go:271-276 | moving the rows below zero one by one is never refused |
| RuleOrder.Rules.Settle | pkg/store/route_rule.go:277-281 | numbering them from one is never refused |
| RuleOrder.Rules.Rewrite | pkg/store/route_rule.go:271-291 | priorities stay distinct after every single row update and end at 1..n in the given order |
| RuleOrder.Rules.SaveRule | pkg/store/route_rule.go:85-113 | without a priority a rule goes to the end, with one it is refused exactly when another rule has it; no other rule moves |
| RuleOrder.Rules.DeleteRule | pkg/store/route_rule.go:115-138 | removes the rule, keeps the order of the others and numbers them 1..n |
| RuleOrder.Rules.ChangePriority | pkg/store/route_rule.go:140-203 | ends with source and target in exchanged places, or the source directly before or behind the target, all others as before, numbered 1..n; changes nothing when it refuses |
| RuleOrder.Rules.Serve | pkg/store/route_rule.go:85-203 | every run of saves, deletes and reorderings keeps priorities distinct and positive, and the order follows the commands one by one |
| ChainRepair.RecoverPartialSplits | pkg/legacy/migrate/node_chain_recovery.go:131-146 | the cursor loop computes the merge and reports a change exactly when there is one |
| ChainRepair.PartialCases | pkg/legacy/migrate/node_chain_recovery.go:131-146 | of the splits exactly those of TCP alone and of UDP alone are partial |
| ChainRepair.RecoveredKeepsChain | pkg/legacy/migrate/node_chain_recovery.go:131-146 | the stored chain stays as an in-order subsequence, and all that is added are partial splits of the legacy chain |
| ChainRepair.IdempotentIff | pkg/legacy/migrate/node_chain_recovery.go:131-146 | repairing twice equals repairing once exactly when no whole split is passed over such that the next step of the result is a partial one that is put back |
| ChainRepair.RepeatedRepair | pkg/legacy/migrate/node_chain_recovery.go:131-146 | otherwise the second repair makes the chain longer |
| ChainRepair.IdempotentWithPartialSplits | pkg/legacy/migrate/node_chain_recovery.go:131-146 | with partial splits only, the repair is idempotent |
| ChainRepair.WholeSplitGrows | pkg/legacy/migrate/node_chain_recovery.go:131-146 | a chain that the second repair makes longer and the third does not change |
| ChainRepair.FewerPassedOver | pkg/legacy/migrate/node_chain_recovery.go:131-146 | each repair that makes a repaired chain longer passes over fewer whole splits than the one before |
| ChainRepair.RepairsEnd | pkg/legacy/migrate/node_chain_recovery.go:131-146 | after one repair more than the legacy chain has whole splits, repairing changes nothing |
| ChainRepair.RebuildsIff | pkg/legacy/migrate/node_chain_recovery.go:131-146 | a chain that lost its partial splits gets the expected kinds back exactly when none of them stood right before a whole split |
| ChainRepair.TypeOf | pkg/legacy/migrate/inbound_transport_recovery.go:173-181 | the type of a legacy transport is its one key; none, several or an empty key give no type |
| ChainRepair.RecoverTransports | pkg/legacy/migrate/inbound_transport_recovery.go:133-171 | the cursor loop computes the merge or the first error with its index, and reports a change exactly when there is one |
| ChainRepair.MergedKeepsChain | pkg/legacy/migrate/inbound_transport_recovery.go:133-171 | the stored transports stay as an in-order subsequence |
| ChainRepair.MergedHasLegacy | pkg/legacy/migrate/inbound_transport_recovery.go:133-171 | the legacy kinds but gRPC are all there in order, if conversion keeps kinds, and all that was not stored is a converted legacy transport |
| ChainRepair.MergesIff | pkg/legacy/migrate/inbound_transport_recovery.go:133-171 | the merge succeeds exactly when every transport but gRPC has one key and converts |
| ChainRepair.MergeIdempotentIff | pkg/legacy/migrate/inbound_transport_recovery.go:133-171 | repairing twice equals repairing once exactly when every transport put back has the kind it is looked up by; otherwise the chain grows |
| FakeIPImport.AddBucket | pkg/legacy/migrate/pebble.go:182-201 | a bucket adds exactly its usable entries; a missing bucket adds none, a broken one is an error |
| FakeIPImport.Collect | pkg/legacy/migrate/pebble.go:172-213 | lists what the two buckets want in domain order |
| FakeIPImport.WantedIsInPrefix | pkg/legacy/migrate/pebble.go:182-201 | every imported address lies in the prefix, the cursor key is no domain, and the second bucket decides about a domain in both |
| FakeIPImport.ContainsIff | pkg/legacy/migrate/pebble.go:182-201 | an address is in a prefix exactly when it is of its kind and their leading bits, read as numbers, are equal |
| FakeIPImport.CursorIff | pkg/legacy/migrate/pebble.go:215-230 | the cursor is exactly what eight big-endian bytes of index and an address of the prefix behind them say; anything else is none |
| FakeIPImport.AssignedIsOneToOne | pkg/legacy/migrate/pebble.go:132-147 | the two statements for an entry keep a one-to-one table one-to-one |
| FakeIPImport.Database.Assign | pkg/legacy/migrate/pebble.go:132-147 | after the delete the unique index never refuses the upsert |
| FakeIPImport.Database.AssignAll | pkg/legacy/migrate/pebble.go:131-148 | an entry stays if none after it wants its address; an old row stays if no entry names its domain or wants its address; other prefixes are untouched |
| FakeIPImport.AfterIsSettled | pkg/legacy/migrate/pebble.go:131-148 | the table after the import said of domains only: wanted rows unless outbid, old rows unless touched |
| FakeIPImport.SettledIsOneToOne | pkg/legacy/migrate/pebble.go:106-165 | the import keeps domains and addresses one-to-one |
| FakeIPImport.LastDomainWins | pkg/legacy/migrate/pebble.go:106-165 | a contested address ends with exactly the lexicographically last domain that wants it |
| FakeIPImport.Database.Migrate | pkg/legacy/migrate/pebble.go:106-165 | imports once per prefix; a marked prefix or an unreadable bucket changes nothing; the cursor is taken over if valid |
| LogTail.LinesJoin | pkg/log/controller.go:256-281 | lines can be read off piece by piece if the unfinished one is carried over |
| LogTail.CutsDoNotMatter | pkg/log/controller.go:244-281 | published lines and the unfinished one depend on the bytes written, not on how they were cut |
| LogTail.Publish | pkg/log/controller.go:256-281 | the published lines, each followed by CR LF or LF, and the kept tail spell the bytes written; no line keeps the CR of its line break |
| LogTail.LinesSpell | pkg/log/controller.go:232-281 | every text is spelled by its lines and its rest |
| LogTail.SpelledLines | pkg/log/controller.go:232-281 | and by no other lines and rest |
| LogTail.ReadString | pkg/log/controller.go:213-215 | the reader yields the next line of the snapshot |
| LogTail.TailFileSnapshot | pkg/log/controller.go:186-235 | the batches together are all lines that spell the file up to the offset, an unfinished last one without one CR at its end; each batch is full but the last |
| LogTail.TailJoinsIff | pkg/log/controller.go:104-162 | snapshot and live lines are the lines of the file, each once, exactly when the follower joined on a line boundary |
| LogTail.Log.Write | pkg/log/controller.go:244-254 | writes what the file takes and gives every follower the lines that finished |
| LogTail.Log.Subscribe | pkg/log/controller.go:293-306 | a new follower starts at the end of the file |
| LogTail.Log.Unsubscribe | pkg/log/controller.go:308-312 | removes that follower only |
| LogTail.Log.Tail | pkg/log/controller.go:104-145 | the snapshot ends exactly where the live stream begins |
| LogTail.Log.FollowerSeesAllIff | pkg/log/controller.go:104-162 | in every state a follower has seen every line of the file once exactly when it joined on a line boundary |
| Telemetry.ParseUint64 | pkg/statistics/telemetry.go:165-174 | reads a decimal number modulo 2^64, zero if anything in it is not a digit |
| Telemetry.FormatThenParse | pkg/statistics/telemetry.go:165-174 | every 64-bit number survives being written and read |
| Telemetry.AddTaken | pkg/statistics/telemetry.go:111-116 | adds to exactly the dimensions of the counter, in both directions |
| Telemetry.Deltas | pkg/statistics/telemetry.go:103-117 | the deltas written as text read back as the totals per dimension |
| Telemetry.StepConserves | pkg/statistics/telemetry.go:55-123 | every atomic step keeps each byte of a dimension in exactly one place |
| Telemetry.EveryByteCounted | pkg/statistics/telemetry.go:55-123 | in every interleaving persisted, lost, in flight and outstanding add up to what was credited, and nothing is lost if no write failed |
| Telemetry.LastFlushSettles | pkg/statistics/telemetry.go:81-123 | once nothing is credited, a flush of the registered counters leaves all that was credited in the table, but for failed writes and what removed counters hold |
| Telemetry.CanFlush | pkg/statistics/telemetry.go:81-123 | an idle recorder can flush so that no registered counter holds anything and nothing is lost |
| Telemetry.StrandedIff | pkg/statistics/telemetry.go:63-69 | a counter that left the registry was swapped before, and strands bytes exactly when some are credited to it after its last swap |
| Telemetry.BytesStrandedIff | pkg/statistics/telemetry.go:63-94 | bytes of a dimension are stranded exactly when some were credited to one of its counters after the last swap of that counter and it left the registry |
| Telemetry.CreditDuringRemoval | pkg/statistics/telemetry.go:63-69 | five bytes credited between the last flush and the deletion of a counter never reach the table |

## Left out

- The HTTP interface, inbound protocols, DNS, GeoIP, trie search, service installation, certificates and metrics: plumbing or libraries without a law of their own.
- SQL text, JSON encoding and schema: a table is a map or a list, a transaction is atomic, and the codec is the identity.
- Clocks, timers, the one-second pause between offers and the interval of flushes: they may fire at any moment.
- `sync.Pool`, `sync.Map`, the single-flight map behind the proxy store and channels of the Go runtime: each of their operations is one atomic step; a bucket of the pool may be emptied at any time.
- SetDial.DialDeliversIff: is about races that have all come to their end, for members whose dialer can be built exactly when they are stored; the dial of a live member that is not cancelled is taken to succeed.
- SetRace.RunBounded: counts steps of one dial, not the time they take; that a dial eventually succeeds or fails is not claimed.
- SetNesting.PingReachesExactly: a Set that is closed and built anew in the middle of a dial gets a fresh counter; this is not modelled.
- Buffer.Buffer.Next: nothing is said of a view once the buffer is written to or read again; Advance, WriteString, String and the constructors over existing storage are left out.
- Buffer.Buffer.ReadFrom: the reader hands over at most the room it is given and the buffer never reads it after an error, as the io.Reader contract asks.
- TotalCache.NothingIsLost: is about the counters at one moment, a Load that reads them one by one is LoadReports; a cache without a database and the trigger that wakes the worker are left out.
- TotalCache.SecondCloseStoresTwice: nothing is added while the second Close runs, and its write succeeds.
- TotalCache.StoredIsMonotone: assumes that start and added bytes stay below 2^64, as do StepExact, NeverLowersIff and CloseStoresEverything.
- Caches.Replay: batches and existence checks are left out.
- BypassProto.BypassRoundTrip: messages shorter than 2^64 bytes whose encoder leaves zero scalars out; all decoding errors are one error, and what the errors say is left out.
- Wire.DecodeMessage: strings are bytes, their validity as UTF-8 is not examined.
- ProxyStore.EveryProxyAccounted: the single-flight map loads or creates in one step.
- NodeTags.TagConn: is called on tags without a cycle of mirrors only, since otherwise it does not return, as StopsIffNoCycle says; NodeRuntime.Runtime.Get likewise.
- NodeRuntime.Runtime.Serve: an operation that asks for a tag with a cycle of mirrors does not come to pass, nor does a replacement whose new ids are cached already.
- NodeRuntime.Runtime.ReplaceRemote: new ids are drawn from outside and are taken not to be cached; operations in between are ReplaceAcross.
- Notify.JoinInStepIff: ids are never reused, and a connection is removed after it was pushed (RemovedBeforePush shows why); a batch is delivered to all registered subscribers at once; the snapshot's bare entry for a connection whose details are not stored yet, sending failures and the waking of the sender are left out.
- RuleMatch.SortRule: sorts a copy; that the slice inside the caller's rule is sorted in place is not captured.
- RuleMatch.Match: what a port range, a network name, a list or a country means is left to the connection; the match history beyond the tests made is left out.
- RuleOrder.Rules.SaveRule: the name is given trimmed, `blank` says whether nothing is left of it; of the other columns nothing is modelled.
- ChainRepair.RecoverPartialSplits: chains are compared as values, so that an empty and a missing list are the same; the outer loops over table rows and their markers are left out.
- FakeIPImport.Database.Migrate: the prefix is given masked, and times of creation and use are left out; the import of total traffic is left out.
- LogTail.Log.Write: rotation of the file and messages dropped because a follower's channel is full are left out, as are cancellation and failing callbacks.
- Telemetry.EveryByteCounted: one direction at a time, for dimensions with less than 2^64 bytes in all; which dimensions a connection has and the counting of failures are left out.
