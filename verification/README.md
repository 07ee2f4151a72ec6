# RedisX in Dafny

A model of the core of RedisX, a C client library for Redis, written as pure Dafny functions
over immutable datatypes, with the library's promises proved about it. A `Redis` instance, its
three clients (interactive, pipeline, subscription), its configuration, and its hook and
subscriber registries are values. Every library call is a function from the old state and its
arguments to a status and the new state. The network is a byte sequence: a client's `input` is
what the server will send and its `output` is what has been sent. What the server answers, the
outcome of a name lookup or a lock, and the results of calls into code that is not modelled are
all parameters.

Modules, one per area of the library:

- `CStrings`: bytes, the C-string view of a buffer, `strlen`, `%d`, `strtol`, and `int` truncation.
- `Header`: the constants of `redisx.h`, the status codes, and the channels.
- `Resp`: the RESP value algebra of `resp.c`.
- `Wire`: the request encoder, the token reader and the reply parser of `redisx-client.c`, with their older twins in `redisx-io.c`.
- `ReplyWire`: the server's wire form of a reply and the parser round trip.
- `Requests`: the request lists that the higher-level helpers send.
- `Cluster`: CRC-16, hash tags and shard lookup.
- `Sorting` and `Tab`: the table and scan helpers of `redisx-tab.c`.
- `Hooks`: the connect and disconnect hook lists.
- `Sub`: publish, subscribe and the subscriber registry.
- `Net`: the connection configuration and client setup of `redisx-net.c`.
- `Sentinel`: the Sentinel server list and master discovery.
- `Redisx`: the instance-level calls of `redisx.c` and the client access of `redisx-client.c`.
- `Script`: the Lua script helpers.

Where a source line does something its authors evidently did not mean, the model has both
versions. The code as written carries the `AsWritten` suffix, and a lemma shows the input on
which it goes wrong. The corrected version is the one the rest of the model uses (see
"## Findings").

## Model

| member | source | states |
|---|---|---|
| CStrings.StrLen | src/redisx-client.c:581-582 | The length taken for an argument without a given length never exceeds its buffer. |
| CStrings.Decimal | src/redisx-client.c:576-584 | `%d` prints at least one byte and no NUL; a non-negative number prints only digits. |
| CStrings.DecimalOfIntIsShort | src/redisx-client.c:584 | Any 32-bit `int` prints in at most 11 bytes, so a header fits a small buffer. |
| CStrings.StrToL | src/redisx-client.c:686-690 | A converted value always lies within the 64-bit `long` range. |
| CStrings.StrToLOfDecimal | src/redisx-client.c:686 | strtol reads back the number `%d` printed, whatever non-digit follows. |
| CStrings.ParseLongOfDecimal | src/redisx-client.c:686 | The `long` parser reads back the number `%d` printed, before any non-digit. |
| CStrings.ParseUnsignedDigits | src/redisx-client.c:686 | Unsigned digits within the long range convert to their magnitude. |
| CStrings.ParseSignedDigits | src/redisx-client.c:686 | A minus sign followed by digits converts to the negated magnitude. |
| CStrings.ToInt32 | src/redisx-client.c:686 | Assigning a long to `int` gives the value congruent modulo 2^32 in the 32-bit range, and keeps any value already in range. |
| Header.VersionString | include/redisx.h:53-85 | The version string is "0.9.0-devel". |
| Header.TypeCharsDistinct | include/redisx.h:88-93 | The six reply type characters are pairwise distinct. |
| Header.RedisCode | include/redisx.h:95-100 | Each REDIS_* status has its number, -101 to -106. |
| Header.RedisStatus | include/redisx.h:95-100 | A number in -106..-101 is the value of exactly one REDIS_* status, and no other number is. |
| Header.StatusOf | include/redisx.h:95-100 | A raw negative status is read back as the named code carrying that number, or as itself. |
| Header.RedisCodesDistinct | include/redisx.h:95-100 | Status codes and their numbers correspond one to one. |
| Header.ChannelOf | include/redisx.h:110-115 | A channel number names a channel exactly when it is below REDISX_CHANNELS (3). |
| Header.ChannelNumbering | include/redisx.h:110-115 | Channels and their numbers 0, 1, 2 are in one-to-one correspondence. |
| Resp.TypeChar | include/redisx.h:88-93 | Exactly the six header kinds have a type byte, and it is one of the header characters. |
| Resp.TypeOfChar | include/redisx.h:88-93 | A byte names a kind exactly when it is one of the six header characters. |
| Resp.TypeCharsRoundTrip | include/redisx.h:88-93 | Type byte to kind and back gives the same byte; kind to byte and back gives the same kind. |
| Resp.ClassifiersPartition | src/resp.c:261-362 | The scalar, string, array and map classifiers are mutually exclusive and FALSE for NULL; PONG is the only kind in none of them. |
| Resp.HasComponentsMeansNonEmpty | src/resp.c:376-380 | On a reply with a payload, redisxHasComponents holds exactly when there is at least one component or entry. |
| Resp.ToXTypeAgreesWithClassifiers | src/resp.c:521-548 | The xchange type follows the classifiers: strings map to X_STRING, arrays to X_FIELD, maps to X_STRUCT. |
| Resp.Check | src/resp.c:150-168 | NULL gives X_NULL; a redirection gives MOVED or MIGRATING; a boolean mismatch or negative size gives X_FAILURE; a missing payload with `n > 0` gives REDIS_NULL; success exactly when no test fails, including type and size. |
| Resp.CheckOld | src/redisx.c:463-472 | The older check: NULL gives a parse error, a negative `n` is passed through as the status, and a size mismatch has its own code. |
| Resp.CheckGenerationsAgree | src/redisx.c:463-472 | On replies other than the RESP3 null and boolean kinds, and not redirected, the two checks accept the same replies. The newer one reports X_FAILURE exactly where the older one passes a negative `n` through, and an older size mismatch on `n >= 0` is a newer unexpected response. |
| Resp.IsEqual | src/resp.c:438-449 | The pointer shortcut, NULL, type and `n` tests; for containers, the result is the memory comparison of the payloads and not value equality. |
| Resp.IsEqualReflexive | src/resp.c:438-449 | A reply equals itself; it equals a different copy of the same value only when that value is a string or has no payload. |
| Resp.IsEqualSymmetric | src/resp.c:438-449 | The comparison is symmetric. |
| Resp.CopyResp | src/resp.c:63-132 | A copy keeps the type and `n`, keeps the first `n` bytes of a string, and copies components and entries one by one. |
| Resp.Copy | src/resp.c:63-132 | The copy is NULL exactly when the original is; otherwise it keeps the type and `n`, and its payloads are exact. |
| Resp.CopyIsEqual | src/resp.c:63-132 | NULL, a reply without payload and a string all compare equal to their copies; copying twice equals copying once. |
| Resp.CopyOfArrayCompared | src/resp.c:448 | A copied array is compared by the bytes of its new pointer array, so the copy need not equal its original. |
| Resp.GetMapEntry | src/resp.c:463-487 | The entry returned is the first one whose key is equal; NULL for a NULL key, a non-map, a map without payload, or no match. |
| Resp.GetKeywordEntry | src/resp.c:501-519 | The entry returned is the first one with a string key equal to the keyword; NULL in the same cases. |
| Resp.KeywordAgreesWithMapEntry | src/resp.c:501-519 | A keyword lookup finds the same entry as a map lookup with the matching bulk-string key. |
| Resp.Append | src/resp.c:391-428 | A NULL target gives X_NULL; a NULL, null-type or empty part leaves the target as it is; a type mismatch or a scalar target is an unexpected response; the undefined target (negative `n`, or no payload with `n > 0`) is its own outcome; success adds the part's `n` and component count to the target's. |
| Resp.AppendConcatenates | src/resp.c:391-428 | After appending, the target's elements come first, then the part's: components for arrays, entries for maps, bytes for strings. |
| Resp.AppendBufferUnterminated | src/resp.c:416-422 | As written, the joined string has no NUL after its last byte. |
| Resp.AppendBufferFixedTerminated | src/resp.c:416-422 | With one more byte allocated, the string ends in a NUL and holds the same `n + m` bytes. |
| Resp.SplitText | src/resp.c:206-244 | NULL gives X_NULL; a reply without payload comes back whole; a verbatim string is a parse error exactly when shorter than 4 bytes, and otherwise loses its 4-byte prefix; kinds other than errors are unexpected; as written, an error split within its text returns one less than the remnant's length. |
| Resp.SplitTextFixedLength | src/resp.c:206-244 | The corrected split returns the exact length of the remnant text. |
| Resp.SplitVariants | src/resp.c:206-244 | The two versions differ only in the remnant length of an error reply that has a remnant. |
| Resp.SplitTextShortByOne | src/resp.c:230-240 | For "ERR x", the remnant length is 0 as written and 1 in the corrected version. |
| Wire.EncodeStream | src/redisx-client.c:566-622 | Whatever the buffer size, and with either encoding step, all sends put together are exactly the RESP2 request frame. |
| Wire.EncodeFlagsLast | src/redisx-client.c:566-622 | Each request has exactly one send flagged as last, and it is the final send. |
| Wire.BoundedEncodingFits | src/redisx-client.c:584-606 | When the capacity test comes before the header, no write goes past the command buffer. |
| Wire.AsWrittenOverflows | src/redisx-client.c:584-589 | As written, arguments of 8176 bytes and then 1 byte write up to index 8193 of an 8192-byte buffer. |
| Wire.ArgLength | src/redisx-client.c:581-582 | An argument's length is never negative. |
| Wire.Payloads | src/redisx-client.c:579-583 | One payload per argument, each cut to the given or strlen length. |
| Wire.Sends | src/redisx-client.c:566-622 | The bytes sent for a request are its frame. |
| Wire.SendBytes | src/redisx-client.c:221-261 | A disabled client refuses with X_NO_INIT and sends nothing; an enabled one appends the bytes to its output. |
| Wire.SendArrayRequest | src/redisx-client.c:566-622 | NULL client gives X_NULL, a disabled one X_NO_INIT; otherwise the frame of the `n` payloads is sent and one reply is pending. |
| Wire.SendFrame | src/redisx-client.c:221-261 | A frame is sent, and one reply becomes pending, exactly on an enabled client. |
| Wire.RequestArgCount | src/redisx-client.c:532-549 | Between 1 and 4 arguments: 1 exactly when arg1 is NULL, 4 exactly when all three are given. |
| Wire.RequestArgs | src/redisx-client.c:532-549 | The list has RequestArgCount entries and starts with the command. |
| Wire.SendRequest | src/redisx-client.c:532-549 | A NULL client gives X_NULL and a NULL command X_NAME_INVALID; it succeeds exactly on an enabled client with a command, which then sends the frame of the argument list with one more reply pending. |
| Wire.SendRequestOld | src/redisx-io.c:420-438 | The older code refuses a NULL client with X_NULL, then a disabled client with X_NO_INIT, and only then a NULL command with X_NAME_INVALID. |
| Wire.SendRequestGenerations | src/redisx-io.c:420-438 | The two versions send the same bytes on an enabled client with a command, and differ only in which check comes first. |
| Wire.RequestCount | src/redisx.c:581-594 | `n` is 0 for a NULL command, otherwise 1 plus the count of leading non-NULL arguments. |
| Wire.MultiIsFrame | src/redisx-client.c:438-447 | The canned MULTI bytes are the encoder's frame for ["MULTI"]. |
| Wire.DiscardIsFrame | src/redisx-client.c:459-470 | The canned DISCARD bytes are the encoder's frame for ["DISCARD"]. |
| Wire.ExecIsFrame | src/redisx-client.c:485-515 | The canned EXEC bytes are the encoder's frame for ["EXEC"]. |
| Wire.SkipIsFrame | src/redisx-client.c:406-415 | The canned CLIENT REPLY SKIP bytes are the encoder's frame for its three words. |
| Wire.ReadToken | src/redisx-client.c:99-166 | A token is the line before the first CR LF, which is consumed; a line longer than the buffer is cut to 253 bytes; with no CR LF the receive fails with X_NO_SERVICE. |
| Wire.ReadTokenLoop | src/redisx-client.c:99-166 | The CR/LF state-machine loop, with its bounded buffer, computes exactly ReadToken. |
| Wire.ReadReply | src/redisx-client.c:654-789 | Only consumes input. A disabled client gives NULL and reads nothing; a failed token read disables the client and drains the input; a reply comes only from an enabled client and is well-formed. |
| Wire.Interpret | src/redisx-client.c:681-776 | The switch on the type byte only consumes input and yields well-formed replies; its branches are stated by the Parse lemmas below. |
| Wire.Dimensioned | src/redisx-client.c:694-745 | The body read for a dimensioned reply only consumes input and yields well-formed replies. |
| Wire.ReadBulk | src/redisx-client.c:725-745 | Only consumes input; a reply is a well-formed bulk string whose `n` is the length read. |
| Wire.ReadItems | src/redisx-client.c:710-713 | Yields exactly `k` results, each well-formed when present, and only consumes input. |
| Wire.ReadReplyConsumes | src/redisx-client.c:654-789 | What a reply leaves unread is a suffix of the input it was given. |
| Wire.ParseInteger | src/redisx-client.c:763-764 | `:<n>` gives an integer reply with value `n` and no payload. |
| Wire.ParseNullBulk | src/redisx-client.c:726 | `$` with a negative length gives a bulk string with no payload. |
| Wire.ParseBulk | src/redisx-client.c:725-745 | `$n` consumes `n + 2` bytes and keeps the first `n`; too few bytes leave NULL with the client still enabled; INT_MAX - 1 and INT_MAX read nothing. |
| Wire.ParseSimple | src/redisx-client.c:747-761 | `+` and `-` give the token after the type byte, with `n` its length. |
| Wire.ParseEmptyArray | src/redisx-client.c:700 | An array with `n <= 0` has no components. |
| Wire.ParseArray | src/redisx-client.c:696-723 | An array with `n > 0` is its `n` parsed components, or NULL if any one is missing. |
| Wire.ParseUntyped | src/redisx-client.c:766-775 | The line "OK" becomes the simple string "OK" with `n` 0; any other untyped line gives NULL with the client enabled. |
| Wire.LegacyPongRejected | src/redisx-io.c:737-743 | As written, the older parser turns every line starting with 'P' into NULL and consumes the line. |
| Wire.LegacyFixedPongAccepted | src/redisx-io.c:737-743 | With the intended comparison, the older parser accepts a PONG line. |
| Wire.GenerationsAgree | src/redisx-io.c:628-768 | On input with no 'P' byte, the older and newer parsers give the same result. |
| ReplyWire.ParseOfWire | src/redisx-client.c:654-789 | Every canonical RESP2 reply is parsed back exactly from its wire bytes, whatever follows them, and counts one pending reply per reply at every depth. |
| ReplyWire.ParseAllItemsOfWire | src/redisx-client.c:710-720 | The component loop reads the components back from their concatenated wire bytes. |
| ReplyWire.RequestReplyWire | src/redisx-client.c:566-622 | A request frame is the wire form of the array of its arguments as bulk strings. |
| ReplyWire.ParseOfRequest | src/redisx-client.c:566-622 | Read by the reply parser, a request frame of `n` arguments is the array of those bulk strings and counts as `n + 1` replies. |
| Cluster.TableIsXmodem | src/redisx-cluster.c:52-85 | Every entry of `crc_tab` is the bitwise CRC-16 with polynomial 0x1021 of its index. |
| Cluster.TableStepByEntry | src/redisx-cluster.c:87-91 | The table-driven step equals the bitwise CRC of the byte it selects. |
| Cluster.CheckValue | src/redisx-cluster.c:87-91 | The table-driven CRC of "123456789" is 0x31C3, the CRC-16/XMODEM check value. |
| Cluster.BitwiseCheckValue | src/redisx-cluster.c:87-91 | The bitwise reference reaches the same 0x31C3, register for register. |
| Cluster.CalcHash | src/redisx-cluster.c:101-110 | Every hash slot is in 0..16383. |
| Cluster.HashTagUsed | src/redisx-cluster.c:101-110 | When the first '{' is followed by a non-empty tag and then '}', only the tag is hashed, so the key falls in the tag's slot. |
| Cluster.TagHashedWhole | src/redisx-cluster.c:101-110 | A key with no '}' is hashed whole. |
| Cluster.NoOpenBraceHashedWhole | src/redisx-cluster.c:101-110 | A key with no '{' is hashed whole. |
| Cluster.EmptyTagHashedWhole | src/redisx-cluster.c:101-110 | An empty "{}" tag after the first '{' makes the whole key hashed. |
| Cluster.UnclosedTagHashedWhole | src/redisx-cluster.c:101-110 | A first '{' with no '}' after it makes the whole key hashed. |
| Cluster.HashOfCheckString | test/test-hash.c:16 | "123456789" hashes to slot 0x31C3. |
| Cluster.HashOfTaggedKey | test/test-hash.c:28 | "{123456789}.blah" hashes to the same slot as its tag. |
| Cluster.SearchFindsFirst | src/redisx-cluster.c:314-364 | The search returns the first usable candidate in shard-then-server order, and returns nothing exactly when there is none. |
| Cluster.GetShard | src/redisx-cluster.c:314-364 | NULL for a NULL cluster, a NULL or empty key, or a missing shard table; any server returned is a usable server of a shard that serves the slot of the key's characters before its NUL. |
| Cluster.GetShardIsFirstCandidate | src/redisx-cluster.c:314-364 | The server returned is the first candidate, and NULL comes back exactly when no shard serving the slot has a usable server. |
| Sorting.StrCmp | src/redisx-tab.c:491-493 | The sign is negative, zero or positive exactly as the first C string is below, equal to or above the second in byte order. |
| Sorting.Sort | src/redisx-tab.c:634 | The sorted list is a permutation of its input (the order it gives is stated by Sorting.SortUniqueSpec). |
| Sorting.Dedupe | src/redisx-tab.c:637-648 | Removing duplicates never lengthens the list, and a non-empty list keeps its last key. |
| Sorting.SortUniqueSpec | src/redisx-tab.c:633-648 | After sorting, removing duplicates and compacting, the keys strictly increase, every element comes from the input, and every input key is present. |
| Tab.SetValue | src/redisx-tab.c:154-183 | A NULL client gives X_NULL, a NULL or empty key X_NAME_INVALID, and a NULL value X_NULL; otherwise it sends, with CLIENT REPLY SKIP first unless confirming. |
| Tab.GetValue | src/redisx-tab.c:206-237 | An empty table name gives X_GROUP_INVALID, then a NULL or empty key X_NAME_INVALID; otherwise exactly one request is sent. |
| Tab.GetKeys | src/redisx-tab.c:398-438 | Exactly an empty table name is refused, with X_NULL; otherwise one request is sent. |
| Tab.SetMatchesGet | src/redisx-tab.c:168-231 | A set is the matching get with SET/HSET in place of GET/HGET and the value appended. |
| Tab.KeysMatchesGet | src/redisx-tab.c:230-413 | Listing and lookup name the same table: global with KEYS/GET/SET, the hash with HKEYS/HGET/HSET. |
| Tab.MultiSet | src/redisx-tab.c:296-341 | Checks in order: NULL client X_NULL, blank table X_GROUP_INVALID, NULL entries X_NULL, count below 1 X_SIZE_INVALID; otherwise the HMSET of the first `n` entries, with a skip first unless confirming. |
| Tab.UnpairPairs | src/redisx-tab.c:322-330 | Reading the key/value arguments back in pairs gives the entries again. |
| Tab.MultiSetRoundTrip | src/redisx-tab.c:322-330 | The arguments after HMSET and the table name, read back in pairs with their lengths, are exactly the entries. |
| Tab.GetTable | src/redisx-tab.c:44-106 | Exactly a NULL or empty table name is refused, with X_GROUP_INVALID; otherwise the one request HGETALL table is sent. |
| Tab.PairsOfArray | src/redisx-tab.c:70 | The flat reply of `k` components is read as `k / 2` entries, entry i holding components 2i and 2i+1. |
| Tab.FillFromSpec1 | src/redisx-tab.c:90-96 | Stepping the loop by 1 fills every index from `i` on with its pair. |
| Tab.FillFromSpec2 | src/redisx-tab.c:90-96 | Stepping the loop by 2 fills every other index from `i` on. |
| Tab.TableEntriesAsWrittenGaps | src/redisx-tab.c:90 | As written, every odd entry stays empty. |
| Tab.TableEntriesAsWrittenLosesSecond | src/redisx-tab.c:90 | For a two-field table, the second field is lost. |
| Tab.TableEntriesComplete | src/redisx-tab.c:90-96 | With the intended step, entry i is pair i for every i. |
| Tab.TableOfArray | src/redisx-tab.c:64-96 | The table read from a RESP2 reply pairs components 2i and 2i+1. |
| Tab.ScanOptions | src/redisx-tab.c:552-562 | MATCH pattern is added when a pattern is given, and COUNT n when the scan count is positive. |
| Tab.ScanRequestsAgree | src/redisx-tab.c:722-742 | HSCAN names the table and otherwise carries SCAN's arguments, and both fit their argument arrays. |
| Tab.ScanTableCheck | src/redisx-tab.c:710-720 | A NULL or empty table is refused with X_NULL, and nothing else is. |
| Tab.ScanKeysSorted | src/redisx-tab.c:633-648 | The names come back in strcmp order without duplicates, each one collected, and every collected name present. |
| Tab.ScanTableSorted | src/redisx-tab.c:825-845 | The entries come back in key order without duplicate keys, each one collected, and every collected key present. |
| Tab.ScanKeysAsWrittenKeepsOrder | src/redisx-tab.c:491-493 | As written the comparator strcmps the bytes of the slots' pointer values, so names whose pointer bytes already ascend in strcmp order, with distinct neighbours, come back as collected. |
| Tab.ScanKeysAsWrittenUnsorted | src/redisx-tab.c:491-493 | Names "b", "a", "b" whose pointer bytes ascend in strcmp order come back unsorted, and with "b" twice. |
| Tab.StoreAsWrittenOverruns | src/redisx-tab.c:601-618 | One batch of 300 names, or 200 and then 400, is stored past the end of the array. |
| Tab.StoreFixedFits | src/redisx-tab.c:594-618 | When the capacity grows until each batch fits, every name received is stored inside the allocation. |
| Hooks.AddHookAppends | src/redisx-hooks.c:33-55 | A hook is appended at the tail exactly when it is not already in the list. |
| Hooks.RemoveHookFilters | src/redisx-hooks.c:66-92 | Removing a hook unlinks every node holding it, and the others keep their order. |
| Hooks.WithoutRemovesAll | src/redisx-hooks.c:66-92 | After removal the callback does not occur, and every other callback keeps its count. |
| Hooks.AddThenRemove | src/redisx-hooks.c:33-92 | Adding then removing a callback is the same as removing it. |
| Hooks.RemoveThenAdd | src/redisx-hooks.c:33-92 | Removing then adding a callback puts it once, at the tail. |
| Hooks.AppendedDistinct | src/redisx-hooks.c:33-55 | Adding keeps a list free of duplicates. |
| Hooks.WithoutDistinct | src/redisx-hooks.c:66-92 | Removing keeps a list free of duplicates. |
| Hooks.ConnectHookOps | src/redisx-hooks.c:33-120 | The connect-hook calls on a live list follow the reference definitions; NULL arguments leave the list alone. |
| Hooks.DisconnectHookOps | src/redisx-hooks.c:134-221 | The same holds for the disconnect-hook calls. |
| Hooks.ListsIndependent | src/redisx-hooks.c:33-221 | Operations on one list never touch the other. |
| Hooks.ClearAsWrittenDangles | src/redisx-hooks.c:111-119 | As written, clearing a non-empty list leaves its head pointing at freed memory. |
| Hooks.ClearLeavesNone | src/redisx-hooks.c:101-120 | With the head reset, a cleared list holds nothing and later additions start afresh. |
| Sub.StemCopy | src/redisx-sub.c:229 | The stored stem stays NULL when NULL, and is otherwise the string up to its NUL. |
| Sub.AddSubscriberOnce | src/redisx-sub.c:203-238 | After adding, the subscriber appears, exactly once if it appeared at most once before; a new entry goes first and existing ones are untouched. |
| Sub.AddSubscriberAsWrittenAgrees | src/redisx-sub.c:214-221 | Whenever the search as written completes, it does what the corrected version does. |
| Sub.AddSubscriberAsWrittenNullStem | src/redisx-sub.c:214-221 | A callback registered for every channel (NULL stem) and then for "a" makes strcmp read the NULL stem. |
| Sub.RemoveSubscribersSpec | src/redisx-sub.c:257-293 | Removal keeps exactly the consumers with other callbacks, in order, and returns how many it unlinked; the two together account for the whole list. |
| Sub.ClearAsWrittenLeaksStems | src/redisx-sub.c:318-323 | As written, clearing frees no stem, though a consumer of "a" owns one. |
| Sub.ClearFreesOwnedStems | src/redisx-sub.c:318-323 | Corrected, clearing frees exactly the stems the consumers own, in list order. |
| Sub.ClearSubscribersSpec | src/redisx-sub.c:304-328 | Clearing empties the list and returns how many consumers it held. |
| Sub.IsGlobPatternIff | src/redisx-sub.c:338-345 | rIsGlobPattern holds exactly when the string contains '*', '?' or '['. |
| Sub.Subscribe | src/redisx-sub.c:367-397 | A NULL instance or a NULL pattern is refused with X_NULL (the command choice is stated by Sub.SubscriptionCommands). |
| Sub.Unsubscribe | src/redisx-sub.c:416-439 | A NULL instance is refused with X_NULL (the requests are stated by Sub.SubscriptionCommands). |
| Sub.SubscriptionCommands | src/redisx-sub.c:367-439 | The pattern commands are used exactly for glob patterns, and NULL ends both kinds of subscription. |
| Sub.PublishAsync | src/redisx-sub.c:87-111 | A NULL instance gives X_NULL and a NULL or empty channel X_NAME_INVALID (the requests are stated by Sub.PublishPayload). |
| Sub.PublishPayload | src/redisx-sub.c:87-111 | On the wire: the skip, then PUBLISH, the channel up to its NUL, and the first `length` data bytes (or the data up to its NUL). |
| Sub.StemMatchesIsPrefix | src/redisx-sub.c:499-505 | The stem test holds exactly when the stem is a prefix of the channel, both read as C strings. |
| Sub.SelectedAreReceivers | src/redisx-sub.c:482-527 | For a channel, exactly the receiving consumers are called, in list order. |
| Sub.MessageDelivered | src/redisx-sub.c:607-610 | A "message" push calls each receiver of its channel, in list order, with no pattern, the message and its length. |
| Sub.PatternMessageDelivered | src/redisx-sub.c:614-617 | A "pmessage" push calls each receiver of its channel, in list order, with the pattern that matched. |
| Sub.OtherRepliesIgnored | src/redisx-sub.c:586-619 | Replies that are not arrays of 3 or 4 components reach no consumer, nor does a "message" with 4 components or a "pmessage" with 3. |
| Net.EffectivePort | src/redisx-net.c:161 | A port of at most 0 means the default port 6379; any positive port is kept. |
| Net.SetServer | src/redisx-net.c:148-167 | A NULL host gives X_NULL and an empty one X_NAME_INVALID; the server is set exactly for a non-blank host whose lookup succeeds. |
| Net.SetServerPort | src/redisx-net.c:161 | The stored port is always positive and the stored host is the C string given; the connection goes to the requested port (6379 for one of at most 0) when it is below 65536, and to that port modulo 65536 otherwise, so 70000 connects to 4464. |
| Net.ConnectPort | src/redisx-net.c:713-719 | The port handed to `connect` is below 65536; it is the configured port when that is between 1 and 65535, and 6379 when it is at most 0. |
| Net.SocketTimeoutExact | src/redisx-net.c:192-197 | The timeval holds exactly the milliseconds, with microseconds below one second, and converts back to them. |
| Net.SetSocketTimeoutSpec | src/redisx-net.c:1045-1054 | A positive timeout is stored; anything else restores the default. |
| Net.LowLatencyChannels | src/redisx-net.c:620-623 | Every channel except the pipeline one is low-latency, and a NULL client is not. |
| Net.HelloLayout | src/redisx-net.c:634-647 | HELLO, the protocol, AUTH with user and password when a password is set, then SETNAME and the id: 7 arguments with a password, 4 without. |
| Net.HelloAsWrittenOverflows | src/redisx-net.c:631-647 | With a password, the seventh argument is stored past the six-slot array. |
| Net.HelloArrayFits | src/redisx-net.c:631-649 | With seven slots every HELLO fits, and the stored arguments are exactly the HELLO arguments. |
| Net.LoginAsWrittenSkipsAuth | src/redisx-net.c:784-786 | As written, with HELLO off nothing is sent at connect time: no AUTH and no SETNAME, whatever the password. |
| Net.LoginSendsCredentials | src/redisx-net.c:784-797 | Corrected, the login always ends with the client name, and with a password some request authenticates with it (and the user, when one is set); HELLO is in use exactly when it is on and succeeds, otherwise the protocol falls back to RESP2; with HELLO on, the corrected and as-written logins agree. |
| Net.LoginsAgree | src/redisx-net.c:246-267 | HELLO and the AUTH fallback authenticate with the same password and user; both end with the client name, and the fallback sends CLIENT REPLY SKIP before its name. |
| Net.ClientIdLayout | src/redisx-net.c:770-777 | The client name ends with the channel's word and fits the `strlen(host) + 100` bytes allocated. |
| Net.ClientIdsDistinct | src/redisx-net.c:770-777 | The three clients of an instance get three different names. |
| Net.ResetIsInitial | src/redisx-net.c:397-417 | Resetting or closing a client, whatever its state, gives its initial state: nothing pending, disabled, an empty buffer, no socket; resetting twice is resetting once. |
| Net.UnregisterRemovesFirst | src/redisx-net.c:563-582 | Unregistering removes the first node for the instance and keeps the others in order. |
| Net.RegisterRoundTrip | src/redisx-net.c:269-280 | Unregistering straight after registering restores the list, and unregistering removes exactly one occurrence of the instance. |
| Net.SetPort | src/redisx-net.c:1009-1028 | A connected instance gives X_ALREADY_OPEN and Sentinel mode X_FAILURE, each leaving the configuration alone; it succeeds in every other case. |
| Net.SetHostname | src/redisx-net.c:970-992 | A NULL or empty name gives X_NULL, a connected instance X_ALREADY_OPEN, and Sentinel mode X_FAILURE, each leaving the configuration alone. |
| Net.SettersChangeOnlyTheirField | src/redisx-net.c:970-1028 | A setter changes only its own field, and only when it succeeds. |
| Net.InitDefaults | src/redisx-net.c:826-886 | An instance is created exactly for a non-blank server whose lookup succeeds; it has one disabled client per channel, numbered by channel and without a socket, the default port, protocol 2 and the default timeout. |
| Sentinel.SetTopSpec | src/redisx-sentinel.c:57-74 | Server `idx` is moved to the top and the others keep their order; the list is a permutation of the original. |
| Sentinel.IncludeMasterSpec | src/redisx-sentinel.c:86-118 | The result has a host at the top, which for a positive port is the master's address. An existing entry for the master is moved there, keeping the count and the multiset; otherwise a new entry is put in front. |
| Sentinel.IncludeMasterTwice | src/redisx-sentinel.c:86-118 | Including the same master twice changes nothing more than including it once. |
| Sentinel.Validate | src/redisx-sentinel.c:260-271 | A blank service name gives X_NAME_INVALID, then a NULL list X_NULL, then a count below 1 X_SIZE_INVALID. |
| Sentinel.ValidateAccepts | src/redisx-sentinel.c:260-271 | A configuration is accepted exactly when it names the service and lists at least one server with its first host set. |
| Sentinel.InitSentinelSpec | src/redisx-sentinel.c:291-322 | An instance is created exactly for an accepted configuration with a successful lookup; it starts at the first host on the default port, with the `n` servers given and the default Sentinel timeout. |
| Sentinel.SetSentinelTimeoutSpec | src/redisx-sentinel.c:337-350 | Without Sentinel the call gives X_NO_INIT; otherwise a positive timeout is stored and anything else restores the default, leaving the servers alone. |
| Sentinel.FindOwnAddress | src/redisx-sentinel.c:90-98 | The search for the address a listed server was connected at finds an entry at that address no later than the server, and always finds one when no host is NULL. |
| Sentinel.IncludeOwnAddress | src/redisx-sentinel.c:86-118 | Including the connected server's own address as the master keeps the list's length and contents and puts an entry at that address on top; with no NULL host it never reaches the strcmp on NULL. |
| Sentinel.UseMaster | src/redisx-sentinel.c:220-232 | The search stops at Sentinel `i`. A refused master address returns a failing status with the error-path timeout and the list untouched; an accepted one gives success, the caller's timeout and the Sentinel moved to the top. |
| Sentinel.DiscoverFromStops | src/redisx-sentinel.c:206-237 | The search stops at the first server that is reachable (a non-blank host that connects) and is the master or names one. It ends with X_NO_SERVICE and the list untouched exactly when no server does, and the strcmp on a NULL host needs a NULL host on the list. |
| Sentinel.DiscoverFromKeeps | src/redisx-sentinel.c:125-237 | The search leaves the caller's timeout and a permutation of the list. A server confirmed as the master by ROLE has an entry at its own address moved to the top, and the INFO fallback leaves the list alone. A Sentinel that names a master is moved to the top when the master's address is set; otherwise the list is untouched. |
| Sentinel.DiscoverSpec | src/redisx-sentinel.c:125-245 | The timeout is restored on every exit and the list is only reordered. The search stops at the first server that is the master or names one. A master confirmed by ROLE ends at the top, and so does the naming Sentinel once the master is set. With no such server the result is X_NO_SERVICE. A list without NULL hosts never reaches the strcmp on NULL. |
| Sentinel.DiscoverAsWrittenStopsAtSentinel | src/redisx-sentinel.c:211 | As written, the search stops at a Sentinel without asking it for the master; corrected, the named master becomes the server. |
| Sentinel.DiscoverMovesMasterToTop | src/redisx-sentinel.c:125-211 | With "a" unreachable and ROLE on "b" saying master, the search stops at "b" and the list becomes ["b", "a"]. |
| Sentinel.DiscoverAsWrittenMissesMaster | src/redisx-sentinel.c:211-218 | As written, that same master is moved to the top, then asked for a master it does not name, and the search ends with X_NO_SERVICE over the reordered list; corrected, it succeeds. |
| Sentinel.DiscoverAsWrittenStopsWithTimeout | src/redisx-sentinel.c:211 | As written, a Sentinel that is not the master ends the search with the caller's timeout, whatever master it would name. |
| Sentinel.DiscoverAsWrittenKeepsSearchTimeout | src/redisx-sentinel.c:226 | As written, the master reporting an empty master host name returns X_NAME_INVALID and leaves the search timeout in place of the caller's; corrected, the search keeps the caller's timeout. |
| Redisx.RedisNumber | src/redisx.c:666-676 | Any number found is the value of a REDIS_* code, and a named code gets its own number. |
| Redisx.ErrorDescriptionsDistinct | src/redisx.c:666-676 | Each REDIS_* code has its own non-empty text, the same for the named status and its raw value; any other code gets the common description. |
| Redisx.ClientAccess | src/redisx-client.c:274-365 | A client is found exactly for a valid channel, and it is that channel's client; the lock is granted exactly on an enabled client; REDIS_INVALID_CHANNEL is never returned. |
| Redisx.ClientsOfNewInstance | src/redisx-client.c:274-285 | In a new instance, each channel maps to the client numbered by it. |
| Redisx.ArrayRequestSpec | src/redisx.c:626-655 | X_NULL exactly for a NULL instance, a NULL argument array or `n < 1`; the request is sent exactly when the client can be locked, and then it is the first `n` arguments and the reply is the server's. |
| Redisx.RequestSpec | src/redisx.c:581-594 | A NULL instance returns without setting the status or sending anything; a NULL command gives X_NULL; whatever is sent is the one request of the command and its arguments up to the first NULL. |
| Redisx.ExpectTextSpec | src/redisx.c:463-472 | Under redisxCheckRESP, a reply of the wrong kind is an unexpected response and one of the right kind succeeds exactly when its string is the expected one; an error code in `n` is passed on, and a missing reply is X_PARSE_ERROR. |
| Redisx.PingSpec | src/redisx.c:280-296 | PING succeeds exactly when the message comes back as a bulk string, or PONG as a simple string; a reply of another kind is unexpected, and no reply gives X_NULL. |
| Redisx.PingRequest | src/redisx.c:284-286 | The request is PING with the message, or PING alone. |
| Redisx.CopyOf | src/redisx.c:99-136 | NULL stays NULL; a string is copied up to its NUL. |
| Redisx.SetCredentials | src/redisx.c:99-136 | Each setter succeeds exactly on an instance not yet connected (a connected one gives X_ALREADY_OPEN), stores a copy of its argument and leaves the other credential alone; a refused call changes nothing. |
| Redisx.CredentialsReachHello | src/redisx-net.c:640-644 | Credentials set before connecting are the ones HELLO authenticates with. |
| Redisx.SwitchSpec | src/redisx.c:370-390 | The corrected loop switches every connected client except the subscription one, and reports X_INCOMPLETE exactly when a subscription is active or the interactive client does not confirm. |
| Redisx.SelectDBState | src/redisx.c:359-394 | The new index is stored, with the rAffirmDB hook registered exactly while it is not 0, and nothing else changes. |
| Redisx.SelectDBSpec | src/redisx.c:359-394 | The call switches the index and keeps the hook registered exactly while the index is non-zero; on a connected instance it sends SELECT to the connected interactive and pipeline clients and succeeds exactly when the interactive one confirms and no subscription is active. |
| Redisx.SelectDBSends | src/redisx.c:376-391 | On a connected instance, the requests are SELECT to the interactive client and CLIENT REPLY SKIP plus SELECT to the pipeline, for whichever are connected; success exactly when no subscription client is connected and the interactive one confirms. |
| Redisx.SelectDBRepeat | src/redisx.c:359-394 | After a switch to `idx`, selecting `idx` again sends nothing and succeeds. |
| Redisx.SelectDBAsWrittenIncomplete | src/redisx.c:381 | As written, a connected instance with the pipeline client unconnected always reports X_INCOMPLETE. |
| Redisx.SelectDBInteractiveOnly | src/redisx.c:381 | With only the interactive client connected and confirming, the result is X_INCOMPLETE as written and X_SUCCESS corrected. |
| Redisx.AffirmDBAsWrittenSendsNothing | src/redisx.c:338-341 | As written, the reconnect hook sends nothing, so new connections stay on database 0. |
| Redisx.AffirmDBSelects | src/redisx.c:338-341 | The corrected hook sends SELECT with the stored index to each connected client except the subscription one, and leaves the instance as it is. |
| Script.LoadRequest | src/redisx-script.c:42-45 | SCRIPT LOAD with the script is sent exactly when the interactive client can be locked, and the reply is the server's. |
| Script.LoadScriptAsWrittenNeverLoads | src/redisx-script.c:47 | As written, no call returns a SHA1: success comes with `*sha1` NULL, and otherwise redisxCheckRESP gets the missing reply and the call gives X_PARSE_ERROR. |
| Script.LoadScriptTestFixedDangles | src/redisx-script.c:55-56 | With only the test fixed, the SHA1 returned points into the freed reply. |
| Script.LoadScriptSpec | src/redisx-script.c:34-59 | A NULL instance gives X_NULL and a NULL or empty script X_NAME_INVALID, both with `*sha1` untouched, and only then; a lock failure or a disconnected interactive client sets `*sha1` to NULL and sends nothing; a bulk-string reply gives its string as the SHA1; the SHA1 never points into a freed reply. |
| Script.ScriptArgsSplit | src/redisx-script.c:89-99 | From the EVALSHA layout, reading the key count back recovers the keys and then the parameters, and nothing else. |
| Script.RunScriptAsyncAsWrittenDiverges | src/redisx-script.c:98 | As written the call agrees with the corrected one exactly when there are no parameters or the call is refused up front. |
| Script.RunScriptAsyncSpec | src/redisx-script.c:80-104 | One EVALSHA request is sent with the SHA1, the key count, every key and every parameter, in order. |
| Script.RunScriptSpec | src/redisx-script.c:122-136 | A run returns the server's answer exactly when the instance, the SHA1 and a connected interactive client are present, after sending that one EVALSHA request. |

## Left out

- Threads, mutexes and the listener threads (the pipeline listener, the subscription listener and the cluster refresh thread) are not modelled. Whether a lock succeeds is a parameter (`lockFails`), and the `rConfigLock` path around setters is not modelled.
- Sockets, `connect`, `setsockopt`, TLS, `uname` and `getppid` are not modelled: their results are parameters or fixed inputs. A send on an enabled client always succeeds, so socket send errors and `errno` are not modelled.
- `malloc`, `calloc` and `realloc` never fail in the model; `exit()` on calloc failure in the parser is not modelled.
- Wire.SendArrayRequest: a request is sent as one all-or-nothing append. The C sends several chunks, so a failure in a later `rSendBytesAsync` can leave a partial request on the socket, with `pendingRequests` not incremented.
- Wire.StepAsWritten: does not model the `int` overflow of `l + 3` and `L + L1` (src/redisx-client.c:587-589) for arguments longer than INT_MAX minus the buffer size; ReplyWire.ParseOfRequest and ReplyWire.RequestReplyWire are stated only for arguments within that bound (`ArgsFit`).
- Wire.ReadReply: has no NULL-client case. A NULL client returns NULL at src/redisx-client.c:663, and the model's `Conn` is always present.
- Wire.ReadReply: the decrement of `pendingRequests` is modelled, but not the lock around it.
- Resp.KeywordsReadable: Resp.GetKeywordEntry requires that no string key has a NULL value. The C would call `strcmp(NULL, ...)` there (src/resp.c:515), which is undefined.
- Header.Status: statuses are a datatype, while the C returns plain `int`s. Resp.CheckOld returns `Code(-102)` for a reply whose `n` is -102, which the C would read as REDIS_NULL; Header.StatusOf gives the reading of such a value.
- CStrings.StrToL: `errno` is taken to be clear before each call. The source never clears it (src/redisx-client.c:687), so a stale ERANGE left by an earlier call is not modelled.
- The X_* status values of the xchange library are not in the source, so they are constructors without numbers. Only the REDIS_* codes carry values.
- The default timeouts (REDISX_DEFAULT_TIMEOUT_MILLIS and the Sentinel default) are defined outside the files modelled, so they are parameters.
- xErrorDescription and xStringCopyOf are modelled from their documented behaviour: the common description is a parameter of Redisx.ErrorDescription, and the copy stops at the NUL.
- redisxError's debug printing and the trace helpers print only, so they are not modelled; a status is returned directly.
- Printing and JSON/XField conversion of replies (src/resp.c:556-941) output text or build xchange structures, so they are left out, except for the type mapping `resp2xType`.
- Resp.IsEqual: the memory comparison of containers, and the bytes of a double, are a parameter (`sameMemory`), because the model has no addresses.
- The RESP3 kinds are parsed by code outside the files modelled. Only their classification is modelled; the wire parser handles the RESP2 kinds and the older PONG.
- Sub.PublishAsync: NULL data is not modelled; `data` is a string.
- Sub.ClearSubscribers: the frees are modelled only as the list of stems freed (Sub.ClearFreed); the nodes themselves are not tracked, since the model has no heap.
- The HELLO reply's `proto` entry, which updates the configured protocol (src/redisx-net.c:655-664), is not modelled: the reply is a parameter.
- Sentinel.InitSentinel: the shallow copy of the server list (src/redisx-sentinel.c:313) and the ownership that rDestroySentinel assumes (353-361) are not modelled.
- Sentinel.Discover: whether a server connects, what rConfirmMasterRoleAsync answers and whether it answered from ROLE or from the INFO fallback, and the SENTINEL reply with the `strtol` of its port are inputs to the search (the `Probe` of each server), not modelled code. Their effect on the search is modelled: the stop, the reorder by rIncludeMasterAsync on a confirmed master, and the addresses set. The realloc failure in rIncludeMasterAsync is not modelled (see the malloc line).
- Redisx.SelectDBWith: the double unlock is not modelled, because locks are not modelled. On a client that is not connected, redisxLockConnected has already unlocked it and returned X_NO_SERVICE (src/redisx-client.c:355-357); that is not REDIS_INVALID_CHANNEL, so redisxSelectDB unlocks it again (src/redisx.c:384 or 389).
- redisxGetTime, redisxSetVerbose, redisxSetTransmitErrorHandler and redisxSetPipelineConsumer only store or print a value, or parse the server clock, so they are left out.
- Cluster discovery, refresh, connect and disconnect (src/redisx-cluster.c:113-290, 388-541) talk to the servers. The shard table is an input to Cluster.GetShard, and whether a server is usable is a parameter.
- CRC-16: the general equality of the table-driven step and the bitwise step over every register is not proved. Instead, every table entry equals its bitwise definition, and both versions reach the check value.
- Sorting.Sort: the sort is stable, while `qsort` (src/redisx-tab.c:634) need not be, so the model fixes which of two equal keys comes first and so which one the duplicate removal keeps. The contracts do not depend on that choice: equal keys are equal names.
- Resp.Append: does not model the `int` overflow of `n + m` (src/resp.c:410-420) when the two lengths add up past INT_MAX; the sums are unbounded.
- Redisx.Ping and Script.LoadScript use the older redisxCheckRESP (src/redisx.c:463-472), as the source does. The cluster redirections and the RESP3 boolean test of Resp.Check do not apply to them.
- Redisx.ResetClient, redisxDeleteEntries, redisxGetStringValue, redisxNotify and redisxPublish are thin wrappers over the modelled requests, so they are not modelled separately.

## Findings

| source | as written | input that shows it | evidently intended | confidence | as-written member | corrected member |
|---|---|---|---|---|---|---|
| src/redisx-client.c:584-589 | the `$l\r\n` header is printed into the 8192-byte buffer before the capacity test | arguments of 8176 bytes and then 1 byte | test the capacity before printing the header | not executed | Wire.AsWrittenOverflows | Wire.BoundedEncodingFits |
| src/resp.c:230-240 | an error reply's remnant length is `n - offset - 1` | the error "ERR x" | the remnant's length, `n - offset` | not executed | Resp.SplitTextShortByOne | Resp.SplitTextFixedLength |
| src/redisx-io.c:737-743 | the token, stripped of CR LF, is compared with "PONG\r\n" | the line "PONG\r\n" | compare with "PONG" | not executed | Wire.LegacyPongRejected | Wire.LegacyFixedPongAccepted |
| src/resp.c:416-422 | an appended string is realloc'ed to exactly `n + m` bytes with no NUL | appending "b" to "a" | allocate one more byte and terminate | not executed | Resp.AppendBufferUnterminated | Resp.AppendBufferFixedTerminated |
| src/redisx-tab.c:90 | the entry loop steps `i += 2` over map entries that are already pairs | a table with two fields | step by 1 | not executed | Tab.TableEntriesAsWrittenLosesSecond | Tab.TableEntriesComplete |
| src/redisx-tab.c:491-493 | compare_strings passes the `char **` slots to strcmp | names "b", "a", "b" whose pointer bytes ascend in strcmp order | compare the strings the slots point to | not executed | Tab.ScanKeysAsWrittenUnsorted | Tab.ScanKeysSorted |
| src/redisx-tab.c:594-618 | the capacity is doubled once, and the first batch is not checked | a first batch of 300 names | grow until the batch fits | not executed | Tab.StoreAsWrittenOverruns | Tab.StoreFixedFits |
| src/redisx-hooks.c:111-119 | clearing frees every node but leaves the list head pointing at the first | clearing a list with one hook | reset the head to NULL | not executed | Hooks.ClearAsWrittenDangles | Hooks.ClearLeavesNone |
| src/redisx-sub.c:214-221 | the duplicate search calls strcmp on a stored NULL stem | a callback for all channels (NULL stem), then the same callback for "a" | treat NULL stems as unequal to a string | not executed | Sub.AddSubscriberAsWrittenNullStem | Sub.AddSubscriberOnce |
| src/redisx-net.c:631-647 | HELLO arguments go into `const char *args[6]` | a configured password (7 arguments) | an array of 7 | not executed | Net.HelloAsWrittenOverflows | Net.HelloArrayFits |
| src/redisx-sentinel.c:211 | the search stops when rConfirmMasterRoleAsync fails | a Sentinel that is not itself the master; or "a" unreachable and "b" the master | stop when the role is confirmed, else ask the Sentinel | not executed | Sentinel.DiscoverAsWrittenMissesMaster | Sentinel.DiscoverSpec |
| src/redisx-sentinel.c:226 | `prop_error` returns before the caller's timeout is restored | a master reported with an empty host name | restore the timeout on every exit | not executed | Sentinel.DiscoverAsWrittenKeepsSearchTimeout | Sentinel.DiscoverSpec |
| src/redisx.c:381 | only clients answering REDIS_INVALID_CHANNEL are skipped | a connected instance whose pipeline client is not connected | skip every client that cannot be locked | not executed | Redisx.SelectDBAsWrittenIncomplete | Redisx.SelectDBSpec |
| src/redisx.c:338-341 | rAffirmDB calls redisxSelectDB with the index already stored, which returns at line 367 | a reconnect with database 2 selected | send SELECT on the new connections | not executed | Redisx.AffirmDBAsWrittenSendsNothing | Redisx.AffirmDBSelects |
| src/redisx-net.c:784-786 | the AUTH and SETNAME fallback runs only when HELLO was tried and failed | `hello` off (it is never set on in these files) with a password configured | run the fallback whenever HELLO is not in use | not executed | Net.LoginAsWrittenSkipsAuth | Net.LoginSendsCredentials |
| src/redisx-sub.c:318-323 | each node is freed, but not the `channelStem` it owns | one consumer of "a" | free the stem as redisxRemoveSubscribers does (line 275) | not executed | Sub.ClearAsWrittenLeaksStems | Sub.ClearFreesOwnedStems |
| src/redisx-script.c:47 | the reply is taken as the SHA1 only when its check fails | any successful SCRIPT LOAD | take the SHA1 when the check succeeds | not executed | Script.LoadScriptAsWrittenNeverLoads | Script.LoadScriptSpec |
| src/redisx-script.c:55-56 | the SHA1 points into the reply, which is then destroyed | a successful SCRIPT LOAD with the test fixed | detach the string before destroying the reply | not executed | Script.LoadScriptTestFixedDangles | Script.LoadScriptSpec |
| src/redisx-script.c:98 | the parameter loop increments `i` and not `k` | one key and one parameter | increment `k` | not executed | Script.RunScriptAsyncAsWrittenDiverges | Script.RunScriptAsyncSpec |
