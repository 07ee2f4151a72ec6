/** The table helpers of redisx-tab.c: argument checks and request layouts for SET / HSET /
    HMSET / GET / HGET / KEYS / HKEYS / HGETALL / SCAN / HSCAN, the pairing of an HGETALL
    reply into entries, and the sort / de-duplicate / compact post-processing and storage
    growth of the scans. Sending and reading are not modelled here: a helper's outcome is
    the requests it sends (see Requests). */
module Tab {
  import opened CStrings
  import opened Header
  import opened Requests
  import opened Sorting

  /** RedisEntry: a key, its value, and the number of bytes in the value. */
  datatype Entry = Entry(key: seq<byte>, value: seq<byte>, length: int)

  /** The command words. */
  const SET: seq<byte> := Ascii("SET")
  const HSET: seq<byte> := Ascii("HSET")
  const GET: seq<byte> := Ascii("GET")
  const HGET: seq<byte> := Ascii("HGET")
  const KEYS: seq<byte> := Ascii("KEYS")
  const HKEYS: seq<byte> := Ascii("HKEYS")
  const HMSET: seq<byte> := Ascii("HMSET")
  const HGETALL: seq<byte> := Ascii("HGETALL")
  const SCAN: seq<byte> := Ascii("SCAN")
  const HSCAN: seq<byte> := Ascii("HSCAN")
  const MATCH: seq<byte> := Ascii("MATCH")
  const COUNT: seq<byte> := Ascii("COUNT")
  const ALL_KEYS: seq<byte> := Ascii("*")

  // ---------------------------------------------------------------- single values

  /** redisxSetValueAsync. `client` says whether `cl` is non-NULL. A NULL table sets a global
      value (SET key value), otherwise a field of the hash table (HSET table key value); an
      empty table name is not refused here. */
  function SetValue(client: bool, table: Option<seq<byte>>, key: Option<seq<byte>>,
                    value: Option<seq<byte>>, confirm: bool): (r: Outcome)
    ensures !client ==> r == Refused(NullArg)
    ensures client && Blank(key) ==> r == Refused(NameInvalid)
    ensures client && !Blank(key) && value.None? ==> r == Refused(NullArg)
    ensures r.Sends? <==> client && !Blank(key) && value.Some?
    ensures r.Sends? ==> |r.requests| == (if confirm then 1 else 2)
                         && (!confirm ==> r.requests[0] == SKIP_REPLY)
  {
    if !client then Refused(NullArg)
    else if Blank(key) then Refused(NameInvalid)
    else if value.None? then Refused(NullArg)
    else
      var req := if table.None? then Plain([SET, key.value, value.value])
                 else Plain([HSET, table.value, key.value, value.value]);
      Sends(Confirmed(confirm, req))
  }

  /** redisxGetValue: an empty table name is refused, then a NULL or empty key; a NULL table
      reads a global value (GET key), otherwise a field (HGET table key). */
  function GetValue(table: Option<seq<byte>>, key: Option<seq<byte>>): (r: Outcome)
    ensures table.Some? && StrLen(table.value) == 0 ==> r == Refused(GroupInvalid)
    ensures !(table.Some? && StrLen(table.value) == 0) && Blank(key) ==> r == Refused(NameInvalid)
    ensures r.Sends? <==> !(table.Some? && StrLen(table.value) == 0) && !Blank(key)
    ensures r.Sends? ==> |r.requests| == 1
  {
    if table.Some? && StrLen(table.value) == 0 then Refused(GroupInvalid)
    else if Blank(key) then Refused(NameInvalid)
    else if table.None? then Sends([Plain([GET, key.value])])
    else Sends([Plain([HGET, table.value, key.value])])
  }

  /** redisxGetKeys: an empty table name is refused with X_NULL; a NULL table lists the global
      keys (KEYS *), otherwise the fields of the table (HKEYS table). */
  function GetKeys(table: Option<seq<byte>>): (r: Outcome)
    ensures r.Refused? <==> table.Some? && StrLen(table.value) == 0
    ensures r.Refused? ==> r.status == NullArg
    ensures r.Sends? ==> |r.requests| == 1
  {
    if table.Some? && StrLen(table.value) == 0 then Refused(NullArg)
    else if table.None? then Sends([Plain([KEYS, ALL_KEYS])])
    else Sends([Plain([HKEYS, table.value])])
  }

  /** A set and a get of the same field address it alike: the set request is the get request
      with SET / HSET in place of GET / HGET and the value appended, and the hash-table form
      is used exactly when a table is named. */
  lemma SetMatchesGet(table: Option<seq<byte>>, key: Option<seq<byte>>, value: seq<byte>, confirm: bool)
    requires !Blank(key) && !(table.Some? && StrLen(table.value) == 0)
    ensures var s := SetValue(true, table, key, Some(value), confirm);
            var g := GetValue(table, key);
            s.Sends? && g.Sends? &&
            var sa := s.requests[|s.requests| - 1].args;
            var ga := g.requests[0].args;
            |sa| == |ga| + 1 && sa[1..|ga|] == ga[1..] && sa[|ga|] == value &&
            (sa[0] == HSET <==> table.Some?) && (ga[0] == HGET <==> table.Some?) &&
            (table.Some? ==> sa[1] == ga[1] == table.value)
  {
    var s := SetValue(true, table, key, Some(value), confirm);
    assert s.requests[|s.requests| - 1] ==
      (if table.None? then Plain([SET, key.value, value]) else Plain([HSET, table.value, key.value, value]));
    assert SET != HSET && GET != HGET by {
      assert |SET| != |HSET| && |GET| != |HGET|;
    }
  }

  /** The listing and the lookups of one table name the same table: KEYS / GET / SET act on
      the global keys, HKEYS / HGET / HSET on the table, as the hash variants' second word. */
  lemma KeysMatchesGet(table: seq<byte>, key: Option<seq<byte>>)
    requires StrLen(table) > 0 && !Blank(key)
    ensures GetKeys(Some(table)).Sends? && GetValue(Some(table), key).Sends?
    ensures GetKeys(Some(table)).requests[0].args[1] == GetValue(Some(table), key).requests[0].args[1] == table
    ensures GetKeys(None).requests[0].args == [KEYS, ALL_KEYS]
  {
  }

  // ---------------------------------------------------------------- HMSET

  /** The key and value arguments of a list of entries, pair after pair. */
  function PairArgs(es: seq<Entry>): (r: seq<seq<byte>>)
    ensures |r| == 2 * |es|
    ensures forall i :: 0 <= i < |es| ==> r[2 * i] == es[i].key && r[2 * i + 1] == es[i].value
    decreases |es|
  {
    if |es| == 0 then []
    else
      var init := PairArgs(es[..|es| - 1]);
      init + [es[|es| - 1].key, es[|es| - 1].value]
  }

  /** The lengths that go with PairArgs: 0 (strlen) for each key, the entry's length for each value. */
  function PairLengths(es: seq<Entry>): (r: seq<int>)
    ensures |r| == 2 * |es|
    ensures forall i :: 0 <= i < |es| ==> r[2 * i] == 0 && r[2 * i + 1] == es[i].length
    decreases |es|
  {
    if |es| == 0 then []
    else
      var init := PairLengths(es[..|es| - 1]);
      init + [0, es[|es| - 1].length]
  }

  /** The HMSET request of redisxMultiSetAsync. */
  function MultiSetRequest(table: seq<byte>, es: seq<Entry>): (r: Request)
    ensures |r.args| == 2 * |es| + 2 && r.lengths.Some? && |r.lengths.value| == |r.args|
    ensures r.args[0] == HMSET && r.args[1] == table
    ensures r.lengths.value[0] == 0 && r.lengths.value[1] == 0
    ensures forall i :: 0 <= i < |es| ==>
              r.args[2 + 2 * i] == es[i].key && r.args[3 + 2 * i] == es[i].value
              && r.lengths.value[2 + 2 * i] == 0 && r.lengths.value[3 + 2 * i] == es[i].length
  {
    var a, l := PairArgs(es), PairLengths(es);
    var r := Request([HMSET, table] + a, Some([0, 0] + l));
    assert forall i :: 0 <= i < |es| ==> r.args[2 + 2 * i] == a[2 * i] && r.args[3 + 2 * i] == a[2 * i + 1];
    assert forall i :: 0 <= i < |es| ==> r.lengths.value[2 + 2 * i] == l[2 * i] && r.lengths.value[3 + 2 * i] == l[2 * i + 1];
    r
  }

  /** redisxMultiSetAsync. The caller passes `n` entries (more may follow in the array). The
      checks come in this order: the client, the table name, the entries, the count. */
  function MultiSet(client: bool, table: Option<seq<byte>>, entries: Option<seq<Entry>>, n: int,
                    confirm: bool): (r: Outcome)
    requires entries.Some? ==> n <= |entries.value|
    ensures !client ==> r == Refused(NullArg)
    ensures client && Blank(table) ==> r == Refused(GroupInvalid)
    ensures client && !Blank(table) && entries.None? ==> r == Refused(NullArg)
    ensures client && !Blank(table) && entries.Some? && n < 1 ==> r == Refused(SizeInvalid)
    ensures r.Sends? <==> client && !Blank(table) && entries.Some? && n >= 1
    ensures r.Sends? ==> r.requests == Confirmed(confirm, MultiSetRequest(table.value, entries.value[..n]))
  {
    if !client then Refused(NullArg)
    else if Blank(table) then Refused(GroupInvalid)
    else if entries.None? then Refused(NullArg)
    else if n < 1 then Refused(SizeInvalid)
    else Sends(Confirmed(confirm, MultiSetRequest(table.value, entries.value[..n])))
  }

  /** Reading the pairs back out of arguments and lengths laid out as by PairArgs / PairLengths. */
  function Unpair(args: seq<seq<byte>>, lengths: seq<int>): (es: seq<Entry>)
    requires |args| == |lengths|
    decreases |args|
  {
    if |args| < 2 then []
    else Unpair(args[..|args| - 2], lengths[..|lengths| - 2])
           + [Entry(args[|args| - 2], args[|args| - 1], lengths[|lengths| - 1])]
  }

  /** The HMSET request carries the entries exactly: reading its pairs back gives them again. */
  lemma {:induction false} UnpairPairs(es: seq<Entry>)
    ensures Unpair(PairArgs(es), PairLengths(es)) == es
    decreases |es|
  {
    if |es| > 0 {
      var init := es[..|es| - 1];
      UnpairPairs(init);
      var a, l := PairArgs(es), PairLengths(es);
      assert a[..|a| - 2] == PairArgs(init) && l[..|l| - 2] == PairLengths(init);
      assert init + [es[|es| - 1]] == es;
    }
  }

  lemma MultiSetRoundTrip(table: seq<byte>, es: seq<Entry>)
    ensures var r := MultiSetRequest(table, es);
            Unpair(r.args[2..], r.lengths.value[2..]) == es
  {
    var r := MultiSetRequest(table, es);
    assert r.args[2..] == PairArgs(es) && r.lengths.value[2..] == PairLengths(es);
    UnpairPairs(es);
  }

  // ---------------------------------------------------------------- HGETALL

  /** redisxGetTable's argument check and request. */
  function GetTable(table: Option<seq<byte>>): (r: Outcome)
    ensures r.Refused? <==> Blank(table)
    ensures r.Refused? ==> r.status == GroupInvalid
    ensures r.Sends? ==> r.requests == [Plain([HGETALL, table.value])]
  {
    if Blank(table) then Refused(GroupInvalid) else Sends([Plain([HGETALL, table.value])])
  }

  /** A RESP2 HGETALL reply is a flat array key, value, key, value ...; it is read as a map of
      half as many entries (the n /= 2 truncates, so an unpaired last component is dropped),
      entry i being components 2i and 2i+1. */
  function PairsOfArray(comps: seq<seq<byte>>): (ps: seq<(seq<byte>, seq<byte>)>)
    ensures |ps| == |comps| / 2
    ensures forall i :: 0 <= i < |ps| ==> ps[i] == (comps[2 * i], comps[2 * i + 1])
  {
    seq(|comps| / 2, i requires 0 <= i < |comps| / 2 => (comps[2 * i], comps[2 * i + 1]))
  }

  /** The loop of redisxGetTable over the map entries of the reply, from index `i` in steps of
      `step`, into the calloc'ed entry array (None is an all-zero entry). The length field is
      not set, so it keeps calloc's 0. */
  function FillFrom(es: seq<Option<Entry>>, ps: seq<(seq<byte>, seq<byte>)>, i: nat, step: nat): (r: seq<Option<Entry>>)
    requires |es| == |ps| && step > 0
    ensures |r| == |ps|
    decreases |ps| - i
  {
    if i >= |ps| then es
    else FillFrom(es[i := Some(Entry(ps[i].0, ps[i].1, 0))], ps, i + step, step)
  }

  /** What the loop stepping by 1 leaves: the pair at every index from `i` on. */
  lemma {:induction false} FillFromSpec1(es: seq<Option<Entry>>, ps: seq<(seq<byte>, seq<byte>)>, i: nat)
    requires |es| == |ps|
    ensures forall j :: 0 <= j < |ps| ==>
              FillFrom(es, ps, i, 1)[j] == if j >= i then Some(Entry(ps[j].0, ps[j].1, 0)) else es[j]
    decreases |ps| - i
  {
    if i < |ps| {
      FillFromSpec1(es[i := Some(Entry(ps[i].0, ps[i].1, 0))], ps, i + 1);
    }
  }

  /** What the loop stepping by 2 leaves: the pair at every other index from `i` on. */
  lemma {:induction false} FillFromSpec2(es: seq<Option<Entry>>, ps: seq<(seq<byte>, seq<byte>)>, i: nat)
    requires |es| == |ps|
    ensures forall j :: 0 <= j < |ps| ==>
              FillFrom(es, ps, i, 2)[j]
                == if j >= i && (j - i) % 2 == 0 then Some(Entry(ps[j].0, ps[j].1, 0)) else es[j]
    decreases |ps| - i
  {
    if i < |ps| {
      FillFromSpec2(es[i := Some(Entry(ps[i].0, ps[i].1, 0))], ps, i + 2);
    }
  }

  function Empties(k: nat): (r: seq<Option<Entry>>)
    ensures |r| == k && forall j :: 0 <= j < k ==> r[j].None?
  {
    seq(k, j => None)
  }

  /** The entries of redisxGetTable as written: the loop steps i by 2 over the map entries. */
  function TableEntriesAsWritten(ps: seq<(seq<byte>, seq<byte>)>): (r: seq<Option<Entry>>)
    ensures |r| == |ps|
  {
    FillFrom(Empties(|ps|), ps, 0, 2)
  }

  /** The entries with the loop stepping by 1, so that entry i holds pair i. */
  function TableEntries(ps: seq<(seq<byte>, seq<byte>)>): (r: seq<Option<Entry>>)
    ensures |r| == |ps|
  {
    FillFrom(Empties(|ps|), ps, 0, 1)
  }

  /** As written, only the even entries are filled; every odd entry stays empty. */
  lemma TableEntriesAsWrittenGaps(ps: seq<(seq<byte>, seq<byte>)>)
    ensures forall j :: 0 <= j < |ps| ==>
              TableEntriesAsWritten(ps)[j] == if j % 2 == 0 then Some(Entry(ps[j].0, ps[j].1, 0)) else None
  {
    FillFromSpec2(Empties(|ps|), ps, 0);
  }

  /** A two-field table: the second pair is lost. */
  lemma TableEntriesAsWrittenLosesSecond(k0: seq<byte>, v0: seq<byte>, k1: seq<byte>, v1: seq<byte>)
    ensures TableEntriesAsWritten([(k0, v0), (k1, v1)]) == [Some(Entry(k0, v0, 0)), None]
  {
    TableEntriesAsWrittenGaps([(k0, v0), (k1, v1)]);
  }

  /** With the intended step, entry i is pair i for every i. */
  lemma TableEntriesComplete(ps: seq<(seq<byte>, seq<byte>)>)
    ensures forall j :: 0 <= j < |ps| ==> TableEntries(ps)[j] == Some(Entry(ps[j].0, ps[j].1, 0))
  {
    FillFromSpec1(Empties(|ps|), ps, 0);
  }

  /** The table read from a RESP2 reply: entry i holds components 2i and 2i+1. */
  lemma TableOfArray(comps: seq<seq<byte>>)
    ensures |TableEntries(PairsOfArray(comps))| == |comps| / 2
    ensures forall j :: 0 <= j < |comps| / 2 ==>
              TableEntries(PairsOfArray(comps))[j] == Some(Entry(comps[2 * j], comps[2 * j + 1], 0))
  {
    TableEntriesComplete(PairsOfArray(comps));
  }

  // ---------------------------------------------------------------- SCAN / HSCAN

  /** The options both scans append: MATCH pattern if a pattern is given, COUNT n if the
      configured scan count is positive. */
  function ScanOptions(pattern: Option<seq<byte>>, count: int): (r: seq<seq<byte>>)
    ensures |r| == (if pattern.Some? then 2 else 0) + (if count > 0 then 2 else 0)
    ensures pattern.Some? ==> r[0] == MATCH && r[1] == pattern.value
    ensures count > 0 ==> r[|r| - 2] == COUNT && r[|r| - 1] == Decimal(count)
  {
    (if pattern.Some? then [MATCH, pattern.value] else [])
      + (if count > 0 then [COUNT, Decimal(count)] else [])
  }

  /** The arguments of redisxScanKeys' SCAN request for a cursor. */
  function ScanKeysArgs(cursor: seq<byte>, pattern: Option<seq<byte>>, count: int): (r: seq<seq<byte>>)
    ensures 2 <= |r| <= 6
    ensures r[0] == SCAN && r[1] == cursor && r[2..] == ScanOptions(pattern, count)
  {
    [SCAN, cursor] + ScanOptions(pattern, count)
  }

  /** The arguments of redisxScanTable's HSCAN request for a cursor. */
  function ScanTableArgs(table: seq<byte>, cursor: seq<byte>, pattern: Option<seq<byte>>, count: int): (r: seq<seq<byte>>)
    ensures 3 <= |r| <= 7
    ensures r[0] == HSCAN && r[1] == table && r[2] == cursor && r[3..] == ScanOptions(pattern, count)
  {
    [HSCAN, table, cursor] + ScanOptions(pattern, count)
  }

  /** The two scans ask alike: HSCAN names the table and otherwise carries SCAN's arguments,
      and both fit their fixed argument arrays (6 and 7 slots). */
  lemma ScanRequestsAgree(table: seq<byte>, cursor: seq<byte>, pattern: Option<seq<byte>>, count: int)
    ensures ScanTableArgs(table, cursor, pattern, count)
            == [HSCAN, table] + ScanKeysArgs(cursor, pattern, count)[1..]
    ensures |ScanKeysArgs(cursor, pattern, count)| <= 6 && |ScanTableArgs(table, cursor, pattern, count)| <= 7
  {
  }

  /** The argument checks of redisxScanTable: a NULL or empty table sets the status to X_NULL. */
  function ScanTableCheck(table: Option<seq<byte>>): (r: Status)
    ensures r == Success <==> !Blank(table)
    ensures r != Success ==> r == NullArg
  {
    if Blank(table) then NullArg else Success
  }

  /** The key redisxScanKeys means to sort and compare names by: their C strings. */
  function NameKey(name: seq<byte>): seq<byte> {
    CStr(name)
  }

  function EntryKey(e: Entry): seq<byte> {
    CStr(e.key)
  }

  /** The sort, duplicate removal and compaction of redisxScanKeys with the comparison its
      documentation promises (strcmp of the names). */
  function ScanKeysResult(names: seq<seq<byte>>): (r: seq<seq<byte>>)
  {
    SortUnique(names, NameKey)
  }

  /** redisxScanKeys returns the names in alphabetical order with no name twice, only names it
      collected, and every collected name. */
  lemma ScanKeysSorted(names: seq<seq<byte>>)
    ensures StrictlyAscendingBy(ScanKeysResult(names), NameKey)
    ensures forall j :: 0 <= j < |ScanKeysResult(names)| ==> ScanKeysResult(names)[j] in names
    ensures forall i :: 0 <= i < |names| ==> HasKey(ScanKeysResult(names), NameKey, CStr(names[i]))
  {
    SortUniqueSpec(names, NameKey);
  }

  /** The post-processing of redisxScanTable: sorted and de-duplicated by key (compare_entries
      compares the keys' C strings). */
  function ScanTableResult(entries: seq<Entry>): (r: seq<Entry>)
  {
    SortUnique(entries, EntryKey)
  }

  lemma ScanTableSorted(entries: seq<Entry>)
    ensures StrictlyAscendingBy(ScanTableResult(entries), EntryKey)
    ensures forall j :: 0 <= j < |ScanTableResult(entries)| ==> ScanTableResult(entries)[j] in entries
    ensures forall i :: 0 <= i < |entries| ==> HasKey(ScanTableResult(entries), EntryKey, CStr(entries[i].key))
  {
    SortUniqueSpec(entries, EntryKey);
  }

  /** A collected name together with the bytes of its pointer value. */
  datatype Slot = Slot(name: seq<byte>, pointer: seq<byte>)

  function SlotPointer(s: Slot): seq<byte> {
    CStr(s.pointer)
  }

  function SlotName(s: Slot): seq<byte> {
    CStr(s.name)
  }

  function Names(ss: seq<Slot>): (r: seq<seq<byte>>)
    ensures |r| == |ss| && forall i :: 0 <= i < |ss| ==> r[i] == ss[i].name
  {
    seq(|ss|, i requires 0 <= i < |ss| => ss[i].name)
  }

  /** redisxScanKeys as written: qsort hands compare_strings pointers to the array slots, and
      it strcmps those, so the names are ordered by the bytes of their pointer values; the
      duplicate removal then compares neighbouring names. */
  function ScanKeysAsWritten(slots: seq<Slot>): (r: seq<seq<byte>>)
  {
    Names(Dedupe(Sort(slots, SlotPointer), SlotName))
  }

  /** As written, names whose pointers already ascend and whose neighbours differ come back
      exactly as collected, whatever the names themselves are. */
  lemma ScanKeysAsWrittenKeepsOrder(ss: seq<Slot>)
    requires SortedBy(ss, SlotPointer) && NoAdjacentDuplicates(ss, SlotName)
    ensures ScanKeysAsWritten(ss) == Names(ss)
  {
    SortOfSorted(ss, SlotPointer);
    DedupeOfDistinct(ss, SlotName);
  }

  /** The slots of the counterexample: "b", "a", "b", whose pointer bytes ascend in strcmp
      order. */
  function SampleSlots(): (ss: seq<Slot>)
    ensures |ss| == 3 && ss[0].name == ss[2].name == [98] && ss[1].name == [97]
  {
    [Slot([98], [16]), Slot([97], [32]), Slot([98], [48])]
  }

  lemma SampleSlotsOrdered()
    ensures SortedBy(SampleSlots(), SlotPointer) && NoAdjacentDuplicates(SampleSlots(), SlotName)
  {
    assert CStr([16]) == [16] && CStr([32]) == [32] && CStr([48]) == [48];
    assert CStr([98]) == [98] && CStr([97]) == [97];
    assert !Less([32], [16]) && !Less([48], [32]);
  }

  /** Three names "b", "a", "b" whose pointer bytes ascend in strcmp order come back in that
      order: not sorted, and with "b" twice. */
  lemma ScanKeysAsWrittenUnsorted()
    ensures var r := ScanKeysAsWritten(SampleSlots());
            |r| == 3 && r[0] == r[2] == [98] && r[1] == [97]
            && !StrictlyAscendingBy(r, NameKey)
  {
    SampleSlotsOrdered();
    ScanKeysAsWrittenKeepsOrder(SampleSlots());
    NotAscendingBA(Names(SampleSlots()));
  }

  lemma NotAscendingBA(r: seq<seq<byte>>)
    requires |r| == 3 && r[0] == [98] && r[1] == [97]
    ensures !StrictlyAscendingBy(r, NameKey)
  {
    assert CStr([98]) == [98] && CStr([97]) == [97];
    assert !Less(NameKey(r[0]), NameKey(r[1]));
  }

  // ---------------------------------------------------------------- storage growth

  const SCAN_INITIAL_STORE_CAPACITY: int := 256

  /** The storage of a scan after each batch: how many slots are allocated and used, and
      whether a batch ever had to be stored past the end of the allocation. */
  datatype Store = Store(capacity: int, stored: int, overrun: bool)

  /** As written: the first batch gets a fresh array of the initial capacity whatever its size;
      a later batch that does not fit doubles the capacity once. */
  function GrowAsWritten(st: Store, first: bool, count: nat): (r: Store)
  {
    var cap := if first then st.capacity
               else if st.stored + count > st.capacity then 2 * st.capacity
               else st.capacity;
    Store(cap, st.stored + count, st.overrun || st.stored + count > cap)
  }

  function StoreAsWritten(counts: seq<nat>): (r: Store)
    decreases |counts|
  {
    if |counts| == 0 then Store(SCAN_INITIAL_STORE_CAPACITY, 0, false)
    else GrowAsWritten(StoreAsWritten(counts[..|counts| - 1]), |counts| == 1, counts[|counts| - 1])
  }

  /** One batch of 300 names, or 200 then 400, is stored past the end of the array. */
  lemma StoreAsWrittenOverruns()
    ensures StoreAsWritten([300]).overrun
    ensures StoreAsWritten([200, 400]).overrun
  {
    assert [300][..0] == [] && [200, 400][..1] == [200] && [200][..0] == [];
  }

  /** The capacity doubled as often as it takes to hold `need`. */
  function Doubled(capacity: int, need: int): (c: int)
    requires capacity > 0
    ensures c >= need && c >= capacity
    ensures c > capacity ==> c < 2 * need
    decreases need - capacity
  {
    if need <= capacity then capacity else Doubled(2 * capacity, need)
  }

  function Grow(st: Store, count: nat): (r: Store)
    requires st.capacity > 0
  {
    var cap := Doubled(st.capacity, st.stored + count);
    Store(cap, st.stored + count, st.overrun || st.stored + count > cap)
  }

  /** The storage with the capacity grown until each batch fits, the first one included. */
  function StoreFixed(counts: seq<nat>): (r: Store)
    ensures r.capacity >= SCAN_INITIAL_STORE_CAPACITY
    decreases |counts|
  {
    if |counts| == 0 then Store(SCAN_INITIAL_STORE_CAPACITY, 0, false)
    else Grow(StoreFixed(counts[..|counts| - 1]), counts[|counts| - 1])
  }

  /** With the fixed growth nothing is ever stored past the end: the names stored are all the
      names received and fit the allocation. */
  lemma {:induction false} StoreFixedFits(counts: seq<nat>)
    ensures !StoreFixed(counts).overrun
    ensures StoreFixed(counts).stored <= StoreFixed(counts).capacity
    ensures StoreFixed(counts).stored == SumOf(counts)
    decreases |counts|
  {
    if |counts| > 0 {
      StoreFixedFits(counts[..|counts| - 1]);
    }
  }

  function SumOf(counts: seq<nat>): (s: nat)
    decreases |counts|
  {
    if |counts| == 0 then 0 else SumOf(counts[..|counts| - 1]) + counts[|counts| - 1]
  }
}
