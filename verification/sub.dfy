/** The PUB/SUB side of redisx-sub.c: the subscriber list (a linked list of MessageConsumer
    nodes, modelled front to back as a sequence), the requests that publish, subscribe and
    unsubscribe, the channel-stem test that selects the consumers of a message, and the
    listener's reading of a pushed reply. A callback is identified by a number. */
module Sub {
  import opened CStrings
  import opened Header
  import opened Requests
  import opened Resp
  import Wire

  type Func = nat

  /** A MessageConsumer: the callback and the channel stem it asked for (NULL for every channel). */
  datatype Consumer = Consumer(func: Func, stem: Option<seq<byte>>)

  /** The stored copy of a stem (xStringCopyOf): NULL stays NULL, a string is copied up to its NUL. */
  function StemCopy(stem: Option<seq<byte>>): (r: Option<seq<byte>>)
    ensures r.None? <==> stem.None?
    ensures r.Some? ==> r.value == CStr(stem.value) && IsCString(r.value)
  {
    if stem.None? then None else Some(CStr(stem.value))
  }

  /** The same stem: both NULL, or both strings that strcmp finds equal. */
  predicate SameStem(a: Option<seq<byte>>, b: Option<seq<byte>>) {
    if a.None? || b.None? then a.None? && b.None? else CStr(a.value) == CStr(b.value)
  }

  predicate IsEntry(c: Consumer, f: Func, stem: Option<seq<byte>>) {
    c.func == f && SameStem(c.stem, stem)
  }

  /** How many entries of the list are the subscriber (f, stem). */
  function Entries(list: seq<Consumer>, f: Func, stem: Option<seq<byte>>): (k: nat)
    ensures k <= |list|
    decreases |list|
  {
    if |list| == 0 then 0 else (if IsEntry(list[0], f, stem) then 1 else 0) + Entries(list[1..], f, stem)
  }

  // ---------------------------------------------------------------- redisxAddSubscriber

  /** The duplicate search of redisxAddSubscriber from node `k`: Some(true) when (f, stem) is
      listed, Some(false) when the walk ends, None when strcmp would be handed a stored NULL
      stem (a node with the same callback and no stem, searched with a stem). */
  function AddScan(list: seq<Consumer>, f: Func, stem: Option<seq<byte>>, k: nat): (r: Option<bool>)
    requires k <= |list|
    decreases |list| - k
  {
    if k == |list| then Some(false)
    else if list[k].func != f then AddScan(list, f, stem, k + 1)
    else if stem.Some? then
      if list[k].stem.None? then None
      else if CStr(stem.value) != CStr(list[k].stem.value) then AddScan(list, f, stem, k + 1)
      else Some(true)
    else if list[k].stem.Some? then AddScan(list, f, stem, k + 1)
    else Some(true)
  }

  /** redisxAddSubscriber as written: None when the search reaches the strcmp on a NULL stem. */
  function AddSubscriberAsWritten(list: seq<Consumer>, f: Func, stem: Option<seq<byte>>): (r: Option<seq<Consumer>>)
  {
    match AddScan(list, f, stem, 0)
    case None => None
    case Some(listed) => Some(if listed then list else [Consumer(f, StemCopy(stem))] + list)
  }

  /** redisxAddSubscriber with a NULL-safe stem comparison: an unlisted subscriber is
      prepended. */
  function AddSubscriber(list: seq<Consumer>, f: Func, stem: Option<seq<byte>>): (r: seq<Consumer>)
  {
    if Entries(list, f, stem) > 0 then list else [Consumer(f, StemCopy(stem))] + list
  }

  /** A NULL instance is left alone. */
  function AddSubscriberTo(redis: Option<seq<Consumer>>, f: Func, stem: Option<seq<byte>>): (r: Option<seq<Consumer>>)
    ensures redis.None? ==> r.None?
    ensures redis.Some? ==> r == Some(AddSubscriber(redis.value, f, stem))
  {
    if redis.None? then None else Some(AddSubscriber(redis.value, f, stem))
  }

  lemma StemCopySame(stem: Option<seq<byte>>)
    ensures SameStem(StemCopy(stem), stem)
  {
  }

  /** After adding, the subscriber is listed, exactly once if it was at most once before: a new
      entry goes to the front, and the entries already there are left as they are. */
  lemma AddSubscriberOnce(list: seq<Consumer>, f: Func, stem: Option<seq<byte>>)
    ensures var r := AddSubscriber(list, f, stem);
            Entries(r, f, stem) == (if Entries(list, f, stem) == 0 then 1 else Entries(list, f, stem))
    ensures var r := AddSubscriber(list, f, stem);
            r == list || (|r| == |list| + 1 && r[1..] == list && r[0] == Consumer(f, StemCopy(stem)))
  {
    var r := AddSubscriber(list, f, stem);
    if Entries(list, f, stem) == 0 {
      StemCopySame(stem);
      assert r[1..] == list;
    }
  }

  lemma {:induction false} AddScanFinds(list: seq<Consumer>, f: Func, stem: Option<seq<byte>>, k: nat)
    requires k <= |list|
    ensures AddScan(list, f, stem, k).Some? ==> (AddScan(list, f, stem, k).value <==> Entries(list[k..], f, stem) > 0)
    decreases |list| - k
  {
    if k < |list| {
      assert list[k..][1..] == list[k + 1..];
      assert list[k..][0] == list[k];
      AddScanFinds(list, f, stem, k + 1);
    }
  }

  /** Whenever the code as written gets through its search, it does what the corrected version does. */
  lemma AddSubscriberAsWrittenAgrees(list: seq<Consumer>, f: Func, stem: Option<seq<byte>>)
    ensures AddSubscriberAsWritten(list, f, stem).Some? ==>
              AddSubscriberAsWritten(list, f, stem).value == AddSubscriber(list, f, stem)
  {
    AddScanFinds(list, f, stem, 0);
    assert list[0..] == list;
  }

  /** A callback added once for every channel and then for the stem "a" makes the search
      compare "a" with the stored NULL stem. */
  lemma AddSubscriberAsWrittenNullStem()
    ensures AddSubscriberAsWritten([Consumer(1, None)], 1, Some([97])) == None
    ensures AddSubscriber([Consumer(1, None)], 1, Some([97])) == [Consumer(1, Some([97])), Consumer(1, None)]
  {
    assert CStr([97]) == [97];
    assert Entries([Consumer(1, None)], 1, Some([97])) == 0 by {
      assert [Consumer(1, None)][1..] == [];
    }
  }

  // ---------------------------------------------------------------- removal and clearing

  /** The list and count that redisxRemoveSubscribers / redisxClearSubscribers leave, or the
      status they refuse with. */
  datatype Change = Changed(list: seq<Consumer>, count: nat) | Rejected(status: Status)

  /** The unlink loop of redisxRemoveSubscribers: `kept` are the nodes still linked so far. */
  function RemoveScan(kept: seq<Consumer>, list: seq<Consumer>, f: Func, k: nat, removed: nat): (r: Change)
    requires k <= |list|
    decreases |list| - k
  {
    if k == |list| then Changed(kept, removed)
    else if list[k].func == f then RemoveScan(kept, list, f, k + 1, removed + 1)
    else RemoveScan(kept + [list[k]], list, f, k + 1, removed)
  }

  function RemoveSubscribers(redis: Option<seq<Consumer>>, f: Option<Func>): (r: Change)
    ensures f.None? || redis.None? ==> r == Rejected(NullArg)
  {
    if f.None? || redis.None? then Rejected(NullArg) else RemoveScan([], redis.value, f.value, 0, 0)
  }

  /** The consumers with another callback, in their order. */
  function Others(list: seq<Consumer>, f: Func): (r: seq<Consumer>)
    decreases |list|
  {
    if |list| == 0 then [] else (if list[0].func == f then [] else [list[0]]) + Others(list[1..], f)
  }

  /** How many consumers have the callback. */
  function Uses(list: seq<Consumer>, f: Func): (k: nat)
    decreases |list|
  {
    if |list| == 0 then 0 else (if list[0].func == f then 1 else 0) + Uses(list[1..], f)
  }

  lemma {:induction false} OthersAndUses(list: seq<Consumer>, f: Func)
    ensures |Others(list, f)| + Uses(list, f) == |list|
    ensures forall i :: 0 <= i < |Others(list, f)| ==> Others(list, f)[i].func != f
    decreases |list|
  {
    if |list| > 0 { OthersAndUses(list[1..], f); }
  }

  lemma OthersCons(x: Consumer, rest: seq<Consumer>, f: Func)
    ensures Others([x] + rest, f) == (if x.func == f then [] else [x]) + Others(rest, f)
  {
    assert ([x] + rest)[1..] == rest;
  }

  lemma {:induction false} OthersConcat(a: seq<Consumer>, b: seq<Consumer>, f: Func)
    ensures Others(a + b, f) == Others(a, f) + Others(b, f)
    decreases |a|
  {
    if |a| == 0 {
      assert a + b == b;
    } else {
      var x, rest := a[0], a[1..];
      assert a == [x] + rest;
      assert a + b == [x] + (rest + b);
      OthersCons(x, rest + b, f);
      OthersCons(x, rest, f);
      OthersConcat(rest, b, f);
    }
  }

  lemma {:induction false} RemoveScanFilters(kept: seq<Consumer>, list: seq<Consumer>, f: Func, k: nat, removed: nat)
    requires k <= |list|
    ensures RemoveScan(kept, list, f, k, removed) == Changed(kept + Others(list[k..], f), removed + Uses(list[k..], f))
    decreases |list| - k
  {
    if k < |list| {
      assert list[k..][1..] == list[k + 1..];
      assert list[k..][0] == list[k];
      RemoveScanFilters(if list[k].func == f then kept else kept + [list[k]], list, f, k + 1,
                        if list[k].func == f then removed + 1 else removed);
    }
  }

  /** Removal leaves exactly the consumers with other callbacks, in order, and returns how
      many it unlinked; the two add up to the list it started with. */
  lemma RemoveSubscribersSpec(list: seq<Consumer>, f: Func)
    ensures RemoveSubscribers(Some(list), Some(f)) == Changed(Others(list, f), Uses(list, f))
    ensures |Others(list, f)| + Uses(list, f) == |list|
    ensures forall i :: 0 <= i < |Others(list, f)| ==> Others(list, f)[i].func != f
  {
    RemoveScanFilters([], list, f, 0, 0);
    assert list[0..] == list;
    OthersAndUses(list, f);
  }

  /** The freeing loop of redisxClearSubscribers, counting the nodes it releases. */
  function ClearScan(list: seq<Consumer>, k: nat, n: nat): (r: nat)
    requires k <= |list|
    decreases |list| - k
  {
    if k == |list| then n else ClearScan(list, k + 1, n + 1)
  }

  function ClearSubscribers(redis: Option<seq<Consumer>>): (r: Change)
    ensures redis.None? ==> r == Rejected(NullArg)
  {
    if redis.None? then Rejected(NullArg) else Changed([], ClearScan(redis.value, 0, 0))
  }

  lemma {:induction false} ClearScanCounts(list: seq<Consumer>, k: nat, n: nat)
    requires k <= |list|
    ensures ClearScan(list, k, n) == n + |list| - k
    decreases |list| - k
  {
    if k < |list| { ClearScanCounts(list, k + 1, n + 1); }
  }

  /** The stem strings a list's nodes own, front to back (xStringCopyOf made each one). */
  function OwnedStems(list: seq<Consumer>): (r: seq<seq<byte>>)
    ensures |r| <= |list|
    decreases |list|
  {
    if |list| == 0 then [] else (if list[0].stem.Some? then [list[0].stem.value] else []) + OwnedStems(list[1..])
  }

  /** The stem strings the freeing loop of redisxClearSubscribers releases from node `k` on. As
      written (`freeStems` FALSE) it frees only the nodes; freeing each stem first, as
      redisxRemoveSubscribers does for the nodes it unlinks, releases the stems too. */
  function ClearFreed(list: seq<Consumer>, k: nat, freeStems: bool): (r: seq<seq<byte>>)
    requires k <= |list|
    decreases |list| - k
  {
    if k == |list| then []
    else (if freeStems && list[k].stem.Some? then [list[k].stem.value] else []) + ClearFreed(list, k + 1, freeStems)
  }

  lemma {:induction false} ClearFreedFrom(list: seq<Consumer>, k: nat)
    requires k <= |list|
    ensures ClearFreed(list, k, true) == OwnedStems(list[k..])
    ensures ClearFreed(list, k, false) == []
    decreases |list| - k
  {
    if k < |list| {
      ClearFreedFrom(list, k + 1);
      assert list[k..][1..] == list[k + 1..];
    }
  }

  /** As written, clearing frees no stem: every string the list owned is left allocated and
      unreachable, and a single consumer of channel "a" already leaks one. */
  lemma ClearAsWrittenLeaksStems(list: seq<Consumer>)
    ensures ClearFreed(list, 0, false) == []
    ensures OwnedStems([Consumer(1, Some(Ascii("a")))]) == [Ascii("a")]
  {
    ClearFreedFrom(list, 0);
  }

  /** Freeing the stems in the loop releases exactly the strings the list owned, so nothing
      is left behind. */
  lemma ClearFreesOwnedStems(list: seq<Consumer>)
    ensures ClearFreed(list, 0, true) == OwnedStems(list)
  {
    ClearFreedFrom(list, 0);
    assert list[0..] == list;
  }

  /** Clearing empties the list and reports how many consumers it held. */
  lemma ClearSubscribersSpec(list: seq<Consumer>)
    ensures ClearSubscribers(Some(list)) == Changed([], |list|)
  {
    ClearScanCounts(list, 0, 0);
  }

  // ---------------------------------------------------------------- glob patterns and requests

  predicate IsGlobChar(c: byte) {
    c == 42 || c == 63 || c == 91   // '*', '?', '['
  }

  /** The scan of rIsGlobPattern from byte `i`, up to the NUL. */
  function GlobFrom(s: seq<byte>, i: nat): (r: bool)
    decreases |s| - i
  {
    if i >= |s| || s[i] == NUL then false
    else if IsGlobChar(s[i]) then true
    else GlobFrom(s, i + 1)
  }

  function IsGlobPattern(s: seq<byte>): (r: bool) {
    GlobFrom(s, 0)
  }

  /** The string holds a glob character. */
  predicate HasGlobChar(s: seq<byte>) {
    exists i :: 0 <= i < StrLen(s) && IsGlobChar(s[i])
  }

  lemma {:induction false} GlobFromFinds(s: seq<byte>, i: nat)
    requires i <= StrLen(s)
    ensures GlobFrom(s, i) <==> exists j :: i <= j < StrLen(s) && IsGlobChar(s[j])
    decreases |s| - i
  {
    var t := CStr(s);
    if i < StrLen(s) {
      assert s[i] == t[i] && t[i] in t;
      GlobFromFinds(s, i + 1);
      if !IsGlobChar(s[i]) {
        assert forall j :: i <= j < StrLen(s) && IsGlobChar(s[j]) ==> i + 1 <= j;
      }
    } else if i < |s| {
      assert s[i] == NUL;
    }
  }

  /** rIsGlobPattern is true exactly when the string holds '*', '?' or '['. */
  lemma IsGlobPatternIff(s: seq<byte>)
    ensures IsGlobPattern(s) <==> HasGlobChar(s)
  {
    GlobFromFinds(s, 0);
  }

  const PUBLISH: seq<byte> := Ascii("PUBLISH")
  const SUBSCRIBE: seq<byte> := Ascii("SUBSCRIBE")
  const PSUBSCRIBE: seq<byte> := Ascii("PSUBSCRIBE")
  const UNSUBSCRIBE: seq<byte> := Ascii("UNSUBSCRIBE")
  const PUNSUBSCRIBE: seq<byte> := Ascii("PUNSUBSCRIBE")

  /** The request of redisxSubscribe once the subscription client is up. */
  function Subscribe(redis: bool, pattern: Option<seq<byte>>): (r: Outcome)
    ensures !redis || pattern.None? ==> r == Refused(NullArg)
  {
    if !redis || pattern.None? then Refused(NullArg)
    else Sends([Plain([if IsGlobPattern(pattern.value) then PSUBSCRIBE else SUBSCRIBE, pattern.value])])
  }

  /** The requests of redisxUnsubscribe: one for a pattern, both kinds for NULL. */
  function Unsubscribe(redis: bool, pattern: Option<seq<byte>>): (r: Outcome)
    ensures !redis ==> r == Refused(NullArg)
  {
    if !redis then Refused(NullArg)
    else if pattern.Some? then
      Sends([Plain([if IsGlobPattern(pattern.value) then PUNSUBSCRIBE else UNSUBSCRIBE, pattern.value])])
    else Sends([Plain([UNSUBSCRIBE]), Plain([PUNSUBSCRIBE])])
  }

  /** A pattern is subscribed to, and unsubscribed from, with the pattern commands exactly
      when it holds a glob character; a NULL pattern ends both kinds of subscription. */
  lemma SubscriptionCommands(p: seq<byte>)
    ensures Subscribe(true, Some(p)) == Sends([Plain([if HasGlobChar(p) then PSUBSCRIBE else SUBSCRIBE, p])])
    ensures Unsubscribe(true, Some(p)) == Sends([Plain([if HasGlobChar(p) then PUNSUBSCRIBE else UNSUBSCRIBE, p])])
    ensures Unsubscribe(true, None) == Sends([Plain([UNSUBSCRIBE]), Plain([PUNSUBSCRIBE])])
  {
    IsGlobPatternIff(p);
  }

  /** The requests of redisxPublishAsync: CLIENT REPLY SKIP, then PUBLISH channel data with only
      the data's length given (strlen(data) when `length` is not positive). The caller's data
      is a string here. */
  function PublishAsync(redis: bool, channel: Option<seq<byte>>, data: seq<byte>, length: int): (r: Outcome)
    ensures !redis ==> r == Refused(NullArg)
    ensures redis && Blank(channel) ==> r == Refused(NameInvalid)
  {
    if !redis then Refused(NullArg)
    else if Blank(channel) then Refused(NameInvalid)
    else Sends(Confirmed(false, Request([PUBLISH, channel.value, data],
                                         Some([0, 0, if length <= 0 then StrLen(data) else length]))))
  }

  /** The payloads of a three-argument request whose first argument is a word and whose only
      given length is the third. */
  lemma ThreePayloads(a: seq<byte>, b: seq<byte>, c: seq<byte>, l: int)
    requires NUL !in a && Wire.ArgLength(c, Some(l)) <= |c|
    ensures Wire.ArgsReadable([a, b, c], Some([0, 0, l]), 3)
    ensures Wire.Payloads([a, b, c], Some([0, 0, l]), 3) == [a, CStr(b), c[..Wire.ArgLength(c, Some(l))]]
  {
    assert StrLen(a) == |a|;
    var ps := Wire.Payloads([a, b, c], Some([0, 0, l]), 3);
    assert ps[0] == a && ps[1] == CStr(b);
  }

  /** What goes on the wire for an accepted publish: the reply is skipped, then PUBLISH, the
      channel up to its NUL, and the first `length` bytes of the data (the data up to its NUL
      when `length` is not positive). */
  lemma PublishPayload(channel: seq<byte>, data: seq<byte>, length: int)
    requires StrLen(channel) > 0 && length <= |data|
    ensures var r := PublishAsync(true, Some(channel), data, length);
            r.Sends? && |r.requests| == 2 && r.requests[0] == SKIP_REPLY
            && Wire.ArgsReadable(r.requests[1].args, r.requests[1].lengths, 3)
            && Wire.Payloads(r.requests[1].args, r.requests[1].lengths, 3)
               == [PUBLISH, CStr(channel), if length > 0 then data[..length] else CStr(data)]
  {
    var l := if length <= 0 then StrLen(data) else length;
    assert PublishAsync(true, Some(channel), data, length)
        == Sends([SKIP_REPLY, Request([PUBLISH, channel, data], Some([0, 0, l]))]);
    assert NUL !in PUBLISH by { assert PUBLISH == [80, 85, 66, 76, 73, 83, 72]; }
    ThreePayloads(PUBLISH, channel, data, l);
  }

  // ---------------------------------------------------------------- delivering a message

  /** The byte at `i` of a C string held in `s`, NUL past its end. */
  function CharAt(s: seq<byte>, i: nat): (c: byte)
    ensures i < StrLen(s) ==> c == s[i] && c != NUL
  {
    if i < |s| then (if i < StrLen(s) then assert s[i] == CStr(s)[i] && CStr(s)[i] in CStr(s); s[i] else s[i]) else NUL
  }

  /** `strncmp(a, b, n) == 0`, compared from byte `i`. */
  function StrNEqual(a: seq<byte>, b: seq<byte>, n: nat, i: nat): (r: bool)
    requires i <= n
    decreases n - i
  {
    if i == n then true
    else if CharAt(a, i) != CharAt(b, i) then false
    else if CharAt(a, i) == NUL then true
    else StrNEqual(a, b, n, i + 1)
  }

  /** The test of rNotifyConsumers: no stem, or a stem that strncmp finds at the start of the
      channel. */
  predicate StemMatches(stem: seq<byte>, channel: seq<byte>) {
    StrNEqual(stem, channel, StrLen(stem), 0)
  }

  predicate IsPrefix(p: seq<byte>, s: seq<byte>) {
    |p| <= |s| && s[..|p|] == p
  }

  lemma {:induction false} StrNEqualPrefix(a: seq<byte>, b: seq<byte>, i: nat)
    requires i <= StrLen(a) && i <= StrLen(b) && CStr(a)[..i] == CStr(b)[..i]
    ensures StrNEqual(a, b, StrLen(a), i) <==> IsPrefix(CStr(a), CStr(b))
    decreases StrLen(a) - i
  {
    var A, B := CStr(a), CStr(b);
    if i < StrLen(a) {
      if i == StrLen(b) {
        assert CharAt(b, i) == NUL;
        assert CharAt(a, i) != NUL;
      } else {
        assert CharAt(a, i) == A[i] && CharAt(b, i) == B[i];
        if A[i] == B[i] {
          assert A[..i + 1] == A[..i] + [A[i]];
          assert B[..i + 1] == B[..i] + [B[i]];
          StrNEqualPrefix(a, b, i + 1);
        } else {
          assert |A| <= |B| ==> B[..|A|][i] == B[i];
        }
      }
    } else {
      assert A[..i] == A;
    }
  }

  /** The stem test is "the stem is a prefix of the channel", both read as C strings. */
  lemma StemMatchesIsPrefix(stem: seq<byte>, channel: seq<byte>)
    ensures StemMatches(stem, channel) <==> IsPrefix(CStr(stem), CStr(channel))
  {
    StrNEqualPrefix(stem, channel, 0);
  }

  /** The callbacks rNotifyConsumers calls for a channel, in list order (both of its passes use
      the same test), or None when a stemmed consumer meets a NULL channel in strncmp. */
  function Selected(list: seq<Consumer>, channel: Option<seq<byte>>): (r: Option<seq<Func>>)
    decreases |list|
  {
    if |list| == 0 then Some([])
    else
      var rest := Selected(list[1..], channel);
      var c := list[0];
      if c.stem.None? then (if rest.None? then None else Some([c.func] + rest.value))
      else if channel.None? then None
      else if StemMatches(c.stem.value, channel.value) then (if rest.None? then None else Some([c.func] + rest.value))
      else rest
  }

  /** A consumer receives a channel's messages when it has no stem or its stem begins the channel. */
  predicate Receives(c: Consumer, channel: seq<byte>) {
    c.stem.None? || IsPrefix(CStr(c.stem.value), CStr(channel))
  }

  /** The callbacks of the receiving consumers, in list order. */
  function Receivers(list: seq<Consumer>, channel: seq<byte>): (r: seq<Func>)
    decreases |list|
  {
    if |list| == 0 then []
    else (if Receives(list[0], channel) then [list[0].func] else []) + Receivers(list[1..], channel)
  }

  lemma {:induction false} ReceiversConcat(a: seq<Consumer>, b: seq<Consumer>, channel: seq<byte>)
    ensures Receivers(a + b, channel) == Receivers(a, channel) + Receivers(b, channel)
    decreases |a|
  {
    if |a| == 0 {
      assert a + b == b;
    } else {
      assert (a + b)[1..] == a[1..] + b;
      ReceiversConcat(a[1..], b, channel);
    }
  }

  /** For a channel, exactly the receiving consumers are called, in list order. */
  lemma {:induction false} SelectedAreReceivers(list: seq<Consumer>, channel: seq<byte>)
    ensures Selected(list, Some(channel)) == Some(Receivers(list, channel))
    decreases |list|
  {
    if |list| > 0 {
      SelectedAreReceivers(list[1..], channel);
      var c := list[0];
      if c.stem.Some? {
        StemMatchesIsPrefix(c.stem.value, channel);
        assert Receives(c, channel) <==> StemMatches(c.stem.value, channel);
      }
      assert Selected(list, Some(channel))
          == (if Receives(c, channel) then Some([c.func] + Receivers(list[1..], channel))
              else Some(Receivers(list[1..], channel)));
      assert [] + Receivers(list[1..], channel) == Receivers(list[1..], channel);
    }
  }

  /** How a pushed reply is taken: left aside, delivered to the consumers, or not defined (a
      component whose value strcmp or strncmp cannot read as characters). */
  datatype Delivery =
    | Ignored
    | Deliver(pattern: Option<seq<byte>>, channel: Option<seq<byte>>, message: Option<seq<byte>>, length: int)
    | Undefined

  /** The `value` pointer of a component as a string: the bytes, NULL, or not characters. */
  predicate IsCharValue(c: Resp) {
    c.value.Text? || c.value.NoValue?
  }

  function Chars(c: Resp): (r: Option<seq<byte>>)
    ensures r.Some? <==> c.value.Text?
  {
    if c.value.Text? then Some(c.value.bytes) else None
  }

  const MESSAGE: seq<byte> := Ascii("message")
  const PMESSAGE: seq<byte> := Ascii("pmessage")

  /** One pass of RedisSubscriptionListener over a reply from the subscription client. */
  function Dispatch(reply: Option<Resp>): (d: Delivery)
  {
    if reply.None? then Ignored
    else
      var r := reply.value;
      if r.n < 0 || r.typ != Array || r.n < 3 || r.n > 4 then Ignored
      else if !r.value.Items? || |r.value.items| != r.n then Undefined
      else
        var cs := r.value.items;
        if !cs[0].value.Text? then Undefined
        else if CStr(cs[0].value.bytes) == MESSAGE then
          if r.n != 3 then Ignored
          else if !IsCharValue(cs[1]) || !IsCharValue(cs[2]) then Undefined
          else Deliver(None, Chars(cs[1]), Chars(cs[2]), cs[2].n)
        else if CStr(cs[0].value.bytes) == PMESSAGE then
          if r.n != 4 then Ignored
          else if !IsCharValue(cs[1]) || !IsCharValue(cs[2]) || !IsCharValue(cs[3]) then Undefined
          else Deliver(Chars(cs[1]), Chars(cs[2]), Chars(cs[3]), cs[3].n)
        else Ignored
  }

  /** A call of a subscriber callback: `f(pattern, channel, msg, length)`. */
  datatype Call = Call(func: Func, pattern: Option<seq<byte>>, channel: Option<seq<byte>>,
                       message: Option<seq<byte>>, length: int)

  /** The callbacks the listener makes for one reply, or None where that is not defined. */
  function ListenerCalls(list: seq<Consumer>, reply: Option<Resp>): (r: Option<seq<Call>>)
  {
    var d := Dispatch(reply);
    if d.Ignored? then Some([])
    else if d.Undefined? then None
    else
      var fs := Selected(list, d.channel);
      if fs.None? then None
      else Some(seq(|fs.value|, i requires 0 <= i < |fs.value| =>
                    Call(fs.value[i], d.pattern, d.channel, d.message, d.length)))
  }

  /** A bulk-string component, as the parser returns one. */
  function BulkOf(b: seq<byte>): (r: Resp)
    ensures r.typ == BulkString && r.n == |b| && r.value == Text(b)
  {
    Resp(BulkString, |b|, Text(b))
  }

  /** The push Redis sends for a message on a subscribed channel. */
  function MessagePush(channel: seq<byte>, msg: seq<byte>): (r: Resp)
    ensures r.typ == Array && r.n == 3
  {
    Resp(Array, 3, Items([BulkOf(MESSAGE), BulkOf(channel), BulkOf(msg)]))
  }

  /** The push Redis sends for a message on a channel matching a subscribed pattern. */
  function PatternPush(pattern: seq<byte>, channel: seq<byte>, msg: seq<byte>): (r: Resp)
    ensures r.typ == Array && r.n == 4
  {
    Resp(Array, 4, Items([BulkOf(PMESSAGE), BulkOf(pattern), BulkOf(channel), BulkOf(msg)]))
  }

  lemma KindWords()
    ensures CStr(MESSAGE) == MESSAGE && CStr(PMESSAGE) == PMESSAGE && MESSAGE != PMESSAGE
  {
    assert MESSAGE == [109, 101, 115, 115, 97, 103, 101];
    assert PMESSAGE == [112, 109, 101, 115, 115, 97, 103, 101];
  }

  /** A "message" push reaches the receivers of its channel with no pattern and the message's
      length. */
  lemma MessageDelivered(list: seq<Consumer>, channel: seq<byte>, msg: seq<byte>)
    ensures Dispatch(Some(MessagePush(channel, msg))) == Deliver(None, Some(channel), Some(msg), |msg|)
    ensures var r := ListenerCalls(list, Some(MessagePush(channel, msg)));
            r.Some? && |r.value| == |Receivers(list, channel)|
            && forall i :: 0 <= i < |r.value| ==>
                 r.value[i] == Call(Receivers(list, channel)[i], None, Some(channel), Some(msg), |msg|)
  {
    KindWords();
    SelectedAreReceivers(list, channel);
  }

  /** A "pmessage" push reaches the receivers of its channel with the pattern that matched. */
  lemma PatternMessageDelivered(list: seq<Consumer>, pattern: seq<byte>, channel: seq<byte>, msg: seq<byte>)
    ensures Dispatch(Some(PatternPush(pattern, channel, msg))) == Deliver(Some(pattern), Some(channel), Some(msg), |msg|)
    ensures var r := ListenerCalls(list, Some(PatternPush(pattern, channel, msg)));
            r.Some? && |r.value| == |Receivers(list, channel)|
            && forall i :: 0 <= i < |r.value| ==>
                 r.value[i] == Call(Receivers(list, channel)[i], Some(pattern), Some(channel), Some(msg), |msg|)
  {
    KindWords();
    SelectedAreReceivers(list, channel);
  }

  /** Replies that are not arrays of three or four, a "message" of four and a "pmessage" of
      three are left aside. */
  lemma OtherRepliesIgnored(reply: Resp, list: seq<Consumer>)
    ensures reply.typ != Array || reply.n < 3 || reply.n > 4 ==> ListenerCalls(list, Some(reply)) == Some([])
    ensures Dispatch(Some(Resp(Array, 4, Items([BulkOf(MESSAGE), BulkOf([]), BulkOf([]), BulkOf([])])))) == Ignored
    ensures Dispatch(Some(Resp(Array, 3, Items([BulkOf(PMESSAGE), BulkOf([]), BulkOf([])])))) == Ignored
  {
    KindWords();
  }
}
