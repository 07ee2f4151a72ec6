/** The connect and disconnect hook lists of redisx-hooks.c. A list of Hook nodes is modelled
    as the sequence of the callbacks it holds, front to back; a callback is identified by a
    number (its function pointer), and a NULL pointer is None. */
module Hooks {
  import opened CStrings

  type Func = nat

  /** The callbacks of one list, or a head pointer left pointing at freed nodes. */
  datatype HookList = Live(calls: seq<Func>) | Dangling

  /** The two lists of a Redis instance (`firstConnectCall`, `firstCleanupCall`). */
  datatype Registry = Registry(connect: HookList, disconnect: HookList)

  // ---------------------------------------------------------------- reference definitions

  /** `f` appended at the tail unless it is already in the list. */
  function Appended(s: seq<Func>, f: Func): (r: seq<Func>)
  {
    if f in s then s else s + [f]
  }

  /** `s` without any occurrence of `f`, the others in their order. */
  function Without(s: seq<Func>, f: Func): (r: seq<Func>)
    ensures |r| <= |s|
    decreases |s|
  {
    if |s| == 0 then [] else (if s[0] == f then [] else [s[0]]) + Without(s[1..], f)
  }

  predicate Distinct(s: seq<Func>) {
    forall i, j :: 0 <= i < j < |s| ==> s[i] != s[j]
  }

  // ---------------------------------------------------------------- the loops as written

  /** The search loop of redisxAddConnectHook from node `k` of a non-empty list: stop at a node
      holding `f`; at the last node, link a new node for `f` (which the next step finds). */
  function AddFrom(s: seq<Func>, f: Func, k: nat): (r: seq<Func>)
    requires k < |s|
    decreases |s| - k
  {
    if s[k] == f then s
    else if k == |s| - 1 then s + [f]
    else AddFrom(s, f, k + 1)
  }

  /** redisxAddConnectHook / redisxAddDisconnectHook on one list: an empty list gets a first node. */
  function AddHook(s: seq<Func>, f: Func): (r: seq<Func>)
  {
    if |s| == 0 then [f] else AddFrom(s, f, 0)
  }

  /** The unlink loop of redisxRemoveConnectHook: `kept` are the nodes left linked so far. */
  function RemoveFrom(kept: seq<Func>, s: seq<Func>, f: Func, k: nat): (r: seq<Func>)
    requires k <= |s|
    decreases |s| - k
  {
    if k == |s| then kept
    else if s[k] == f then RemoveFrom(kept, s, f, k + 1)
    else RemoveFrom(kept + [s[k]], s, f, k + 1)
  }

  function RemoveHook(s: seq<Func>, f: Func): (r: seq<Func>)
  {
    RemoveFrom([], s, f, 0)
  }

  // ---------------------------------------------------------------- the loops meet the references

  lemma {:induction false} AddFromAppends(s: seq<Func>, f: Func, k: nat)
    requires k < |s|
    requires forall i :: 0 <= i < k ==> s[i] != f
    ensures AddFrom(s, f, k) == Appended(s, f)
    decreases |s| - k
  {
    if s[k] != f {
      if k == |s| - 1 {
        assert f !in s by {
          forall i | 0 <= i < |s| ensures s[i] != f { }
        }
      } else {
        AddFromAppends(s, f, k + 1);
      }
    }
  }

  /** Adding a hook appends it at the tail exactly when it is not yet in the list. */
  lemma AddHookAppends(s: seq<Func>, f: Func)
    ensures AddHook(s, f) == Appended(s, f)
  {
    if |s| > 0 { AddFromAppends(s, f, 0); }
  }

  lemma {:induction false} WithoutConcat(a: seq<Func>, b: seq<Func>, f: Func)
    ensures Without(a + b, f) == Without(a, f) + Without(b, f)
    decreases |a|
  {
    if |a| > 0 {
      assert (a + b)[1..] == a[1..] + b;
      WithoutConcat(a[1..], b, f);
    } else {
      assert a + b == b;
    }
  }

  lemma {:induction false} RemoveFromFilters(kept: seq<Func>, s: seq<Func>, f: Func, k: nat)
    requires k <= |s|
    ensures RemoveFrom(kept, s, f, k) == kept + Without(s[k..], f)
    decreases |s| - k
  {
    if k < |s| {
      RemoveFromFilters(if s[k] == f then kept else kept + [s[k]], s, f, k + 1);
      assert s[k..] == [s[k]] + s[k + 1..];
      assert s[k..][1..] == s[k + 1..];
    }
  }

  /** Removing a hook unlinks exactly the nodes holding it, the others keeping their order. */
  lemma RemoveHookFilters(s: seq<Func>, f: Func)
    ensures RemoveHook(s, f) == Without(s, f)
  {
    RemoveFromFilters([], s, f, 0);
    assert s[0..] == s;
  }

  // ---------------------------------------------------------------- properties of the references

  /** No occurrence of the callback is left, every other callback keeps its count. */
  lemma {:induction false} WithoutRemovesAll(s: seq<Func>, f: Func)
    ensures f !in Without(s, f)
    ensures forall g :: g != f ==> multiset(Without(s, f))[g] == multiset(s)[g]
    decreases |s|
  {
    if |s| > 0 {
      WithoutRemovesAll(s[1..], f);
      assert s == [s[0]] + s[1..];
    }
  }

  /** A list without the callback is left as it is: removal keeps the order of the others. */
  lemma {:induction false} WithoutAbsent(s: seq<Func>, f: Func)
    requires f !in s
    ensures Without(s, f) == s
    decreases |s|
  {
    if |s| > 0 {
      assert s[1..] == s[|s| - |s[1..]|..];
      assert f !in s[1..] by {
        forall i | 0 <= i < |s[1..]| ensures s[1..][i] != f { assert s[1..][i] == s[i + 1]; }
      }
      WithoutAbsent(s[1..], f);
      assert s == [s[0]] + s[1..];
    }
  }

  /** Adding and then removing a callback is removing it. */
  lemma AddThenRemove(s: seq<Func>, f: Func)
    ensures Without(Appended(s, f), f) == Without(s, f)
  {
    if f !in s {
      WithoutConcat(s, [f], f);
      assert Without([f], f) == [];
    }
  }

  /** Removing and then adding a callback puts it at the tail, once. */
  lemma RemoveThenAdd(s: seq<Func>, f: Func)
    ensures Appended(Without(s, f), f) == Without(s, f) + [f]
  {
    WithoutRemovesAll(s, f);
  }

  /** Adding keeps a list free of duplicates. */
  lemma AppendedDistinct(s: seq<Func>, f: Func)
    requires Distinct(s)
    ensures Distinct(Appended(s, f))
    ensures f in Appended(s, f)
  {
  }

  /** Removing keeps a list free of duplicates. */
  lemma {:induction false} WithoutDistinct(s: seq<Func>, f: Func)
    requires Distinct(s)
    ensures Distinct(Without(s, f))
    decreases |s|
  {
    if |s| > 0 {
      var t := s[1..];
      assert Distinct(t) by {
        forall i, j | 0 <= i < j < |t| ensures t[i] != t[j] { assert t[i] == s[i + 1] && t[j] == s[j + 1]; }
      }
      WithoutDistinct(t, f);
      WithoutRemovesAll(t, f);
      assert s[0] !in t by {
        forall i | 0 <= i < |t| ensures t[i] != s[0] { assert t[i] == s[i + 1]; }
      }
      assert multiset(t)[s[0]] == 0;
      if s[0] != f {
        assert multiset(Without(t, f))[s[0]] == 0;
        var w := Without(t, f);
        var r := [s[0]] + w;
        forall i, j | 0 <= i < j < |r| ensures r[i] != r[j] {
          if i == 0 { assert r[j] == w[j - 1] && r[j] in multiset(w); }
          else { assert r[i] == w[i - 1] && r[j] == w[j - 1]; }
        }
      }
    }
  }

  // ---------------------------------------------------------------- the registry

  /** Add on one list; adding to a list whose head dangles is not defined, so it stays so. */
  function AddTo(l: HookList, f: Func): (r: HookList)
  {
    if l.Dangling? then Dangling else Live(AddHook(l.calls, f))
  }

  function RemoveFromList(l: HookList, f: Func): (r: HookList)
  {
    if l.Dangling? then Dangling else Live(RemoveHook(l.calls, f))
  }

  /** redisxClearConnectHooks as written: the nodes are freed but the head pointer is kept, so
      a non-empty list is left with a dangling head. */
  function ClearAsWritten(l: HookList): (r: HookList)
  {
    if l.Live? && |l.calls| == 0 then l else Dangling
  }

  /** Clear with the head pointer reset to NULL after the nodes are freed. */
  function Clear(l: HookList): (r: HookList)
  {
    Live([])
  }

  /** redisxAddConnectHook: a NULL instance or a NULL callback changes nothing. */
  function AddConnectHook(redis: Option<Registry>, f: Option<Func>): (r: Option<Registry>)
  {
    if redis.None? || f.None? then redis
    else Some(redis.value.(connect := AddTo(redis.value.connect, f.value)))
  }

  function RemoveConnectHook(redis: Option<Registry>, f: Option<Func>): (r: Option<Registry>)
  {
    if redis.None? || f.None? then redis
    else Some(redis.value.(connect := RemoveFromList(redis.value.connect, f.value)))
  }

  function ClearConnectHooks(redis: Option<Registry>): (r: Option<Registry>)
  {
    if redis.None? then redis else Some(redis.value.(connect := Clear(redis.value.connect)))
  }

  function AddDisconnectHook(redis: Option<Registry>, f: Option<Func>): (r: Option<Registry>)
  {
    if redis.None? || f.None? then redis
    else Some(redis.value.(disconnect := AddTo(redis.value.disconnect, f.value)))
  }

  function RemoveDisconnectHook(redis: Option<Registry>, f: Option<Func>): (r: Option<Registry>)
  {
    if redis.None? || f.None? then redis
    else Some(redis.value.(disconnect := RemoveFromList(redis.value.disconnect, f.value)))
  }

  function ClearDisconnectHooks(redis: Option<Registry>): (r: Option<Registry>)
  {
    if redis.None? then redis else Some(redis.value.(disconnect := Clear(redis.value.disconnect)))
  }

  /** The operations on a live list, as the reference definitions state them, and the NULL
      arguments that make them no-ops. */
  lemma ConnectHookOps(redis: Option<Registry>, f: Option<Func>)
    ensures redis.None? || f.None? ==>
              AddConnectHook(redis, f) == redis && RemoveConnectHook(redis, f) == redis
    ensures redis.None? ==> ClearConnectHooks(redis) == redis
    ensures redis.Some? && f.Some? && redis.value.connect.Live? ==>
              AddConnectHook(redis, f).value.connect == Live(Appended(redis.value.connect.calls, f.value))
              && RemoveConnectHook(redis, f).value.connect == Live(Without(redis.value.connect.calls, f.value))
    ensures redis.Some? ==> ClearConnectHooks(redis).value.connect == Live([])
  {
    if redis.Some? && f.Some? && redis.value.connect.Live? {
      AddHookAppends(redis.value.connect.calls, f.value);
      RemoveHookFilters(redis.value.connect.calls, f.value);
    }
  }

  lemma DisconnectHookOps(redis: Option<Registry>, f: Option<Func>)
    ensures redis.None? || f.None? ==>
              AddDisconnectHook(redis, f) == redis && RemoveDisconnectHook(redis, f) == redis
    ensures redis.None? ==> ClearDisconnectHooks(redis) == redis
    ensures redis.Some? && f.Some? && redis.value.disconnect.Live? ==>
              AddDisconnectHook(redis, f).value.disconnect == Live(Appended(redis.value.disconnect.calls, f.value))
              && RemoveDisconnectHook(redis, f).value.disconnect == Live(Without(redis.value.disconnect.calls, f.value))
    ensures redis.Some? ==> ClearDisconnectHooks(redis).value.disconnect == Live([])
  {
    if redis.Some? && f.Some? && redis.value.disconnect.Live? {
      AddHookAppends(redis.value.disconnect.calls, f.value);
      RemoveHookFilters(redis.value.disconnect.calls, f.value);
    }
  }

  /** The operations on one list never touch the other. */
  lemma ListsIndependent(redis: Registry, f: Option<Func>)
    ensures AddConnectHook(Some(redis), f).value.disconnect == redis.disconnect
    ensures RemoveConnectHook(Some(redis), f).value.disconnect == redis.disconnect
    ensures ClearConnectHooks(Some(redis)).value.disconnect == redis.disconnect
    ensures AddDisconnectHook(Some(redis), f).value.connect == redis.connect
    ensures RemoveDisconnectHook(Some(redis), f).value.connect == redis.connect
    ensures ClearDisconnectHooks(Some(redis)).value.connect == redis.connect
  {
  }

  /** As written, clearing a list with hooks does not leave it empty: its head dangles. */
  lemma ClearAsWrittenDangles(calls: seq<Func>)
    requires |calls| > 0
    ensures ClearAsWritten(Live(calls)) == Dangling
    ensures ClearAsWritten(Live(calls)) != Live([])
  {
  }

  /** With the head reset, a cleared list holds no hooks, and later additions start afresh. */
  lemma ClearLeavesNone(l: HookList, f: Func)
    ensures Clear(l) == Live([])
    ensures AddTo(Clear(l), f) == Live([f])
  {
  }
}
