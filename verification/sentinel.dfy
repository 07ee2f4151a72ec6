/** The Sentinel configuration of redisx-sentinel.c: the list of Sentinel servers, how a server
    is moved to the top of it, how the confirmed master is added to it, the checks on a new
    configuration, and the search for the master over the list. The servers' answers during
    the search are parameters (Probe). */
module Sentinel {
  import opened CStrings
  import opened Header
  import opened Requests
  import opened Net

  /** RedisServer: a host name (NULL possible) and a port (<= 0 for the default). */
  datatype Server = Server(host: Option<seq<byte>>, port: int)

  /** RedisSentinel */
  datatype Setup = Setup(servers: seq<Server>, serviceName: seq<byte>, timeoutMillis: int)

  // ---------------------------------------------------------------- rSetTopSentinelAsync

  /** The memmove of the first `idx` servers one place down, over the slot at `idx`. */
  function ShiftDown(s: seq<Server>, idx: nat): (r: seq<Server>)
    requires idx < |s|
    ensures |r| == |s|
  {
    seq(|s|, i requires 0 <= i < |s| => if 1 <= i <= idx then s[i - 1] else s[i])
  }

  /** rSetTopSentinelAsync: server `idx` is saved, the ones above it shift down, and it is put
      at the top. */
  function SetTop(s: seq<Server>, idx: nat): (r: seq<Server>)
    requires idx < |s|
  {
    if idx == 0 then s else ShiftDown(s, idx)[0 := s[idx]]
  }

  /** Moving to the top takes server `idx` out and puts it first, the others keeping their
      order: the list is permuted and nothing after `idx` moves. */
  lemma SetTopSpec(s: seq<Server>, idx: nat)
    requires idx < |s|
    ensures SetTop(s, idx) == [s[idx]] + s[..idx] + s[idx + 1..]
    ensures |SetTop(s, idx)| == |s| && multiset(SetTop(s, idx)) == multiset(s)
  {
    var r := SetTop(s, idx);
    var t := [s[idx]] + s[..idx] + s[idx + 1..];
    if idx == 0 {
      assert s == [s[0]] + s[1..];
    } else {
      forall i | 0 <= i < |s| ensures r[i] == t[i] {
        if i == 0 { } else if i <= idx { assert t[i] == s[..idx][i - 1]; } else { assert t[i] == s[idx + 1..][i - idx - 1]; }
      }
      assert r == t;
    }
    assert s == s[..idx] + [s[idx]] + s[idx + 1..];
  }

  // ---------------------------------------------------------------- rIncludeMasterAsync

  /** The comparison of rIncludeMasterAsync: the port (the default for a port <= 0) and the
      host name by strcmp. */
  predicate IsAt(server: Server, host: seq<byte>, port: int)
    requires server.host.Some?
  {
    EffectivePort(server.port) == port && CStr(server.host.value) == CStr(host)
  }

  datatype Search = Found(i: nat) | Absent | Unreadable

  /** The search from server `i`; Unreadable when strcmp meets a NULL host first. */
  function FindServer(s: seq<Server>, host: seq<byte>, port: int, i: nat): (r: Search)
    requires i <= |s|
    ensures r.Found? ==> i <= r.i < |s|
    decreases |s| - i
  {
    if i == |s| then Absent
    else if EffectivePort(s[i].port) != port then FindServer(s, host, port, i + 1)
    else if s[i].host.None? then Unreadable
    else if IsAt(s[i], host, port) then Found(i)
    else FindServer(s, host, port, i + 1)
  }

  predicate HostsSet(s: seq<Server>) {
    forall i :: 0 <= i < |s| ==> s[i].host.Some?
  }

  lemma {:induction false} FindServerFirst(s: seq<Server>, host: seq<byte>, port: int, i: nat)
    requires i <= |s| && HostsSet(s)
    ensures var r := FindServer(s, host, port, i);
            r.Found? || r.Absent?
    ensures var r := FindServer(s, host, port, i);
            r.Found? ==> IsAt(s[r.i], host, port) && forall j :: i <= j < r.i ==> !IsAt(s[j], host, port)
    ensures FindServer(s, host, port, i).Absent? ==> forall j :: i <= j < |s| ==> !IsAt(s[j], host, port)
    decreases |s| - i
  {
    if i < |s| { FindServerFirst(s, host, port, i + 1); }
  }

  /** The list after rIncludeMasterAsync, or None when the search hits a NULL host. */
  function IncludeMaster(s: seq<Server>, host: seq<byte>, port: int): (r: Option<seq<Server>>)
  {
    match FindServer(s, host, port, 0)
    case Found(i) => Some(SetTop(s, i))
    case Absent => Some([Server(Some(host), port)] + s)
    case Unreadable => None
  }

  /** The master ends up at the top: the first server at its address is moved there, keeping
      the count, or a new entry for it is put there, adding one. */
  lemma IncludeMasterSpec(s: seq<Server>, host: seq<byte>, port: int)
    requires HostsSet(s)
    ensures var r := IncludeMaster(s, host, port);
            r.Some? && |r.value| >= 1 && HostsSet(r.value)
            && (r.value[0].host.Some? && (port > 0 ==> IsAt(r.value[0], host, port)))
    ensures var r := IncludeMaster(s, host, port).value;
            (exists i :: 0 <= i < |s| && IsAt(s[i], host, port)) ==> |r| == |s| && multiset(r) == multiset(s)
    ensures var r := IncludeMaster(s, host, port).value;
            (forall i :: 0 <= i < |s| ==> !IsAt(s[i], host, port)) ==> r == [Server(Some(host), port)] + s
  {
    FindServerFirst(s, host, port, 0);
    var f := FindServer(s, host, port, 0);
    if f.Found? {
      SetTopSpec(s, f.i);
      var r := SetTop(s, f.i);
      assert r[0] == s[f.i];
      assert HostsSet(r) by {
        forall k | 0 <= k < |r| ensures r[k].host.Some? {
          assert r[k] in multiset(s);
        }
      }
    } else {
      var r := [Server(Some(host), port)] + s;
      assert HostsSet(r) by {
        forall k | 0 <= k < |r| ensures r[k].host.Some? { if k > 0 { assert r[k] == s[k - 1]; } }
      }
    }
  }

  /** Including the same master a second time changes nothing. */
  lemma IncludeMasterTwice(s: seq<Server>, host: seq<byte>, port: int)
    requires HostsSet(s) && port > 0
    ensures IncludeMaster(s, host, port).Some?
    ensures IncludeMaster(IncludeMaster(s, host, port).value, host, port) == IncludeMaster(s, host, port)
  {
    IncludeMasterSpec(s, host, port);
    var r := IncludeMaster(s, host, port).value;
    assert FindServer(r, host, port, 0) == Found(0);
  }

  // ---------------------------------------------------------------- redisxValidateSentinel

  /** redisxValidateSentinel; the caller passes `nServers` entries. */
  function Validate(serviceName: Option<seq<byte>>, serverList: Option<seq<Server>>, nServers: int): (r: Status)
    requires serverList.Some? ==> nServers <= |serverList.value|
    ensures Blank(serviceName) ==> r == NameInvalid
    ensures !Blank(serviceName) && serverList.None? ==> r == NullArg
    ensures !Blank(serviceName) && serverList.Some? && nServers < 1 ==> r == SizeInvalid
  {
    if Blank(serviceName) then NameInvalid
    else if serverList.None? then NullArg
    else if nServers < 1 then SizeInvalid
    else if Blank(serverList.value[0].host) then GroupInvalid
    else Success
  }

  /** A configuration is accepted exactly when it names the service and lists at least one
      server whose first host name is set. */
  lemma ValidateAccepts(serviceName: Option<seq<byte>>, serverList: Option<seq<Server>>, nServers: int)
    requires serverList.Some? ==> nServers <= |serverList.value|
    ensures Validate(serviceName, serverList, nServers) == Success <==>
              !Blank(serviceName) && serverList.Some? && nServers >= 1 && !Blank(serverList.value[0].host)
    ensures Validate(serviceName, serverList, nServers) == GroupInvalid <==>
              !Blank(serviceName) && serverList.Some? && nServers >= 1 && Blank(serverList.value[0].host)
  {
  }

  /** redisxInitSentinel: validation, then redisxInit on the first host; the Sentinel keeps the
      `nServers` entries, the service name and the default Sentinel timeout. */
  function InitSentinel(serviceName: Option<seq<byte>>, serverList: Option<seq<Server>>, nServers: int,
                        lookup: Status, defaultMillis: int, defaultSentinelMillis: int): (r: Option<(Instance, Setup)>)
    requires serverList.Some? ==> nServers <= |serverList.value|
  {
    if Validate(serviceName, serverList, nServers) != Success then None
    else
      match Init(serverList.value[0].host, lookup, defaultMillis)
      case None => None
      case Some(redis) =>
        Some((redis, Setup(serverList.value[..nServers], CStr(serviceName.value), defaultSentinelMillis)))
  }

  lemma InitSentinelSpec(serviceName: Option<seq<byte>>, serverList: Option<seq<Server>>, nServers: int,
                         lookup: Status, defaultMillis: int, defaultSentinelMillis: int)
    requires serverList.Some? ==> nServers <= |serverList.value|
    ensures var r := InitSentinel(serviceName, serverList, nServers, lookup, defaultMillis, defaultSentinelMillis);
            r.Some? <==> Validate(serviceName, serverList, nServers) == Success && lookup == Success
    ensures var r := InitSentinel(serviceName, serverList, nServers, lookup, defaultMillis, defaultSentinelMillis);
            r.Some? ==>
              |r.value.1.servers| == nServers >= 1
              && (forall i :: 0 <= i < nServers ==> r.value.1.servers[i] == serverList.value[i])
              && r.value.0.config.address == Address(CStr(serverList.value[0].host.value), TCP_PORT)
              && r.value.1.timeoutMillis == defaultSentinelMillis
  {
    ValidateAccepts(serviceName, serverList, nServers);
    InitDefaults(if serverList.Some? && nServers >= 1 then serverList.value[0].host else None, lookup, defaultMillis);
  }

  /** redisxSetSentinelTimeout: X_NO_INIT without a Sentinel configuration; otherwise a positive
      timeout is stored and anything else restores the default. */
  function SetSentinelTimeout(s: Option<Setup>, millis: int, defaultSentinelMillis: int): (r: (Status, Option<Setup>))
  {
    if s.None? then (NoInit, s)
    else (Success, Some(s.value.(timeoutMillis := if millis > 0 then millis else defaultSentinelMillis)))
  }

  lemma SetSentinelTimeoutSpec(s: Option<Setup>, millis: int, defaultSentinelMillis: int)
    ensures var r := SetSentinelTimeout(s, millis, defaultSentinelMillis);
            (r.0 == Success <==> s.Some?) && (s.None? ==> r.1 == s)
            && (s.Some? ==> r.1.value.servers == s.value.servers
                            && r.1.value.timeoutMillis == (if millis > 0 then millis else defaultSentinelMillis))
  {
  }

  // ---------------------------------------------------------------- rDiscoverSentinelAsync

  /** How Sentinel server i answers during the search: whether the address lookup and the
      connection succeed, what rConfirmMasterRoleAsync returns on it (X_SUCCESS when it is
      the master itself), whether that answer came from the ROLE reply rather than the INFO
      fallback, the master address it reports (None when the request, the read or the
      2-element reply check fails), and the outcome of the address lookup for that master. */
  datatype Probe = Probe(connects: bool, role: Status, byRole: bool, master: Option<Server>, lookup: Status)

  /** The outcome: the status, the server list, the master address set (None when the search
      stayed on the server it connected to), the server it stopped at, and the timeout left in
      the configuration; or NullHostCompared when rIncludeMasterAsync passes a NULL host name
      to strcmp. */
  datatype Discovery = Discovery(status: Status, servers: seq<Server>, master: Option<Address>,
                                 at: Option<nat>, timeoutMillis: int)
                     | NullHostCompared

  /** The timeout used while searching. */
  function SearchTimeout(sentinelMillis: int, defaultSentinelMillis: int): int {
    if sentinelMillis > 0 then sentinelMillis else defaultSentinelMillis
  }

  /** rTryConnectSentinelAsync succeeds: rSetServerAsync accepts the server's host name, which
      is neither NULL nor empty, and the connection is made. */
  predicate Reaches(server: Server, p: Probe) {
    p.connects && !Blank(server.host)
  }

  /** The address rSetServerAsync leaves in the configuration for a server: the host name
      copied up to its NUL, and the effective port. */
  function HostOf(server: Server): (h: seq<byte>)
    requires server.host.Some?
    ensures IsCString(h)
  {
    CStr(server.host.value)
  }

  /** The search of rIncludeMasterAsync for the address of a server on the list: with that
      server at or after position `k`, it finds an entry at the address no later than the
      server, unless a NULL host at the same port comes first. */
  lemma {:induction false} FindOwnAddress(s: seq<Server>, i: nat, k: nat)
    requires k <= i < |s| && s[i].host.Some?
    ensures var r := FindServer(s, HostOf(s[i]), EffectivePort(s[i].port), k);
            !r.Absent? && (r.Found? ==> r.i <= i && s[r.i].host.Some? && IsAt(s[r.i], HostOf(s[i]), EffectivePort(s[i].port)))
    ensures HostsSet(s) ==> FindServer(s, HostOf(s[i]), EffectivePort(s[i].port), k).Found?
    decreases i - k
  {
    assert IsAt(s[i], HostOf(s[i]), EffectivePort(s[i].port));
    if k < i {
      FindOwnAddress(s, i, k + 1);
    }
  }

  /** Including the address of Sentinel `i` as the master only reorders the list and puts an
      entry at that address on top; the strcmp on a NULL host can only happen when the list
      holds one. */
  lemma IncludeOwnAddress(s: seq<Server>, i: nat)
    requires i < |s| && s[i].host.Some?
    ensures var r := IncludeMaster(s, HostOf(s[i]), EffectivePort(s[i].port));
            r.Some? ==> |r.value| == |s| && multiset(r.value) == multiset(s)
                        && r.value[0].host.Some? && IsAt(r.value[0], HostOf(s[i]), EffectivePort(s[i].port))
    ensures HostsSet(s) ==> IncludeMaster(s, HostOf(s[i]), EffectivePort(s[i].port)).Some?
  {
    FindOwnAddress(s, i, 0);
    var f := FindServer(s, HostOf(s[i]), EffectivePort(s[i].port), 0);
    if f.Found? {
      SetTopSpec(s, f.i);
      assert SetTop(s, f.i)[0] == s[f.i];
    }
  }

  /** The list after rConfirmMasterRoleAsync confirmed Sentinel `i` as the master: from the
      ROLE reply, rIncludeMasterAsync moves the entry at the address connected to onto the
      top; from the INFO fallback, the list is left alone. None for the strcmp on NULL. */
  function ConfirmedList(servers: seq<Server>, i: nat, p: Probe): (r: Option<seq<Server>>)
    requires i < |servers| && servers[i].host.Some?
    ensures r.Some? ==> |r.value| == |servers| && multiset(r.value) == multiset(servers)
    ensures HostsSet(servers) ==> r.Some?
  {
    IncludeOwnAddress(servers, i);
    if p.byRole then IncludeMaster(servers, HostOf(servers[i]), EffectivePort(servers[i].port))
    else Some(servers)
  }

  /** The end of the search at Sentinel `i` once it named master `m`: rSetServerAsync on the
      master's address; a refusal returns its status with `onError` as the timeout left, and
      success moves the Sentinel to the top. */
  function UseMaster(servers: seq<Server>, i: nat, m: Server, lookup: Status, saved: int, onError: int): (r: Discovery)
    requires i < |servers|
    ensures r.Discovery? && r.at == Some(i) && |r.servers| == |servers|
    ensures r.master.None? ==> r.status != Success && r.servers == servers && r.timeoutMillis == onError
    ensures r.master.Some? ==> r.status == Success && r.servers == SetTop(servers, i) && r.timeoutMillis == saved
  {
    match SetServer(m.host, m.port, lookup)
    case ServerRefused(st) => Discovery(st, servers, None, Some(i), onError)
    case ServerSet(a) => Discovery(Success, SetTop(servers, i), Some(a), Some(i), saved)
  }

  /** The loop of rDiscoverSentinelAsync as written from server `i`: a server that is NOT the
      master counts as found (the test at line 211); one that is the master has been moved to
      the top by rConfirmMasterRoleAsync, and the search goes on over the reordered list; a
      master address that cannot be set returns with the search timeout still in place. */
  function DiscoverAsWrittenFrom(servers: seq<Server>, probes: seq<Probe>, i: nat, saved: int, searching: int): (r: Discovery)
    requires |probes| == |servers| && i <= |servers|
    decreases |servers| - i
  {
    if i == |servers| then Discovery(NoService, servers, None, None, saved)
    else
      var p := probes[i];
      if !Reaches(servers[i], p) then DiscoverAsWrittenFrom(servers, probes, i + 1, saved, searching)
      else if p.role != Success then Discovery(Success, servers, None, Some(i), saved)
      else
        match ConfirmedList(servers, i, p)
        case None => NullHostCompared
        case Some(l) =>
          if p.master.None? then DiscoverAsWrittenFrom(l, probes, i + 1, saved, searching)
          else UseMaster(l, i, p.master.value, p.lookup, saved, searching)
  }

  function DiscoverAsWritten(s: Setup, probes: seq<Probe>, saved: int, defaultSentinelMillis: int): (r: Discovery)
    requires |probes| == |s.servers|
  {
    DiscoverAsWrittenFrom(s.servers, probes, 0, saved, SearchTimeout(s.timeoutMillis, defaultSentinelMillis))
  }

  /** The search with the role test the right way round (a server that is the master ends the
      search, moved to the top when ROLE confirmed it) and the saved timeout restored on every
      exit. */
  function DiscoverFrom(servers: seq<Server>, probes: seq<Probe>, i: nat, saved: int): (r: Discovery)
    requires |probes| == |servers| && i <= |servers|
    decreases |servers| - i
  {
    if i == |servers| then Discovery(NoService, servers, None, None, saved)
    else
      var p := probes[i];
      if !Reaches(servers[i], p) then DiscoverFrom(servers, probes, i + 1, saved)
      else if p.role == Success then
        match ConfirmedList(servers, i, p)
        case None => NullHostCompared
        case Some(l) => Discovery(Success, l, None, Some(i), saved)
      else if p.master.None? then DiscoverFrom(servers, probes, i + 1, saved)
      else UseMaster(servers, i, p.master.value, p.lookup, saved, saved)
  }

  function Discover(s: Setup, probes: seq<Probe>, saved: int): (r: Discovery)
    requires |probes| == |s.servers|
  {
    DiscoverFrom(s.servers, probes, 0, saved)
  }

  /** A server the search can stop at: reachable and either the master or able to name one. */
  predicate Answers(server: Server, p: Probe) {
    Reaches(server, p) && (p.role == Success || p.master.Some?)
  }

  /** Where the search stops: at the first server that answers, or, exactly when none does,
      nowhere with X_NO_SERVICE and the list untouched. The strcmp on NULL needs a NULL host
      on the list. */
  lemma {:induction false} DiscoverFromStops(servers: seq<Server>, probes: seq<Probe>, i: nat, saved: int)
    requires |probes| == |servers| && i <= |servers|
    ensures var r := DiscoverFrom(servers, probes, i, saved);
            (r.Discovery? && r.at.None?) <==> forall j :: i <= j < |servers| ==> !Answers(servers[j], probes[j])
    ensures var r := DiscoverFrom(servers, probes, i, saved);
            r.Discovery? && r.at.Some? ==>
              i <= r.at.value < |servers| && Answers(servers[r.at.value], probes[r.at.value])
              && (forall j :: i <= j < r.at.value ==> !Answers(servers[j], probes[j]))
    ensures var r := DiscoverFrom(servers, probes, i, saved);
            r.Discovery? && r.at.None? ==> r.status == NoService && r.servers == servers
    ensures HostsSet(servers) ==> DiscoverFrom(servers, probes, i, saved).Discovery?
    decreases |servers| - i
  {
    if i < |servers| && !Answers(servers[i], probes[i]) {
      DiscoverFromStops(servers, probes, i + 1, saved);
    }
  }

  /** What the search leaves behind: the caller's timeout and a reordering of the list. A
      Sentinel confirmed as the master by ROLE has an entry at its address moved to the top
      (the INFO fallback leaves the list alone); a Sentinel that named a master is moved to
      the top when that master's address is set, and the list is untouched when it is not. */
  lemma {:induction false} DiscoverFromKeeps(servers: seq<Server>, probes: seq<Probe>, i: nat, saved: int)
    requires |probes| == |servers| && i <= |servers|
    ensures var r := DiscoverFrom(servers, probes, i, saved);
            r.Discovery? ==>
              r.timeoutMillis == saved && |r.servers| == |servers| && multiset(r.servers) == multiset(servers)
              && (r.at.Some? ==> r.at.value < |servers|) && (r.master.Some? ==> r.at.Some?)
    ensures var r := DiscoverFrom(servers, probes, i, saved);
            r.Discovery? && r.at.Some? && r.at.value < |servers| && probes[r.at.value].role == Success ==>
              var k := r.at.value;
              servers[k].host.Some? && r.status == Success && r.master.None?
              && (probes[k].byRole ==> r.servers[0].host.Some?
                                       && IsAt(r.servers[0], HostOf(servers[k]), EffectivePort(servers[k].port)))
              && (!probes[k].byRole ==> r.servers == servers)
    ensures var r := DiscoverFrom(servers, probes, i, saved);
            r.Discovery? && r.at.Some? && r.at.value < |servers| && probes[r.at.value].role != Success ==>
              (r.master.Some? ==> r.status == Success && r.servers == SetTop(servers, r.at.value)
                                  && r.servers[0] == servers[r.at.value])
              && (r.master.None? ==> r.status != Success && r.servers == servers)
    decreases |servers| - i
  {
    if i < |servers| {
      var p := probes[i];
      if !Answers(servers[i], p) {
        DiscoverFromKeeps(servers, probes, i + 1, saved);
      } else if p.role == Success {
        IncludeOwnAddress(servers, i);
      } else {
        SetTopSpec(servers, i);
      }
    }
  }

  /** The search restores the caller's timeout on every exit and only reorders the server
      list. It stops at the first server that is the master or names one: a master confirmed
      by ROLE goes to the top, and a Sentinel that names the master goes to the top once the
      master's address is set. It ends with X_NO_SERVICE, the list untouched, exactly when no
      server answers, and it reaches the strcmp on NULL only when the list holds a NULL host. */
  lemma DiscoverSpec(s: Setup, probes: seq<Probe>, saved: int)
    requires |probes| == |s.servers|
    ensures HostsSet(s.servers) ==> Discover(s, probes, saved).Discovery?
    ensures var r := Discover(s, probes, saved);
            r.Discovery? ==> r.timeoutMillis == saved && multiset(r.servers) == multiset(s.servers)
    ensures var r := Discover(s, probes, saved);
            (r.Discovery? && r.at.None?) <==> forall j :: 0 <= j < |s.servers| ==> !Answers(s.servers[j], probes[j])
    ensures var r := Discover(s, probes, saved);
            r.Discovery? && r.at.None? ==> r.status == NoService && r.servers == s.servers
    ensures var r := Discover(s, probes, saved);
            r.Discovery? && r.at.Some? ==>
              r.at.value < |s.servers| && Answers(s.servers[r.at.value], probes[r.at.value])
              && forall j :: 0 <= j < r.at.value ==> !Answers(s.servers[j], probes[j])
    ensures var r := Discover(s, probes, saved);
            r.Discovery? && r.at.Some? && r.at.value < |s.servers| && probes[r.at.value].role == Success
            && probes[r.at.value].byRole ==>
              r.status == Success && r.servers[0].host.Some?
              && IsAt(r.servers[0], HostOf(s.servers[r.at.value]), EffectivePort(s.servers[r.at.value].port))
    ensures var r := Discover(s, probes, saved);
            r.Discovery? && r.master.Some? ==>
              r.status == Success && r.at.Some? && r.at.value < |s.servers| && r.servers[0] == s.servers[r.at.value]
  {
    DiscoverFromStops(s.servers, probes, 0, saved);
    DiscoverFromKeeps(s.servers, probes, 0, saved);
  }

  /** Two Sentinels "a" and "b" at the default Sentinel port. */
  function TwoSentinels(): (s: Setup)
  {
    Setup([Server(Some(Ascii("a")), 26379), Server(Some(Ascii("b")), 26379)], Ascii("mymaster"), 0)
  }

  /** "a" cannot be reached, and ROLE on "b" says master: the search stops at "b" and moves it
      to the top of the list. */
  lemma DiscoverMovesMasterToTop()
    ensures var s := TwoSentinels();
            var probes := [Probe(false, Failure, true, None, Success), Probe(true, Success, true, None, Success)];
            Discover(s, probes, 100) == Discovery(Success, [s.servers[1], s.servers[0]], None, Some(1), 100)
  {
    var s := TwoSentinels();
    assert HostOf(s.servers[0]) == Ascii("a");
    assert HostOf(s.servers[1]) == Ascii("b");
  }

  /** One Sentinel that is reachable, is not the master, and names a master. */
  function OneSentinel(): (s: Setup)
  {
    Setup([Server(Some(Ascii("sentinel")), 26379)], Ascii("mymaster"), 0)
  }

  /** As written, the search stops at that Sentinel and never asks it for the master; with the
      role test corrected, the named master becomes the server. */
  lemma DiscoverAsWrittenStopsAtSentinel()
    ensures var s := OneSentinel();
            var probes := [Probe(true, Failure, true, Some(Server(Some([109]), 6380)), Success)];
            DiscoverAsWritten(s, probes, 100, 5000) == Discovery(Success, s.servers, None, Some(0), 100)
            && Discover(s, probes, 100) == Discovery(Success, s.servers, Some(Address([109], 6380)), Some(0), 100)
  {
    assert CStr([109]) == [109];
    assert StrLen(Ascii("sentinel")) > 0;
  }

  /** As written, a master confirmed by ROLE is moved to the top but then asked for a master
      it cannot name, so the search goes past it and ends with X_NO_SERVICE; corrected, it
      stops there with success. */
  lemma DiscoverAsWrittenMissesMaster()
    ensures var s := TwoSentinels();
            var probes := [Probe(false, Failure, true, None, Success), Probe(true, Success, true, None, Success)];
            DiscoverAsWritten(s, probes, 100, 5000) == Discovery(NoService, [s.servers[1], s.servers[0]], None, None, 100)
            && Discover(s, probes, 100).status == Success
  {
    DiscoverMovesMasterToTop();
  }

  /** As written, a Sentinel that names a master with an empty host name counts as found,
      with the caller's timeout. */
  lemma DiscoverAsWrittenStopsWithTimeout()
    ensures var s := OneSentinel();
            var probes := [Probe(true, Failure, true, Some(Server(Some([]), 6380)), Success)];
            DiscoverAsWritten(s, probes, 100, 5000).timeoutMillis == 100
  {
    var s := OneSentinel();
    assert StrLen(Ascii("sentinel")) > 0;
    assert Reaches(s.servers[0], Probe(true, Failure, true, Some(Server(Some([]), 6380)), Success));
  }

  /** As written, the master itself reporting an empty host name returns X_NAME_INVALID with
      the search timeout left in the configuration instead of the caller's; corrected, the
      search stops at the master with the caller's timeout. */
  lemma DiscoverAsWrittenKeepsSearchTimeout()
    ensures var s := OneSentinel();
            var probes := [Probe(true, Success, true, Some(Server(Some([]), 6380)), Success)];
            var r := DiscoverAsWritten(s, probes, 100, 5000);
            r.Discovery? && r.status == NameInvalid && r.timeoutMillis == 5000
            && Discover(s, probes, 100).Discovery? && Discover(s, probes, 100).timeoutMillis == 100
  {
    var s := OneSentinel();
    var p := Probe(true, Success, true, Some(Server(Some([]), 6380)), Success);
    assert CStr([]) == [];
    assert StrLen(Ascii("sentinel")) > 0;
    assert Reaches(s.servers[0], p);
    assert FindServer(s.servers, HostOf(s.servers[0]), 26379, 0) == Found(0);
    assert ConfirmedList(s.servers, 0, p) == Some(s.servers);
    assert SetServer(Some([]), 6380, Success) == ServerRefused(NameInvalid);
  }
}
