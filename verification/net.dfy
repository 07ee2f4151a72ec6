/** The pure pieces of connection setup in redisx-net.c: the server address and port of an
    instance, the socket timeout, the HELLO / AUTH / CLIENT SETNAME requests a new connection
    sends, the client name, the reset state of a client, the list of open instances and the
    setters that refuse to change a connected instance. Sockets, DNS and threads are not part
    of this model: the outcome of the address lookup is a parameter. */
module Net {
  import opened CStrings
  import opened Header
  import opened Requests

  // ---------------------------------------------------------------- server address

  /** The port used when none (a port <= 0) is given. */
  function EffectivePort(port: int): (p: int)
    ensures p > 0
    ensures port > 0 ==> p == port
    ensures port <= 0 ==> p == TCP_PORT
  {
    if port > 0 then port else TCP_PORT
  }

  datatype Address = Address(hostname: seq<byte>, port: int)

  datatype ServerSet = ServerSet(address: Address) | ServerRefused(status: Status)

  /** rSetServerAsync: a NULL host name, then an empty one, then a failed address lookup
      (`lookup`, its status) refuse; otherwise the host name is copied and the port is the one
      given, or the default port. */
  function SetServer(hostname: Option<seq<byte>>, port: int, lookup: Status): (r: ServerSet)
    ensures hostname.None? ==> r == ServerRefused(NullArg)
    ensures hostname.Some? && StrLen(hostname.value) == 0 ==> r == ServerRefused(NameInvalid)
    ensures r.ServerSet? <==> !Blank(hostname) && lookup == Success
  {
    if hostname.None? then ServerRefused(NullArg)
    else if StrLen(hostname.value) == 0 then ServerRefused(NameInvalid)
    else if lookup != Success then ServerRefused(lookup)
    else ServerSet(Address(CStr(hostname.value), EffectivePort(port)))
  }

  /** The port rConnectClientAsync connects to: the effective port stored in a `uint16_t`, so
      only ports up to 65535 survive. */
  function ConnectPort(port: int): (p: int)
    ensures 0 <= p < 0x1_0000
    ensures 0 < port < 0x1_0000 ==> p == port
    ensures port <= 0 ==> p == TCP_PORT
  {
    EffectivePort(port) % 0x1_0000
  }

  /** The stored port is always a real one, and rConnectClientAsync, which again replaces a
      port <= 0 by the default, connects to the port asked for when it fits 16 bits and to that
      port modulo 65536 otherwise: neither rSetServerAsync nor redisxSetPort checks the range. */
  lemma SetServerPort(hostname: seq<byte>, port: int)
    requires StrLen(hostname) > 0
    ensures var r := SetServer(Some(hostname), port, Success);
            r.ServerSet? && r.address.port > 0
            && EffectivePort(r.address.port) == EffectivePort(port)
            && ConnectPort(r.address.port) == EffectivePort(port) % 0x1_0000
            && (port < 0x1_0000 ==> ConnectPort(r.address.port) == EffectivePort(port))
            && r.address.hostname == CStr(hostname)
    ensures ConnectPort(70000) == 4464
  {
  }

  // ---------------------------------------------------------------- socket timeout

  datatype Timeval = Timeval(sec: int, usec: int)

  /** The send timeout rConfigSocket sets, or None when the timeout is not positive. */
  function SocketTimeout(millis: int): (r: Option<Timeval>)
  {
    if millis > 0 then Some(Timeval(millis / 1000, 1000 * (millis % 1000))) else None
  }

  function MillisOf(tv: Timeval): (ms: int) {
    tv.sec * 1000 + tv.usec / 1000
  }

  /** The timeval holds exactly the given milliseconds, with the microseconds below a second,
      and converts back to them. */
  lemma SocketTimeoutExact(millis: int)
    ensures SocketTimeout(millis).Some? <==> millis > 0
    ensures millis > 0 ==>
      var tv := SocketTimeout(millis).value;
      tv.sec * 1_000_000 + tv.usec == 1000 * millis && 0 <= tv.usec < 1_000_000 && tv.sec >= 0
      && MillisOf(tv) == millis
  {
    if millis > 0 {
      var tv := SocketTimeout(millis).value;
      assert tv.usec / 1000 == millis % 1000;
    }
  }

  /** redisxSetSocketTimeout: a positive timeout is stored, anything else restores the default. */
  function SetSocketTimeout(millis: int, defaultMillis: int): (stored: int)
  {
    if millis > 0 then millis else defaultMillis
  }

  lemma SetSocketTimeoutSpec(millis: int, defaultMillis: int)
    ensures millis > 0 ==> SetSocketTimeout(millis, defaultMillis) == millis
    ensures millis <= 0 ==> SetSocketTimeout(millis, defaultMillis) == defaultMillis
    ensures defaultMillis > 0 ==> SocketTimeout(SetSocketTimeout(millis, defaultMillis)).Some?
  {
  }

  /** rIsLowLatency: FALSE for a NULL client, otherwise TRUE unless it is the pipeline client. */
  function IsLowLatency(idx: Option<int>): (r: bool)
  {
    idx.Some? && idx.value != ChannelIndex(Pipeline)
  }

  lemma LowLatencyChannels(c: Channel)
    ensures IsLowLatency(Some(ChannelIndex(c))) <==> c != Pipeline
    ensures !IsLowLatency(None)
  {
  }

  // ---------------------------------------------------------------- HELLO and its fallback

  const HELLO: seq<byte> := Ascii("HELLO")
  const AUTH: seq<byte> := Ascii("AUTH")
  const DEFAULT_USER: seq<byte> := Ascii("default")
  const SETNAME: seq<byte> := Ascii("SETNAME")
  const CLIENT: seq<byte> := Ascii("CLIENT")

  /** The arguments of rHelloAsync: HELLO, the protocol, AUTH with the user (or "default") and
      the password when a password is set, then SETNAME and the client name. */
  function HelloArgs(protocol: int, username: Option<seq<byte>>, password: Option<seq<byte>>,
                     id: seq<byte>): (args: seq<seq<byte>>)
  {
    [HELLO, Decimal(protocol)]
    + (if password.Some? then [AUTH, if username.Some? then username.value else DEFAULT_USER, password.value] else [])
    + [SETNAME, id]
  }

  lemma HelloLayout(protocol: int, username: Option<seq<byte>>, password: Option<seq<byte>>, id: seq<byte>)
    ensures var a := HelloArgs(protocol, username, password, id);
            |a| == (if password.Some? then 7 else 4)
            && a[0] == HELLO && a[1] == Decimal(protocol)
            && a[|a| - 2] == SETNAME && a[|a| - 1] == id
            && (password.Some? ==> a[2] == AUTH && a[4] == password.value
                                   && a[3] == (if username.Some? then username.value else DEFAULT_USER))
  {
  }

  /** rHelloAsync fills a local array of six pointers. */
  const HELLO_SLOTS_AS_WRITTEN: int := 6

  /** The HELLO arguments as the code stores them, or None when it writes past the array. */
  function HelloArrayAsWritten(protocol: int, username: Option<seq<byte>>, password: Option<seq<byte>>,
                               id: seq<byte>): (r: Option<seq<seq<byte>>>)
  {
    var a := HelloArgs(protocol, username, password, id);
    if |a| <= HELLO_SLOTS_AS_WRITTEN then Some(a) else None
  }

  /** With a password set, the seventh argument (the client name) is stored past the array. */
  lemma HelloAsWrittenOverflows(protocol: int, username: Option<seq<byte>>, password: seq<byte>, id: seq<byte>)
    ensures |HelloArgs(protocol, username, Some(password), id)| == HELLO_SLOTS_AS_WRITTEN + 1
    ensures HelloArrayAsWritten(protocol, username, Some(password), id).None?
  {
    HelloLayout(protocol, username, Some(password), id);
  }

  /** Room for every argument HELLO can take. */
  const HELLO_SLOTS: int := 7

  function HelloArray(protocol: int, username: Option<seq<byte>>, password: Option<seq<byte>>,
                      id: seq<byte>): (r: Option<seq<seq<byte>>>)
  {
    var a := HelloArgs(protocol, username, password, id);
    if |a| <= HELLO_SLOTS then Some(a) else None
  }

  /** With seven slots every HELLO fits, and the request is the one described by HelloArgs. */
  lemma HelloArrayFits(protocol: int, username: Option<seq<byte>>, password: Option<seq<byte>>, id: seq<byte>)
    ensures HelloArray(protocol, username, password, id) == Some(HelloArgs(protocol, username, password, id))
  {
    HelloLayout(protocol, username, password, id);
  }

  /** rAuthAsync: AUTH with the user name when one is set, else AUTH with the password alone. */
  function AuthRequest(username: Option<seq<byte>>, password: seq<byte>): (r: Request)
  {
    Plain(if username.Some? then [AUTH, username.value, password] else [AUTH, password])
  }

  /** The old way of logging in in rConnectClientAsync, after a failed HELLO: AUTH if a
      password is set, then CLIENT SETNAME with its reply skipped. */
  function FallbackRequests(username: Option<seq<byte>>, password: Option<seq<byte>>, id: seq<byte>): (rs: seq<Request>)
  {
    (if password.Some? then [AuthRequest(username, password.value)] else [])
    + Confirmed(false, Plain([CLIENT, SETNAME, id]))
  }

  /** Both ways of logging in name the client and authenticate exactly when a password is set,
      with the same user. */
  lemma LoginsAgree(protocol: int, username: Option<seq<byte>>, password: Option<seq<byte>>, id: seq<byte>)
    ensures var h := HelloArgs(protocol, username, password, id);
            var f := FallbackRequests(username, password, id);
            |f| == (if password.Some? then 3 else 2)
            && f[|f| - 1].args[|f[|f| - 1].args| - 1] == h[|h| - 1] == id
            && f[|f| - 2] == SKIP_REPLY
            && (password.Some? ==>
                  f[0].args[0] == h[2] == AUTH
                  && f[0].args[|f[0].args| - 1] == h[4] == password.value
                  && (username.Some? ==> f[0].args[1] == h[3] == username.value))
  {
    HelloLayout(protocol, username, password, id);
  }

  const RESP2: int := 2

  /** What a new connection sends to log in, whether HELLO stays in use, and the protocol left
      in the configuration. */
  datatype Greeting = Greeting(requests: seq<Request>, hello: bool, protocol: int)

  /** The login of rConnectClientAsync as written. `status` starts as X_SUCCESS and only a
      failed HELLO (`helloOk` FALSE) changes it, so the old way runs only after HELLO was tried:
      with `hello` clear nothing is sent, not even AUTH for a configured password. After a
      failed HELLO the configuration drops HELLO and falls back to RESP2. */
  function LoginAsWritten(hello: bool, helloOk: bool, protocol: int, username: Option<seq<byte>>,
                          password: Option<seq<byte>>, id: seq<byte>): (g: Greeting)
  {
    if !hello then Greeting([], false, protocol)
    else if helloOk then Greeting([Plain(HelloArgs(protocol, username, password, id))], true, protocol)
    else Greeting([Plain(HelloArgs(protocol, username, password, id))] + FallbackRequests(username, password, id), false, RESP2)
  }

  /** The login with the old way taken whenever HELLO is not in use or fails. */
  function Login(hello: bool, helloOk: bool, protocol: int, username: Option<seq<byte>>,
                 password: Option<seq<byte>>, id: seq<byte>): (g: Greeting)
  {
    var tried := if hello then [Plain(HelloArgs(protocol, username, password, id))] else [];
    if hello && helloOk then Greeting(tried, true, protocol)
    else Greeting(tried + FallbackRequests(username, password, id), false, RESP2)
  }

  /** As written, a connection without HELLO sends nothing: a configured password never
      reaches the server and the client is never named. */
  lemma LoginAsWrittenSkipsAuth(protocol: int, username: Option<seq<byte>>, password: seq<byte>, id: seq<byte>)
    ensures LoginAsWritten(false, false, protocol, username, Some(password), id).requests == []
    ensures LoginAsWritten(false, true, protocol, username, Some(password), id).requests == []
  {
  }

  /** The user a login names: the one set, or "default". */
  function UserName(username: Option<seq<byte>>): (u: seq<byte>)
  {
    if username.Some? then username.value else DEFAULT_USER
  }

  /** A request that logs in with the password: AUTH followed by the user and the password, as
      HELLO and the two-argument AUTH send it, or AUTH with the password alone for the default
      user. */
  predicate Authenticates(r: Request, username: Option<seq<byte>>, password: seq<byte>) {
    (exists m :: 0 <= m < |r.args| - 2 && r.args[m] == AUTH && r.args[m + 1] == UserName(username)
                 && r.args[m + 2] == password)
    || (username.None? && r.args == [AUTH, password])
  }

  /** With the old way taken whenever HELLO is not in use or fails, every connection names its
      client last and logs in with a configured password; HELLO stays in use exactly when it
      was on and succeeded, and otherwise the protocol is RESP2. Where HELLO was tried, the
      as-written login sends the same. */
  lemma LoginSendsCredentials(hello: bool, helloOk: bool, protocol: int, username: Option<seq<byte>>,
                              password: Option<seq<byte>>, id: seq<byte>)
    ensures var g := Login(hello, helloOk, protocol, username, password, id);
            |g.requests| >= 1
            && g.requests[|g.requests| - 1].args[|g.requests[|g.requests| - 1].args| - 1] == id
            && (password.Some? ==> exists k :: 0 <= k < |g.requests| && Authenticates(g.requests[k], username, password.value))
            && (g.hello <==> hello && helloOk)
            && (!g.hello ==> g.protocol == RESP2)
    ensures hello ==> LoginAsWritten(hello, helloOk, protocol, username, password, id)
                      == Login(hello, helloOk, protocol, username, password, id)
  {
    HelloLayout(protocol, username, password, id);
    LoginsAgree(protocol, username, password, id);
    var g := Login(hello, helloOk, protocol, username, password, id);
    if password.Some? {
      var pw := password.value;
      if hello && helloOk {
        assert Authenticates(g.requests[0], username, pw) by {
          assert g.requests[0].args[2] == AUTH;
        }
      } else {
        var k := if hello then 1 else 0;
        var f := FallbackRequests(username, password, id);
        assert g.requests[k] == f[0] == AuthRequest(username, pw);
        if username.Some? {
          assert Authenticates(g.requests[k], username, pw) by {
            assert g.requests[k].args[0] == AUTH;
          }
        } else {
          assert Authenticates(g.requests[k], username, pw);
        }
      }
    }
  }

  // ---------------------------------------------------------------- client name

  /** The last part of a client name, chosen by the client's channel index. */
  function ChannelName(idx: int): (name: seq<byte>)
  {
    if idx == ChannelIndex(Interactive) then Ascii("interactive")
    else if idx == ChannelIndex(Pipeline) then Ascii("pipeline")
    else if idx == ChannelIndex(Subscription) then Ascii("subscription")
    else Ascii("unknown")
  }

  const HOST_BUFFER: int := 200

  /** The client name "<host>:pid-<ppid>:<channel>", the host being the node name copied into a
      200-byte buffer with strncpy; None when the node name fills the buffer and the copy is
      left unterminated. */
  function ClientId(nodename: seq<byte>, ppid: int, idx: int): (r: Option<seq<byte>>)
  {
    if StrLen(nodename) >= HOST_BUFFER - 1 then None
    else Some(CStr(nodename) + Ascii(":pid-") + Decimal(ppid) + Ascii(":") + ChannelName(idx))
  }

  /** The name ends with the channel's part, and it fits the `strlen(host) + 100` bytes
      allocated for it, terminator included. */
  lemma ClientIdLayout(nodename: seq<byte>, ppid: int, idx: int)
    requires StrLen(nodename) < HOST_BUFFER - 1 && INT_MIN <= ppid <= INT_MAX
    ensures var id := ClientId(nodename, ppid, idx).value;
            var name := ChannelName(idx);
            |id| == StrLen(nodename) + 6 + |Decimal(ppid)| + |name|
            && id[|id| - |name|..] == name
            && |id| + 1 <= StrLen(nodename) + 100
  {
    DecimalOfIntIsShort(ppid);
    assert |Ascii("subscription")| == 12;
  }

  /** The three clients of one instance get three different names. */
  lemma ClientIdsDistinct(nodename: seq<byte>, ppid: int, c: Channel, d: Channel)
    requires StrLen(nodename) < HOST_BUFFER - 1 && INT_MIN <= ppid <= INT_MAX && c != d
    ensures ClientId(nodename, ppid, ChannelIndex(c)) != ClientId(nodename, ppid, ChannelIndex(d))
  {
    ClientIdLayout(nodename, ppid, ChannelIndex(c));
    ClientIdLayout(nodename, ppid, ChannelIndex(d));
    assert |Ascii("interactive")| == 11 && |Ascii("pipeline")| == 8 && |Ascii("subscription")| == 12;
  }

  // ---------------------------------------------------------------- client state

  /** The part of ClientPrivate that connecting and closing change. */
  datatype Client = Client(idx: int, pendingRequests: int, isEnabled: bool, available: int, next: int, socket: int)

  /** rResetClientAsync */
  function ResetClient(c: Client): (r: Client)
  {
    c.(pendingRequests := 0, isEnabled := false, available := 0, next := 0, socket := -1)
  }

  /** rInitClient: a zeroed ClientPrivate for the channel, then reset. */
  function InitClient(idx: int): (r: Client)
  {
    ResetClient(Client(idx, 0, false, 0, 0, 0))
  }

  /** rCloseClientAsync: disable, give up the socket, then reset. */
  function CloseClient(c: Client): (r: Client)
  {
    ResetClient(c.(isEnabled := false, socket := -1))
  }

  /** Closing or resetting a client, whatever its state, gives it back the state it was created
      in: nothing pending, disabled, an empty read buffer and no socket. */
  lemma ResetIsInitial(c: Client)
    ensures ResetClient(c) == InitClient(c.idx)
    ensures CloseClient(c) == InitClient(c.idx)
    ensures var r := ResetClient(c);
            r.pendingRequests == 0 && !r.isEnabled && r.available == 0 && r.next == 0 && r.socket == -1
    ensures ResetClient(ResetClient(c)) == ResetClient(c)
  {
  }

  // ---------------------------------------------------------------- the open-instance list

  type InstanceId = nat

  /** rRegisterServer: the new instance goes to the front. */
  function Register(list: seq<InstanceId>, redis: InstanceId): (r: seq<InstanceId>)
  {
    [redis] + list
  }

  /** The search of rUnregisterServer from node `k`: the first node for the instance is
      unlinked and the search stops. */
  function UnregisterFrom(list: seq<InstanceId>, redis: InstanceId, k: nat): (r: seq<InstanceId>)
    requires k <= |list|
    decreases |list| - k
  {
    if k == |list| then list
    else if list[k] == redis then list[..k] + list[k + 1..]
    else UnregisterFrom(list, redis, k + 1)
  }

  function Unregister(list: seq<InstanceId>, redis: InstanceId): (r: seq<InstanceId>)
  {
    UnregisterFrom(list, redis, 0)
  }

  /** The list with its first occurrence of the instance left out. */
  function WithoutFirst(list: seq<InstanceId>, redis: InstanceId): (r: seq<InstanceId>)
    decreases |list|
  {
    if |list| == 0 then []
    else if list[0] == redis then list[1..]
    else [list[0]] + WithoutFirst(list[1..], redis)
  }

  lemma {:induction false} UnregisterFromFirst(list: seq<InstanceId>, redis: InstanceId, k: nat)
    requires k <= |list|
    requires forall i :: 0 <= i < k ==> list[i] != redis
    ensures UnregisterFrom(list, redis, k) == list[..k] + WithoutFirst(list[k..], redis)
    decreases |list| - k
  {
    if k == |list| {
      assert list[..k] == list;
    } else {
      assert list[k..][1..] == list[k + 1..];
      if list[k] != redis {
        UnregisterFromFirst(list, redis, k + 1);
        assert list[..k + 1] == list[..k] + [list[k]];
      }
    }
  }

  /** Unregistering removes the first node for the instance and keeps the others in order. */
  lemma UnregisterRemovesFirst(list: seq<InstanceId>, redis: InstanceId)
    ensures Unregister(list, redis) == WithoutFirst(list, redis)
  {
    UnregisterFromFirst(list, redis, 0);
    assert list[0..] == list;
  }

  lemma {:induction false} WithoutFirstCount(list: seq<InstanceId>, redis: InstanceId)
    ensures multiset(WithoutFirst(list, redis)) == multiset(list) - multiset{redis}
    decreases |list|
  {
    if |list| > 0 {
      assert list == [list[0]] + list[1..];
      if list[0] != redis { WithoutFirstCount(list[1..], redis); }
    }
  }

  /** Unregistering what was just registered restores the list; otherwise it takes away one
      registration of the instance and nothing else. */
  lemma RegisterRoundTrip(list: seq<InstanceId>, redis: InstanceId)
    ensures Unregister(Register(list, redis), redis) == list
    ensures multiset(Unregister(list, redis)) == multiset(list) - multiset{redis}
  {
    UnregisterRemovesFirst(Register(list, redis), redis);
    assert Register(list, redis)[1..] == list;
    UnregisterRemovesFirst(list, redis);
    WithoutFirstCount(list, redis);
  }

  // ---------------------------------------------------------------- setters on an instance

  /** The configuration the setters of redisx-net.c change. */
  datatype Config = Config(address: Address, timeoutMillis: int, tcpBufSize: int, protocol: int)

  datatype Configured = Configured(status: Status, config: Config)

  /** redisxSetPort: refused on a connected instance and in Sentinel mode; otherwise the port is
      stored as given (a port <= 0 meaning the default when connecting). */
  function SetPort(c: Config, connected: bool, sentinel: bool, port: int): (r: Configured)
    ensures connected ==> r == Configured(AlreadyOpen, c)
    ensures !connected && sentinel ==> r == Configured(Failure, c)
    ensures r.status == Success <==> !connected && !sentinel
  {
    if connected then Configured(AlreadyOpen, c)
    else if sentinel then Configured(Failure, c)
    else Configured(Success, c.(address := c.address.(port := port)))
  }

  /** redisxSetHostname: a NULL or empty name (both X_NULL), a connected instance, Sentinel
      mode, then rSetServerAsync with the current port. */
  function SetHostname(c: Config, connected: bool, sentinel: bool, host: Option<seq<byte>>, lookup: Status): (r: Configured)
    ensures Blank(host) ==> r == Configured(NullArg, c)
    ensures !Blank(host) && connected ==> r == Configured(AlreadyOpen, c)
    ensures !Blank(host) && !connected && sentinel ==> r == Configured(Failure, c)
  {
    if Blank(host) then Configured(NullArg, c)
    else if connected then Configured(AlreadyOpen, c)
    else if sentinel then Configured(Failure, c)
    else
      match SetServer(host, c.address.port, lookup)
      case ServerRefused(s) => Configured(s, c)
      case ServerSet(a) => Configured(Success, c.(address := a))
  }

  /** Only the port (or only the address) changes, and only when the setter succeeds. */
  lemma SettersChangeOnlyTheirField(c: Config, connected: bool, sentinel: bool, port: int,
                                    host: Option<seq<byte>>, lookup: Status)
    ensures var r := SetPort(c, connected, sentinel, port);
            r.config.timeoutMillis == c.timeoutMillis && r.config.address.hostname == c.address.hostname
            && (r.status == Success ==> r.config.address.port == port)
            && (r.status != Success ==> r.config == c)
    ensures var r := SetHostname(c, connected, sentinel, host, lookup);
            r.config.timeoutMillis == c.timeoutMillis && r.config.tcpBufSize == c.tcpBufSize
            && (r.status == Success ==> r.config.address == Address(CStr(host.value), EffectivePort(c.address.port)))
            && (r.status != Success ==> r.config == c)
  {
  }

  /** redisxInit: the address from rSetServerAsync with the default port, RESP2, the default
      timeout and TCP buffer size, and the three clients in their initial state; None for a NULL
      server name or when the server cannot be set. */
  datatype Instance = Instance(config: Config, clients: seq<Client>)

  function Init(server: Option<seq<byte>>, lookup: Status, defaultMillis: int): (r: Option<Instance>)
  {
    if server.None? then None
    else
      match SetServer(server, 0, lookup)
      case ServerRefused(_) => None
      case ServerSet(a) =>
        Some(Instance(Config(a, defaultMillis, TCP_BUF_SIZE, 2),
                      [InitClient(0), InitClient(1), InitClient(2)]))
  }

  /** A new instance is not connected: one client per channel, numbered by channel, all
      disabled and without a socket; it talks to the default port. */
  lemma InitDefaults(server: Option<seq<byte>>, lookup: Status, defaultMillis: int)
    ensures Init(server, lookup, defaultMillis).Some? <==> !Blank(server) && lookup == Success
    ensures Init(server, lookup, defaultMillis).Some? ==>
      var r := Init(server, lookup, defaultMillis).value;
      |r.clients| == CHANNELS
      && (forall i :: 0 <= i < CHANNELS ==> r.clients[i].idx == i && !r.clients[i].isEnabled && r.clients[i].socket == -1)
      && r.config.address == Address(CStr(server.value), TCP_PORT)
      && r.config.protocol == 2 && r.config.timeoutMillis == defaultMillis
  {
  }
}
