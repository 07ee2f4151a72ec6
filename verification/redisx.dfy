/** The instance-level calls of redisx.c and redisx-client.c: error descriptions, client
    lookup and locking, the synchronous request, PING, the login credentials and the database
    switch. What the server answers is a parameter; a request that is sent shows up as a
    Request in the result. */
module Redisx {
  import opened CStrings
  import opened Header
  import opened Requests
  import opened Resp
  import Hooks
  import Net
  import Wire

  // ---------------------------------------------------------------- redisxErrorDescription

  /** The REDIS_* number a status stands for: one of the six named codes, or a raw code with
      one of their values. */
  function RedisNumber(code: Status): (v: Option<int>)
    ensures v.Some? ==> RedisStatus(v.value).Some?
    ensures !code.Code? ==> v == RedisCode(code)
  {
    if code.Code? then (if RedisStatus(code.value).Some? then Some(code.value) else None)
    else RedisCode(code)
  }

  /** redisxErrorDescription: the six REDIS_* codes have their own text; every other code is
      described by xErrorDescription, which is `common` here. */
  function ErrorDescription(code: Status, common: Status -> seq<byte>): (d: seq<byte>)
  {
    match RedisNumber(code)
    case None => common(code)
    case Some(v) =>
      if v == REDIS_INVALID_CHANNEL then Ascii("invalid Redis channel")
      else if v == REDIS_NULL then Ascii("Redis returned null")
      else if v == REDIS_ERROR then Ascii("Redis returned an error")
      else if v == REDIS_INCOMPLETE_TRANSFER then Ascii("incomplete Redis transfer")
      else if v == REDIS_UNEXPECTED_RESP then Ascii("unexpected Redis response type")
      else Ascii("unexpected Redis array size")
  }

  /** The lengths of the six texts, which already tell them apart. */
  function DescriptionLength(v: int): nat {
    if v == REDIS_INVALID_CHANNEL then 21
    else if v == REDIS_NULL then 19
    else if v == REDIS_ERROR then 23
    else if v == REDIS_INCOMPLETE_TRANSFER then 25
    else if v == REDIS_UNEXPECTED_RESP then 30
    else 27
  }

  lemma DescriptionHasLength(code: Status, common: Status -> seq<byte>)
    requires RedisNumber(code).Some?
    ensures |ErrorDescription(code, common)| == DescriptionLength(RedisNumber(code).value)
  {
  }

  /** Each REDIS_* code has a non-empty text of its own, the same whether it comes as the named
      status or as its raw value; any other code gets the common description. */
  lemma ErrorDescriptionsDistinct(a: Status, b: Status, common: Status -> seq<byte>)
    ensures RedisNumber(a).Some? && RedisNumber(b).Some? ==>
              (ErrorDescription(a, common) == ErrorDescription(b, common) <==> RedisNumber(a) == RedisNumber(b))
    ensures RedisNumber(a).Some? ==> |ErrorDescription(a, common)| >= 19
    ensures RedisNumber(a).None? ==> ErrorDescription(a, common) == common(a)
    ensures ErrorDescription(Code(REDIS_NULL), common) == ErrorDescription(RedisNull, common)
  {
    if RedisNumber(a).Some? {
      DescriptionHasLength(a, common);
      if RedisNumber(b).Some? {
        DescriptionHasLength(b, common);
      }
    }
  }

  // ---------------------------------------------------------------- clients and locks

  predicate HasChannels(redis: Option<Net.Instance>) {
    redis.Some? ==> |redis.value.clients| == CHANNELS
  }

  /** redisxGetClient: NULL for a NULL instance or a channel number outside the range. */
  function GetClient(redis: Option<Net.Instance>, channel: int): (r: Option<Net.Client>)
    requires HasChannels(redis)
  {
    if redis.None? then None
    else if channel < 0 || channel >= CHANNELS then None
    else Some(redis.value.clients[channel])
  }

  /** redisxLockConnected: X_NULL for a NULL client, X_FAILURE when the mutex cannot be taken
      (`lockFails`), X_NO_SERVICE when the client is not enabled. */
  function LockConnected(cl: Option<Net.Client>, lockFails: bool): (s: Status)
  {
    if cl.None? then NullArg
    else if lockFails then Failure
    else if !cl.value.isEnabled then NoService
    else Success
  }

  /** redisxGetLockedConnectedClient */
  function GetLockedConnectedClient(redis: Option<Net.Instance>, channel: int, lockFails: bool): (r: Option<Net.Client>)
    requires HasChannels(redis)
  {
    var cl := GetClient(redis, channel);
    if cl.None? then None
    else if LockConnected(cl, lockFails) != Success then None
    else cl
  }

  /** A client is found exactly for a valid channel of an instance, and it is the one numbered
      by that channel in a new instance; the lock is granted exactly on an enabled client, and
      it never answers REDIS_INVALID_CHANNEL. */
  lemma ClientAccess(redis: Option<Net.Instance>, channel: int, lockFails: bool)
    requires HasChannels(redis)
    ensures GetClient(redis, channel).Some? <==> redis.Some? && ChannelOf(channel).Some?
    ensures GetLockedConnectedClient(redis, channel, lockFails).Some? <==>
              redis.Some? && 0 <= channel < CHANNELS && !lockFails && redis.value.clients[channel].isEnabled
    ensures forall cl: Option<Net.Client> :: LockConnected(cl, lockFails) != InvalidChannel
    ensures forall cl: Option<Net.Client> ::
              LockConnected(cl, lockFails) == Success <==> cl.Some? && !lockFails && cl.value.isEnabled
  {
  }

  lemma ClientsOfNewInstance(server: Option<seq<byte>>, lookup: Status, defaultMillis: int, c: Channel)
    requires Net.Init(server, lookup, defaultMillis).Some?
    ensures var redis := Net.Init(server, lookup, defaultMillis);
            HasChannels(redis) && GetClient(redis, ChannelIndex(c)) == Some(Net.InitClient(ChannelIndex(c)))
            && GetClient(redis, ChannelIndex(c)).value.idx == ChannelIndex(c)
            && GetLockedConnectedClient(redis, ChannelIndex(c), false).None?
  {
    Net.InitDefaults(server, lookup, defaultMillis);
  }

  // ---------------------------------------------------------------- redisxRequest

  /** The status, the reply and the requests sent by a synchronous request. */
  datatype Exchange = Exchange(status: Status, reply: Option<Resp>, sent: seq<Request>)

  /** redisxArrayRequest on the interactive client. `answer` is what redisxReadReplyAsync
      returns after the request is sent (None for a read that fails). The request goes out
      whole on an enabled client. */
  function ArrayRequest(redis: Option<Net.Instance>, args: Option<seq<seq<byte>>>, lengths: Option<seq<int>>,
                        n: int, lockFails: bool, answer: Option<Resp>): (r: Exchange)
    requires HasChannels(redis)
    requires args.Some? && n >= 1 ==> n <= |args.value|
  {
    if redis.None? || args.None? || n < 1 then Exchange(NullArg, None, [])
    else
      var s := LockConnected(Some(redis.value.clients[ChannelIndex(Interactive)]), lockFails);
      if s != Success then Exchange(s, None, [])
      else Exchange(Success, answer, [Request(args.value[..n], lengths)])
  }

  /** redisxRequest: a NULL instance returns no reply and leaves `*status` as the caller set it
      (`prior`); otherwise the command and the arguments up to the first NULL are sent. */
  function RedisRequest(redis: Option<Net.Instance>, command: Option<seq<byte>>, a1: Option<seq<byte>>,
                   a2: Option<seq<byte>>, a3: Option<seq<byte>>, prior: Status, lockFails: bool,
                   answer: Option<Resp>): (r: Exchange)
    requires HasChannels(redis)
  {
    if redis.None? then Exchange(prior, None, [])
    else
      var n := Wire.RequestCount(command, a1, a2, a3);
      var args := if command.Some? then Wire.RequestArgs(command.value, a1, a2, a3) else [];
      ArrayRequest(redis, Some(args), None, n, lockFails, answer)
  }

  /** A request is refused with X_NULL exactly for a NULL instance, argument array or a count
      below one; it is sent exactly when the interactive client can be locked, and then it is
      the first `n` arguments and the reply is what the server answered. */
  lemma ArrayRequestSpec(redis: Option<Net.Instance>, args: Option<seq<seq<byte>>>, lengths: Option<seq<int>>,
                         n: int, lockFails: bool, answer: Option<Resp>)
    requires HasChannels(redis)
    requires args.Some? && n >= 1 ==> n <= |args.value|
    ensures var r := ArrayRequest(redis, args, lengths, n, lockFails, answer);
            (r.status == NullArg <==> redis.None? || args.None? || n < 1)
    ensures var r := ArrayRequest(redis, args, lengths, n, lockFails, answer);
            r.status == Success <==>
              redis.Some? && args.Some? && n >= 1 && !lockFails && redis.value.clients[0].isEnabled
    ensures var r := ArrayRequest(redis, args, lengths, n, lockFails, answer);
            r.status == Success ==> r.reply == answer && |r.sent| == 1
                                    && r.sent[0].args == args.value[..n] && |r.sent[0].args| == n
    ensures var r := ArrayRequest(redis, args, lengths, n, lockFails, answer);
            r.status != Success ==> r.reply.None? && r.sent == []
  {
  }

  /** redisxRequest sends the command and its arguments up to the first NULL, and a NULL
      command is refused with X_NULL. */
  lemma RequestSpec(redis: Option<Net.Instance>, command: Option<seq<byte>>, a1: Option<seq<byte>>,
                    a2: Option<seq<byte>>, a3: Option<seq<byte>>, prior: Status, lockFails: bool,
                    answer: Option<Resp>)
    requires HasChannels(redis)
    ensures var r := RedisRequest(redis, command, a1, a2, a3, prior, lockFails, answer);
            redis.None? ==> r == Exchange(prior, None, [])
    ensures var r := RedisRequest(redis, command, a1, a2, a3, prior, lockFails, answer);
            redis.Some? && command.None? ==> r == Exchange(NullArg, None, [])
    ensures var r := RedisRequest(redis, command, a1, a2, a3, prior, lockFails, answer);
            r.sent != [] ==> command.Some? && r.sent == [Plain(Wire.RequestArgs(command.value, a1, a2, a3))]
                             && r.sent[0].args[0] == command.value
                             && (a1.Some? ==> r.sent[0].args[1] == a1.value)
                             && (a1.None? ==> |r.sent[0].args| == 1)
  {
    if redis.Some? && command.Some? {
      var args := Wire.RequestArgs(command.value, a1, a2, a3);
      assert args[..|args|] == args;
    }
  }

  // ---------------------------------------------------------------- redisxPing

  const PING: seq<byte> := Ascii("PING")
  const PONG: seq<byte> := Ascii("PONG")

  /** redisxCheckRESP (redisx.c:463-472, the older check without the cluster redirections and
      the RESP3 boolean test) for a kind with no size check, then strcmp of `text` with the
      reply's string; None when strcmp would be handed a NULL value. */
  function ExpectText(reply: Option<Resp>, typ: RespType, text: seq<byte>): (r: Option<Status>)
  {
    var s := CheckOld(reply, Some(typ), 0);
    if s != Success then Some(s)
    else match reply.value.value
      case Text(b) => Some(if CStr(text) == CStr(b) then Success else UnexpectedResp)
      case _ => None
  }

  /** redisxPing: PING, with the message when one is given. No reply at all is X_NULL; the
      reply must be the message as a bulk string, or "PONG" as a simple string without one. */
  function Ping(redis: Option<Net.Instance>, message: Option<seq<byte>>, lockFails: bool, answer: Option<Resp>): (r: Option<Status>)
    requires HasChannels(redis)
  {
    var x := RedisRequest(redis, Some(PING), message, None, None, Success, lockFails, answer);
    if x.reply.None? then Some(NullArg)
    else if message.Some? then ExpectText(x.reply, BulkString, message.value)
    else ExpectText(x.reply, SimpleString, PONG)
  }

  /** A reply that passes the generic tests of redisxCheckRESP: no error code in `n`, and a
      string payload. */
  predicate Plainly(r: Resp) {
    r.n >= 0 && r.value.Text?
  }

  /** The reply check: the wrong kind is an unexpected response; the right kind succeeds exactly
      when its string is the expected one; an error code carried in `n` is passed on as it is. */
  lemma ExpectTextSpec(r: Resp, typ: RespType, text: seq<byte>)
    ensures Plainly(r) && r.typ != typ ==> ExpectText(Some(r), typ, text) == Some(UnexpectedResp)
    ensures Plainly(r) && r.typ == typ ==>
              (ExpectText(Some(r), typ, text) == Some(Success) <==> CStr(r.value.bytes) == CStr(text))
    ensures Plainly(r) ==> ExpectText(Some(r), typ, text).Some?
    ensures r.typ != Int && r.n < 0 ==> ExpectText(Some(r), typ, text) == Some(StatusOf(r.n))
    ensures ExpectText(None, typ, text) == Some(ParseError)
  {
  }

  /** PING succeeds exactly when the server echoes the message (as a bulk string) or answers
      PONG (as a simple string); a reply of another kind is an unexpected response, and no
      reply is X_NULL. */
  lemma PingSpec(redis: Option<Net.Instance>, message: Option<seq<byte>>, lockFails: bool, answer: Option<Resp>)
    requires HasChannels(redis)
    ensures var r := Ping(redis, message, lockFails, answer);
            (redis.None? || lockFails || !redis.value.clients[0].isEnabled || answer.None?) ==> r == Some(NullArg)
    ensures var r := Ping(redis, message, lockFails, answer);
            var want := if message.Some? then message.value else PONG;
            var kind := if message.Some? then BulkString else SimpleString;
            redis.Some? && !lockFails && redis.value.clients[0].isEnabled && answer.Some?
            && Plainly(answer.value) ==>
              (answer.value.typ != kind ==> r == Some(UnexpectedResp))
              && (answer.value.typ == kind ==>
                    (r == Some(Success) <==> CStr(answer.value.value.bytes) == CStr(want)))
  {
    var x := RedisRequest(redis, Some(PING), message, None, None, Success, lockFails, answer);
    if redis.Some? && !lockFails && redis.value.clients[0].isEnabled && answer.Some? {
      assert x.reply == answer;
      if Plainly(answer.value) {
        ExpectTextSpec(answer.value, if message.Some? then BulkString else SimpleString,
                       if message.Some? then message.value else PONG);
      }
    }
  }

  /** With a message the request is PING and the message; without one, PING alone. */
  lemma PingRequest(redis: Net.Instance, message: Option<seq<byte>>, answer: Option<Resp>)
    requires HasChannels(Some(redis)) && redis.clients[0].isEnabled
    ensures var x := RedisRequest(Some(redis), Some(PING), message, None, None, Success, false, answer);
            x.sent == [Plain(if message.Some? then [PING, message.value] else [PING])]
  {
    var args := Wire.RequestArgs(PING, message, None, None);
    assert Wire.RequestCount(Some(PING), message, None, None) == |args|;
    assert args[..|args|] == args;
    if message.Some? { assert args == [PING, message.value]; } else { assert args == [PING]; }
  }

  // ---------------------------------------------------------------- redisxSetUser / redisxSetPassword

  /** The credentials kept in RedisPrivate. */
  datatype Login = Login(username: Option<seq<byte>>, password: Option<seq<byte>>)

  /** xStringCopyOf: NULL stays NULL, a string is copied up to its terminator. */
  function CopyOf(s: Option<seq<byte>>): (r: Option<seq<byte>>)
    ensures r.None? <==> s.None?
    ensures s.Some? ==> r.value == CStr(s.value) && IsCString(r.value)
  {
    if s.None? then None else Some(CStr(s.value))
  }

  datatype LoginSet = LoginSet(status: Status, login: Option<Login>)

  /** redisxSetUser: X_NULL for a NULL instance, X_ALREADY_OPEN once connected, otherwise the
      user name is replaced by a copy (NULL clears it). */
  function SetUser(redis: Option<Login>, connected: bool, username: Option<seq<byte>>): (r: LoginSet)
  {
    if redis.None? then LoginSet(NullArg, redis)
    else if connected then LoginSet(AlreadyOpen, redis)
    else LoginSet(Success, Some(redis.value.(username := CopyOf(username))))
  }

  /** redisxSetPassword, the same for the password. */
  function SetPassword(redis: Option<Login>, connected: bool, password: Option<seq<byte>>): (r: LoginSet)
  {
    if redis.None? then LoginSet(NullArg, redis)
    else if connected then LoginSet(AlreadyOpen, redis)
    else LoginSet(Success, Some(redis.value.(password := CopyOf(password))))
  }

  /** Each setter changes only its own credential, and only before connecting; a refused call
      changes nothing. */
  lemma SetCredentials(redis: Option<Login>, connected: bool, s: Option<seq<byte>>)
    ensures var u := SetUser(redis, connected, s);
            (u.status == Success <==> redis.Some? && !connected)
            && (u.status != Success ==> u.login == redis)
            && (redis.Some? && connected ==> u.status == AlreadyOpen)
            && (u.status == Success ==> u.login.value.username == CopyOf(s) && u.login.value.password == redis.value.password)
    ensures var p := SetPassword(redis, connected, s);
            (p.status == Success <==> redis.Some? && !connected)
            && (p.status != Success ==> p.login == redis)
            && (redis.Some? && connected ==> p.status == AlreadyOpen)
            && (p.status == Success ==> p.login.value.password == CopyOf(s) && p.login.value.username == redis.value.username)
  {
  }

  /** Credentials set before connecting are the ones HELLO authenticates with. */
  lemma CredentialsReachHello(redis: Login, user: seq<byte>, password: seq<byte>, protocol: int, id: seq<byte>)
    ensures var l := SetPassword(SetUser(Some(redis), false, Some(user)).login, false, Some(password)).login.value;
            var a := Net.HelloArgs(protocol, l.username, l.password, id);
            |a| == 7 && a[2] == Net.AUTH && a[3] == CStr(user) && a[4] == CStr(password)
  {
    var l := SetPassword(SetUser(Some(redis), false, Some(user)).login, false, Some(password)).login.value;
    Net.HelloLayout(protocol, l.username, l.password, id);
  }

  // ---------------------------------------------------------------- redisxSelectDB

  const SELECT: seq<byte> := Ascii("SELECT")

  function SelectRequest(idx: int): (r: Request)
    ensures r.args == [SELECT, Decimal(idx)] && r.lengths.None?
  {
    Plain([SELECT, Decimal(idx)])
  }

  datatype Selected = Selected(status: Status, requests: seq<Request>)

  /** redisxSelectClientDBAsync: unless the reply is wanted, CLIENT REPLY SKIP first; then
      SELECT. On a disabled client the first send fails with X_NO_INIT and nothing goes out.
      `confirmation` is the outcome of reading and checking the "OK" reply. */
  function SelectClient(enabled: bool, idx: int, confirm: bool, confirmation: Status): (r: Selected)
  {
    if !enabled then Selected(NoInit, [])
    else Selected(if confirm then confirmation else Success, Confirmed(confirm, SelectRequest(idx)))
  }

  /** The parts of a Redis instance the database switch uses. */
  datatype Db = Db(dbIndex: int, hooks: Hooks.Registry, connected: bool, clients: seq<Net.Client>)

  predicate Valid(redis: Option<Db>) {
    redis.Some? ==> |redis.value.clients| == CHANNELS
  }

  /** Whether the loop of redisxSelectDB leaves channel `c` alone after taking the lock with
      status `s`. As written (redisx.c line 381) it skips a client that reports
      REDIS_INVALID_CHANNEL, which redisxLockConnected never returns; corrected, it skips a
      client that is not connected. The subscription channel is always left alone. */
  predicate Skips(s: Status, c: int, asWritten: bool) {
    (if asWritten then s == InvalidChannel else s != Success) || c == ChannelIndex(Subscription)
  }

  /** One pass of the loop of redisxSelectDB, on channel `c`, after the passes before it. */
  function StepAt(clients: seq<Net.Client>, idx: int, c: nat, confirmation: Status, asWritten: bool,
                  acc: Selected): (r: Selected)
    requires |clients| == CHANNELS && c < CHANNELS
  {
    var s := LockConnected(Some(clients[c]), false);
    if Skips(s, c, asWritten) then Selected(if s == Success then Incomplete else acc.status, acc.requests)
    else
      var one := SelectClient(clients[c].isEnabled, idx, c != ChannelIndex(Pipeline), confirmation);
      Selected(if one.status != Success then Incomplete else acc.status, acc.requests + one.requests)
  }

  /** The loop of redisxSelectDB from channel `c`. */
  function SwitchFrom(clients: seq<Net.Client>, idx: int, c: nat, confirmation: Status, asWritten: bool,
                      acc: Selected): (r: Selected)
    requires |clients| == CHANNELS && c <= CHANNELS
    decreases CHANNELS - c
  {
    if c == CHANNELS then acc
    else SwitchFrom(clients, idx, c + 1, confirmation, asWritten, StepAt(clients, idx, c, confirmation, asWritten, acc))
  }

  /** The three passes one after the other. */
  lemma SwitchUnrolled(clients: seq<Net.Client>, idx: int, confirmation: Status, asWritten: bool, acc: Selected)
    requires |clients| == CHANNELS
    ensures SwitchFrom(clients, idx, 0, confirmation, asWritten, acc)
         == StepAt(clients, idx, 2, confirmation, asWritten,
              StepAt(clients, idx, 1, confirmation, asWritten,
                StepAt(clients, idx, 0, confirmation, asWritten, acc)))
  {
    var a1 := StepAt(clients, idx, 0, confirmation, asWritten, acc);
    var a2 := StepAt(clients, idx, 1, confirmation, asWritten, a1);
    var a3 := StepAt(clients, idx, 2, confirmation, asWritten, a2);
    assert SwitchFrom(clients, idx, 3, confirmation, asWritten, a3) == a3;
    assert SwitchFrom(clients, idx, 2, confirmation, asWritten, a2) == a3;
  }

  datatype Switch = Switch(status: Status, db: Option<Db>, requests: seq<Request>)

  /** redisxSelectDB; `affirm` is the rAffirmDB connect hook, which re-selects the database on
      every reconnect and is registered exactly while the index is not 0. */
  function SelectDBWith(redis: Option<Db>, idx: int, affirm: Hooks.Func, confirmation: Status, asWritten: bool): (r: Switch)
    requires Valid(redis)
  {
    if redis.None? then Switch(NullArg, None, [])
    else
      var d := redis.value;
      if d.dbIndex == idx then Switch(Success, redis, [])
      else
        var hooks := if idx != 0 then Hooks.AddConnectHook(Some(d.hooks), Some(affirm))
                     else Hooks.RemoveConnectHook(Some(d.hooks), Some(affirm));
        var d' := d.(dbIndex := idx, hooks := hooks.value);
        if !d.connected then Switch(Success, Some(d'), [])
        else
          var sw := SwitchFrom(d.clients, idx, 0, confirmation, asWritten, Selected(Success, []));
          Switch(sw.status, Some(d'), sw.requests)
  }

  function SelectDBAsWritten(redis: Option<Db>, idx: int, affirm: Hooks.Func, confirmation: Status): (r: Switch)
    requires Valid(redis)
  {
    SelectDBWith(redis, idx, affirm, confirmation, true)
  }

  function SelectDB(redis: Option<Db>, idx: int, affirm: Hooks.Func, confirmation: Status): (r: Switch)
    requires Valid(redis)
  {
    SelectDBWith(redis, idx, affirm, confirmation, false)
  }

  /** The requests the corrected loop sends: SELECT on the interactive client when it is
      connected, and CLIENT REPLY SKIP with SELECT on the pipeline client when it is. */
  function SwitchRequests(clients: seq<Net.Client>, idx: int): (rs: seq<Request>)
    requires |clients| == CHANNELS
  {
    (if clients[0].isEnabled then [SelectRequest(idx)] else [])
    + (if clients[1].isEnabled then [SKIP_REPLY, SelectRequest(idx)] else [])
  }

  /** What the corrected loop does on a connected instance: it switches every connected client
      but the subscription one, and reports X_INCOMPLETE exactly when a subscription is active
      or the interactive client does not confirm. */
  lemma SwitchSpec(clients: seq<Net.Client>, idx: int, confirmation: Status)
    requires |clients| == CHANNELS
    ensures var r := SwitchFrom(clients, idx, 0, confirmation, false, Selected(Success, []));
            r.requests == SwitchRequests(clients, idx)
            && (r.status == Success || r.status == Incomplete)
            && (r.status == Success <==> !clients[2].isEnabled && (clients[0].isEnabled ==> confirmation == Success))
  {
    SwitchUnrolled(clients, idx, confirmation, false, Selected(Success, []));
    var a1 := StepAt(clients, idx, 0, confirmation, false, Selected(Success, []));
    assert a1.requests == (if clients[0].isEnabled then [SelectRequest(idx)] else []);
    assert a1.status == (if clients[0].isEnabled && confirmation != Success then Incomplete else Success);
    var a2 := StepAt(clients, idx, 1, confirmation, false, a1);
    assert a2.requests == SwitchRequests(clients, idx);
    assert a2.status == a1.status;
  }

  /** The new index is stored with the rAffirmDB hook registered exactly while it is not 0;
      nothing else of the instance changes. */
  lemma SelectDBState(d: Db, idx: int, affirm: Hooks.Func, confirmation: Status)
    requires Valid(Some(d)) && d.dbIndex != idx && d.hooks.connect.Live?
    ensures var r := SelectDB(Some(d), idx, affirm, confirmation);
            r.db.Some? && r.db.value.dbIndex == idx && r.db.value.clients == d.clients
            && r.db.value.connected == d.connected
            && r.db.value.hooks.disconnect == d.hooks.disconnect
            && r.db.value.hooks.connect.Live?
            && (affirm in r.db.value.hooks.connect.calls <==> idx != 0)
  {
    Hooks.ConnectHookOps(Some(d.hooks), Some(affirm));
    Hooks.WithoutRemovesAll(d.hooks.connect.calls, affirm);
  }

  /** redisxSelectDB switches to the new index and keeps the rAffirmDB hook registered exactly
      while the index is not 0; on a connected instance it sends the switch to the connected
      interactive and pipeline clients and succeeds exactly when no subscription is active and
      the interactive client confirms. The same index again changes nothing. */
  lemma SelectDBSpec(redis: Option<Db>, idx: int, affirm: Hooks.Func, confirmation: Status)
    requires Valid(redis)
    ensures redis.None? ==> SelectDB(redis, idx, affirm, confirmation).status == NullArg
    ensures redis.Some? && redis.value.dbIndex == idx ==> SelectDB(redis, idx, affirm, confirmation) == Switch(Success, redis, [])
    ensures var r := SelectDB(redis, idx, affirm, confirmation);
            redis.Some? && redis.value.dbIndex != idx && redis.value.hooks.connect.Live? ==>
              r.db.Some? && r.db.value.dbIndex == idx && r.db.value.clients == redis.value.clients
              && (affirm in r.db.value.hooks.connect.calls <==> idx != 0)
    ensures var r := SelectDB(redis, idx, affirm, confirmation);
            redis.Some? && redis.value.dbIndex != idx && !redis.value.connected ==> r.status == Success && r.requests == []
    ensures var r := SelectDB(redis, idx, affirm, confirmation);
            redis.Some? && redis.value.dbIndex != idx && redis.value.connected ==>
              r.requests == SwitchRequests(redis.value.clients, idx)
              && (r.status == Success <==> !redis.value.clients[2].isEnabled
                                           && (redis.value.clients[0].isEnabled ==> confirmation == Success))
    ensures var r := SelectDB(redis, idx, affirm, confirmation);
            redis.Some? ==> r.db.Some? && r.db.value.dbIndex == idx && |r.db.value.clients| == CHANNELS
                            && SelectDB(r.db, idx, affirm, confirmation) == Switch(Success, r.db, [])
  {
    if redis.Some? && redis.value.dbIndex != idx {
      var d := redis.value;
      if d.hooks.connect.Live? { SelectDBState(d, idx, affirm, confirmation); }
      if d.connected { SelectDBSends(d, idx, affirm, confirmation); }
      SelectDBRepeat(d, idx, affirm, confirmation);
    }
  }

  lemma SelectDBSends(d: Db, idx: int, affirm: Hooks.Func, confirmation: Status)
    requires Valid(Some(d)) && d.dbIndex != idx && d.connected
    ensures var r := SelectDB(Some(d), idx, affirm, confirmation);
            r.requests == SwitchRequests(d.clients, idx)
            && (r.status == Success <==> !d.clients[2].isEnabled && (d.clients[0].isEnabled ==> confirmation == Success))
  {
    SwitchSpec(d.clients, idx, confirmation);
    assert SelectDB(Some(d), idx, affirm, confirmation).requests
        == SwitchFrom(d.clients, idx, 0, confirmation, false, Selected(Success, [])).requests;
  }

  lemma SelectDBRepeat(d: Db, idx: int, affirm: Hooks.Func, confirmation: Status)
    requires Valid(Some(d)) && d.dbIndex != idx
    ensures var r := SelectDB(Some(d), idx, affirm, confirmation);
            r.db.Some? && r.db.value.dbIndex == idx && |r.db.value.clients| == CHANNELS
            && SelectDB(r.db, idx, affirm, confirmation) == Switch(Success, r.db, [])
  {
  }

  /** As written, a connected instance whose pipeline client is not connected never gets a
      clean switch: the unconnected client is not skipped, its send fails and the call
      reports X_INCOMPLETE. */
  lemma SelectDBAsWrittenIncomplete(redis: Db, idx: int, affirm: Hooks.Func, confirmation: Status)
    requires Valid(Some(redis)) && redis.connected && redis.dbIndex != idx
    requires !redis.clients[1].isEnabled
    ensures SelectDBAsWritten(Some(redis), idx, affirm, confirmation).status == Incomplete
  {
    var cl := redis.clients;
    SwitchUnrolled(cl, idx, confirmation, true, Selected(Success, []));
    var a1 := StepAt(cl, idx, 0, confirmation, true, Selected(Success, []));
    assert StepAt(cl, idx, 1, confirmation, true, a1).status == Incomplete;
  }

  /** The instance of the lemma above with only the interactive client connected and the
      switch confirmed: as written X_INCOMPLETE, corrected X_SUCCESS. */
  lemma SelectDBInteractiveOnly()
    ensures var on := Net.InitClient(0).(isEnabled := true);
            var redis := Db(0, Hooks.Registry(Hooks.Live([]), Hooks.Live([])), true, [on, Net.InitClient(1), Net.InitClient(2)]);
            SelectDBAsWritten(Some(redis), 1, 7, Success).status == Incomplete
            && SelectDB(Some(redis), 1, 7, Success).status == Success
  {
    var on := Net.InitClient(0).(isEnabled := true);
    var redis := Db(0, Hooks.Registry(Hooks.Live([]), Hooks.Live([])), true, [on, Net.InitClient(1), Net.InitClient(2)]);
    Net.ResetIsInitial(Net.InitClient(1));
    Net.ResetIsInitial(Net.InitClient(2));
    SelectDBAsWrittenIncomplete(redis, 1, 7, Success);
    SelectDBSpec(Some(redis), 1, 7, Success);
  }

  /** rAffirmDB, the connect hook, as written (redisx.c line 340): redisxSelectDB with the index
      already stored, which the early return for an unchanged index turns into nothing. */
  function AffirmDBAsWritten(d: Db, affirm: Hooks.Func, confirmation: Status): (r: Switch)
    requires Valid(Some(d))
  {
    SelectDB(Some(d), d.dbIndex, affirm, confirmation)
  }

  /** After a reconnect the hook sends nothing, so the new connections stay on database 0. */
  lemma AffirmDBAsWrittenSendsNothing(d: Db, affirm: Hooks.Func, confirmation: Status)
    requires Valid(Some(d))
    ensures AffirmDBAsWritten(d, affirm, confirmation) == Switch(Success, Some(d), [])
  {
  }

  /** rAffirmDB as intended: the stored index is selected again on the new connections. */
  function AffirmDB(d: Db, confirmation: Status): (r: Switch)
    requires Valid(Some(d))
  {
    var sw := SwitchFrom(d.clients, d.dbIndex, 0, confirmation, false, Selected(Success, []));
    Switch(sw.status, Some(d), sw.requests)
  }

  /** The corrected hook sends SELECT with the stored index on every connected client but the
      subscription one, and leaves the instance as it is. */
  lemma AffirmDBSelects(d: Db, confirmation: Status)
    requires Valid(Some(d))
    ensures var r := AffirmDB(d, confirmation);
            r.db == Some(d) && r.requests == SwitchRequests(d.clients, d.dbIndex)
            && (d.clients[0].isEnabled ==> SelectRequest(d.dbIndex) in r.requests)
            && (r.status == Success <==> !d.clients[2].isEnabled && (d.clients[0].isEnabled ==> confirmation == Success))
  {
    SwitchSpec(d.clients, d.dbIndex, confirmation);
  }
}
