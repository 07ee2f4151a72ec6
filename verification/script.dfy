/** The Lua script calls of redisx-script.c (redisxLoadScript also appears, unchanged, in
    redisx.c): loading a script to get its SHA1, and running a loaded script with EVALSHA. A
    NULL-terminated string array is the sequence of its strings before the terminator, and a
    NULL array is None. */
module Script {
  import opened CStrings
  import opened Header
  import opened Requests
  import opened Resp
  import Net
  import Redisx
  import Wire

  const SCRIPT: seq<byte> := Ascii("SCRIPT")
  const LOAD: seq<byte> := Ascii("LOAD")
  const EVALSHA: seq<byte> := Ascii("EVALSHA")

  // ---------------------------------------------------------------- redisxLoadScript

  /** What `*sha1` holds afterwards: left as it was, NULL, the string returned by the server,
      or a pointer into a reply that has been freed. */
  datatype Sha = Untouched | NullSha | Sha(bytes: seq<byte>) | Freed

  datatype Loaded = Loaded(status: Status, sha1: Sha, sent: seq<Request>)

  /** redisxLoadScript with the two steps that decide its result chosen: `inverted` tests the
      request status as the source does at line 47 (`if(!status)`, which bails out on
      success), and `detach` keeps the returned string when the reply is freed, where the
      source stores `reply->value` and then frees the reply that owns it (lines 55-56). */
  function LoadScriptWith(redis: Option<Net.Instance>, script: Option<seq<byte>>, lockFails: bool,
                          answer: Option<Resp>, inverted: bool, detach: bool): (r: Loaded)
    requires Redisx.HasChannels(redis)
  {
    if redis.None? then Loaded(NullArg, Untouched, [])
    else if Blank(script) then Loaded(NameInvalid, Untouched, [])
    else
      var x := Redisx.RedisRequest(redis, Some(SCRIPT), Some(LOAD), script, None, Success, lockFails, answer);
      if (if inverted then x.status == Success else x.status != Success) then Loaded(x.status, NullSha, x.sent)
      else
        var s := CheckOld(x.reply, Some(BulkString), 0);
        if s != Success then Loaded(s, NullSha, x.sent)
        else if !detach then Loaded(Success, Freed, x.sent)
        else match x.reply.value.value
          case Text(b) => Loaded(Success, Sha(b), x.sent)
          case _ => Loaded(Success, NullSha, x.sent)
  }

  function LoadScriptAsWritten(redis: Option<Net.Instance>, script: Option<seq<byte>>, lockFails: bool,
                               answer: Option<Resp>): (r: Loaded)
    requires Redisx.HasChannels(redis)
  {
    LoadScriptWith(redis, script, lockFails, answer, true, false)
  }

  function LoadScript(redis: Option<Net.Instance>, script: Option<seq<byte>>, lockFails: bool,
                      answer: Option<Resp>): (r: Loaded)
    requires Redisx.HasChannels(redis)
  {
    LoadScriptWith(redis, script, lockFails, answer, false, true)
  }

  /** A bulk-string reply that redisxCheckRESP accepts. */
  predicate IsShaReply(r: Resp) {
    r.typ == BulkString && r.n >= 0 && r.value.Text?
  }

  /** The request of redisxLoadScript: SCRIPT LOAD with the script, sent exactly when the
      interactive client can be locked, and answered by the server's reply. */
  lemma LoadRequest(redis: Net.Instance, script: seq<byte>, lockFails: bool, answer: Option<Resp>)
    requires Redisx.HasChannels(Some(redis))
    ensures var x := Redisx.RedisRequest(Some(redis), Some(SCRIPT), Some(LOAD), Some(script), None, Success, lockFails, answer);
            if !lockFails && redis.clients[0].isEnabled
            then x == Redisx.Exchange(Success, answer, [Plain([SCRIPT, LOAD, script])])
            else x.status != Success && x.reply.None? && x.sent == []
  {
    var args := Wire.RequestArgs(SCRIPT, Some(LOAD), Some(script), None);
    assert args == [SCRIPT, LOAD, script];
    assert args[..3] == args;
  }

  /** As written, no call returns a SHA1: when the request goes through, the call reports
      success with `*sha1` NULL, and when it does not, redisxCheckRESP is handed the missing
      reply and the call reports X_PARSE_ERROR. */
  lemma LoadScriptAsWrittenNeverLoads(redis: Option<Net.Instance>, script: Option<seq<byte>>, lockFails: bool,
                                      answer: Option<Resp>)
    requires Redisx.HasChannels(redis)
    ensures var r := LoadScriptAsWritten(redis, script, lockFails, answer);
            !r.sha1.Sha?
    ensures var r := LoadScriptAsWritten(redis, script, lockFails, answer);
            redis.Some? && !Blank(script) && !lockFails && redis.value.clients[0].isEnabled
            && answer.Some? && IsShaReply(answer.value) ==>
              r == Loaded(Success, NullSha, [Plain([SCRIPT, LOAD, script.value])])
    ensures var r := LoadScriptAsWritten(redis, script, lockFails, answer);
            redis.Some? && !Blank(script) && (lockFails || !redis.value.clients[0].isEnabled) ==>
              r == Loaded(ParseError, NullSha, [])
  {
    if redis.Some? && !Blank(script) {
      LoadRequest(redis.value, script.value, lockFails, answer);
    }
  }

  /** With only the test at line 47 put right, a loaded script's SHA1 would point into the
      freed reply. */
  lemma LoadScriptTestFixedDangles(redis: Net.Instance, script: seq<byte>, sha: seq<byte>)
    requires Redisx.HasChannels(Some(redis)) && redis.clients[0].isEnabled && StrLen(script) > 0
    ensures LoadScriptWith(Some(redis), Some(script), false, Some(Resp(BulkString, |sha|, Text(sha))),
                           false, false).sha1 == Freed
  {
  }

  /** Corrected, the call refuses a NULL instance and a NULL or empty script without touching
      `*sha1`, sends SCRIPT LOAD with the script, passes on a request failure, and returns the
      string of a bulk-string reply as the SHA1. */
  lemma LoadScriptSpec(redis: Option<Net.Instance>, script: Option<seq<byte>>, lockFails: bool,
                       answer: Option<Resp>)
    requires Redisx.HasChannels(redis)
    ensures var r := LoadScript(redis, script, lockFails, answer);
            (redis.None? ==> r == Loaded(NullArg, Untouched, []))
            && (redis.Some? && Blank(script) ==> r == Loaded(NameInvalid, Untouched, []))
            && (r.sha1.Untouched? <==> redis.None? || Blank(script))
            && r.sha1 != Freed
    ensures var r := LoadScript(redis, script, lockFails, answer);
            redis.Some? && !Blank(script) && (lockFails || !redis.value.clients[0].isEnabled) ==>
              r.status != Success && r.sha1 == NullSha && r.sent == []
    ensures var r := LoadScript(redis, script, lockFails, answer);
            redis.Some? && !Blank(script) && !lockFails && redis.value.clients[0].isEnabled
            && answer.Some? && IsShaReply(answer.value) ==>
              r == Loaded(Success, Sha(answer.value.value.bytes), [Plain([SCRIPT, LOAD, script.value])])
    ensures var r := LoadScript(redis, script, lockFails, answer);
            r.sha1.Sha? ==> r.status == Success && answer.Some? && answer.value.value == Text(r.sha1.bytes)
  {
    if redis.Some? && !Blank(script) {
      LoadRequest(redis.value, script.value, lockFails, answer);
    }
  }

  // ---------------------------------------------------------------- redisxRunScriptAsync

  /** EVALSHA, the SHA1, the number of keys, the keys, then the parameters. */
  function ScriptArgs(sha1: seq<byte>, keys: seq<seq<byte>>, params: seq<seq<byte>>): (args: seq<seq<byte>>)
  {
    [EVALSHA, sha1, Decimal(|keys|)] + keys + params
  }

  /** The number of strings before the terminator; 0 for a NULL array. */
  function Strings(a: Option<seq<seq<byte>>>): (s: seq<seq<byte>>) {
    if a.None? then [] else a.value
  }

  /** The EVALSHA request layout: a receiver that reads the key count back finds the keys and
      then the parameters, and nothing else. */
  lemma ScriptArgsSplit(sha1: seq<byte>, keys: seq<seq<byte>>, params: seq<seq<byte>>)
    ensures var a := ScriptArgs(sha1, keys, params);
            |a| == 3 + |keys| + |params|
            && a[0] == EVALSHA && a[1] == sha1 && a[2] == Decimal(|keys|)
            && a[3..3 + |keys|] == keys && a[3 + |keys|..] == params
  {
    var a := ScriptArgs(sha1, keys, params);
    assert a[3..3 + |keys|] == keys;
    assert a[3 + |keys|..] == params;
  }

  /** redisxRunScriptAsync: X_NULL for a NULL client or SHA1, otherwise the EVALSHA request,
      sent in one piece on an enabled client and refused with X_NO_INIT on a disabled one. */
  function RunScriptAsync(cl: Option<Net.Client>, sha1: Option<seq<byte>>,
                          keys: Option<seq<seq<byte>>>, params: Option<seq<seq<byte>>>): (r: Outcome)
  {
    if cl.None? || sha1.None? then Refused(NullArg)
    else if !cl.value.isEnabled then Refused(NoInit)
    else Sends([Plain(ScriptArgs(sha1.value, Strings(keys), Strings(params)))])
  }

  /** The loop that copies the parameters (line 98) advances `i` instead of `k`, so with any
      parameter it never ends and writes past the array: None. */
  function RunScriptAsyncAsWritten(cl: Option<Net.Client>, sha1: Option<seq<byte>>,
                                   keys: Option<seq<seq<byte>>>, params: Option<seq<seq<byte>>>): (r: Option<Outcome>)
  {
    if cl.None? || sha1.None? then Some(Refused(NullArg))
    else if |Strings(params)| > 0 then None
    else Some(RunScriptAsync(cl, sha1, keys, params))
  }

  /** The two agree exactly when the script gets no parameters or the call is refused up front. */
  lemma RunScriptAsyncAsWrittenDiverges(cl: Option<Net.Client>, sha1: Option<seq<byte>>,
                                        keys: Option<seq<seq<byte>>>, params: Option<seq<seq<byte>>>)
    ensures RunScriptAsyncAsWritten(cl, sha1, keys, params) == Some(RunScriptAsync(cl, sha1, keys, params))
        <==> cl.None? || sha1.None? || |Strings(params)| == 0
    ensures cl.Some? && sha1.Some? && |Strings(params)| > 0 ==> RunScriptAsyncAsWritten(cl, sha1, keys, params).None?
  {
  }

  /** The corrected call sends one EVALSHA request holding the SHA1, the key count, every key
      and every parameter, in order. */
  lemma RunScriptAsyncSpec(cl: Option<Net.Client>, sha1: Option<seq<byte>>,
                           keys: Option<seq<seq<byte>>>, params: Option<seq<seq<byte>>>)
    ensures var r := RunScriptAsync(cl, sha1, keys, params);
            (r == Refused(NullArg) <==> cl.None? || sha1.None?)
            && (r.Sends? <==> cl.Some? && sha1.Some? && cl.value.isEnabled)
    ensures var r := RunScriptAsync(cl, sha1, keys, params);
            r.Sends? ==> |r.requests| == 1 && r.requests[0].lengths.None?
                         && |r.requests[0].args| == 3 + |Strings(keys)| + |Strings(params)|
                         && r.requests[0].args[1] == sha1.value
                         && r.requests[0].args[3..3 + |Strings(keys)|] == Strings(keys)
                         && r.requests[0].args[3 + |Strings(keys)|..] == Strings(params)
  {
    if cl.Some? && sha1.Some? {
      ScriptArgsSplit(sha1.value, Strings(keys), Strings(params));
    }
  }

  // ---------------------------------------------------------------- redisxRunScript

  /** redisxRunScript: no reply for a NULL instance or SHA1 or when the interactive client
      cannot be locked; otherwise the EVALSHA request and then the reply read back. */
  function RunScript(redis: Option<Net.Instance>, sha1: Option<seq<byte>>, keys: Option<seq<seq<byte>>>,
                     params: Option<seq<seq<byte>>>, lockFails: bool, answer: Option<Resp>): (r: Redisx.Exchange)
    requires Redisx.HasChannels(redis)
  {
    if redis.None? || sha1.None? then Redisx.Exchange(NullArg, None, [])
    else
      var cl := Some(redis.value.clients[ChannelIndex(Interactive)]);
      var s := Redisx.LockConnected(cl, lockFails);
      if s != Success then Redisx.Exchange(s, None, [])
      else match RunScriptAsync(cl, sha1, keys, params)
        case Refused(st) => Redisx.Exchange(st, None, [])
        case Sends(rs) => Redisx.Exchange(Success, answer, rs)
  }

  /** A script run returns the server's answer exactly when the instance, the SHA1 and a
      connected interactive client are there, after sending the one EVALSHA request. */
  lemma RunScriptSpec(redis: Option<Net.Instance>, sha1: Option<seq<byte>>, keys: Option<seq<seq<byte>>>,
                      params: Option<seq<seq<byte>>>, lockFails: bool, answer: Option<Resp>)
    requires Redisx.HasChannels(redis)
    ensures var r := RunScript(redis, sha1, keys, params, lockFails, answer);
            (r.sent != [] <==> redis.Some? && sha1.Some? && !lockFails && redis.value.clients[0].isEnabled)
            && (r.sent != [] ==> r.reply == answer && r.sent == [Plain(ScriptArgs(sha1.value, Strings(keys), Strings(params)))])
            && (r.sent == [] ==> r.reply.None?)
  {
  }
}
