/** The RESP2 wire codec of `redisx-client.c` and its older twin `redisx-io.c`: the request
    encoder that streams `*n\r\n` and `$len\r\narg\r\n` through a fixed command buffer, the
    CRLF token reader, and the recursive reply parser. A connection is modelled by the bytes
    still to be received, the bytes sent so far, the enabled flag and the pending-reply count. */
module Wire {
  import opened CStrings
  import opened Header
  import opened Resp

  datatype Conn = Conn(input: seq<byte>, output: seq<byte>, enabled: bool, pending: int)

  function Max(a: int, b: int): (m: int)
    ensures a <= m && b <= m && (m == a || m == b)
  {
    if a < b then b else a
  }

  /** The concatenation of a list of byte strings. */
  function Join(ss: seq<seq<byte>>): (r: seq<byte>)
    decreases |ss|
  {
    if |ss| == 0 then [] else ss[0] + Join(ss[1..])
  }

  lemma {:induction false} JoinAppend(ss: seq<seq<byte>>, s: seq<byte>)
    ensures Join(ss + [s]) == Join(ss) + s
    decreases |ss|
  {
    if |ss| == 0 {
      assert ss + [s] == [s];
      assert Join([s]) == s + Join([]);
    } else {
      assert (ss + [s])[1..] == ss[1..] + [s];
      JoinAppend(ss[1..], s);
    }
  }

  /** One call of rSendBytesAsync: the bytes and its `isLast` flag. */
  datatype Chunk = Chunk(bytes: seq<byte>, last: bool)

  /** The bytes that reach the socket for a list of sends. */
  function Flatten(cs: seq<Chunk>): (r: seq<byte>)
    decreases |cs|
  {
    if |cs| == 0 then [] else Flatten(cs[..|cs| - 1]) + cs[|cs| - 1].bytes
  }

  lemma FlattenAppend(cs: seq<Chunk>, more: seq<Chunk>)
    ensures Flatten(cs + more) == Flatten(cs) + Flatten(more)
    decreases |more|
  {
    if |more| == 0 {
      assert cs + more == cs;
    } else {
      var init := more[..|more| - 1];
      assert (cs + more)[..|cs + more| - 1] == cs + init;
      FlattenAppend(cs, init);
    }
  }

  /** `*%d\r\n`, the array header of a request. */
  function CountHeader(n: int): (r: seq<byte>)
    ensures |r| >= 4 && r[0] == RESP_ARRAY
  {
    [RESP_ARRAY] + Decimal(n) + CRLF
  }

  /** `$%d\r\n`, the header of one bulk-string argument. */
  function BulkHeader(l: int): (r: seq<byte>)
    ensures |r| >= 4 && r[0] == RESP_BULK_STRING
  {
    [RESP_BULK_STRING] + Decimal(l) + CRLF
  }

  function Bulk(p: seq<byte>): (r: seq<byte>)
    ensures |r| == |BulkHeader(|p|)| + |p| + 2
  {
    BulkHeader(|p|) + p + CRLF
  }

  /** The bulk strings of a list of arguments, one after the other. */
  function Bulks(ps: seq<seq<byte>>): (r: seq<byte>)
    decreases |ps|
  {
    if |ps| == 0 then [] else Bulks(ps[..|ps| - 1]) + Bulk(ps[|ps| - 1])
  }

  /** The RESP2 request for `n` (the count the caller passes) and the payloads sent. */
  function Frame(n: int, ps: seq<seq<byte>>): (r: seq<byte>) {
    CountHeader(n) + Bulks(ps)
  }

  /** The encoder's state between arguments: the sends so far, the bytes held in `buf`, and
      the highest index of `buf` written so far (the NUL that sprintf() writes included). */
  datatype EncState = EncState(sent: seq<Chunk>, buffered: seq<byte>, high: int)

  /** One argument, as written: the `$l\r\n` header is printed into `buf` before the capacity
      test; the test then flushes `buf` and either copies the argument to the front of `buf` or,
      when it cannot fit at all, sends it and `\r\n` directly. */
  function StepAsWritten(st: EncState, p: seq<byte>, isLast: bool, size: int): (r: EncState) {
    var withHeader := st.buffered + BulkHeader(|p|);
    var high := Max(st.high, |withHeader|);
    var l := |p|;
    if |withHeader| + l + 3 > size then
      var sent := st.sent + [Chunk(withHeader, false)];
      if l + 3 > size then EncState(sent + [Chunk(p, false), Chunk(CRLF, isLast)], [], high)
      else EncState(sent, p + CRLF, Max(high, l + 2))
    else EncState(st.sent, withHeader + p + CRLF, Max(high, |withHeader| + l + 2))
  }

  /** One argument with the capacity test moved before the header is printed: the header, the
      argument, CR LF and sprintf()'s NUL must all fit in what is left of `buf`. */
  function StepBounded(st: EncState, p: seq<byte>, isLast: bool, size: int): (r: EncState) {
    var h := BulkHeader(|p|);
    var l := |p|;
    if |st.buffered| + |h| + l + 3 <= size then
      EncState(st.sent, st.buffered + h + p + CRLF, Max(st.high, |st.buffered| + |h| + l + 2))
    else
      var sent := st.sent + [Chunk(st.buffered, false)];
      if |h| + l + 3 <= size then EncState(sent, h + p + CRLF, Max(st.high, |h| + l + 2))
      else EncState(sent + [Chunk(h, false), Chunk(p, false), Chunk(CRLF, isLast)], [], st.high)
  }

  function Step(st: EncState, p: seq<byte>, isLast: bool, size: int, bounded: bool): EncState {
    if bounded then StepBounded(st, p, isLast, size) else StepAsWritten(st, p, isLast, size)
  }

  /** The state after the first `i` arguments. */
  function EncodePrefix(n: int, ps: seq<seq<byte>>, i: nat, size: int, bounded: bool): (st: EncState)
    requires i <= |ps|
    decreases i
  {
    if i == 0 then EncState([], CountHeader(n), |CountHeader(n)|)
    else Step(EncodePrefix(n, ps, i - 1, size, bounded), ps[i - 1], i == |ps|, size, bounded)
  }

  datatype Encoding = Encoding(chunks: seq<Chunk>, high: int)

  /** redisxSendArrayRequestAsync's byte layout for `n` and the payloads, with the final flush
      of whatever is left in `buf`. */
  function Encode(n: int, ps: seq<seq<byte>>, size: int, bounded: bool): (e: Encoding) {
    var st := EncodePrefix(n, ps, |ps|, size, bounded);
    if |st.buffered| > 0 then Encoding(st.sent + [Chunk(st.buffered, true)], st.high)
    else Encoding(st.sent, st.high)
  }

  lemma FlattenOne(cs: seq<Chunk>, c: Chunk)
    ensures Flatten(cs + [c]) == Flatten(cs) + c.bytes
  {
    assert (cs + [c])[..|cs|] == cs;
  }

  lemma AsWrittenStepStream(st: EncState, p: seq<byte>, isLast: bool, size: int)
    ensures var r := StepAsWritten(st, p, isLast, size);
            Flatten(r.sent) + r.buffered == Flatten(st.sent) + st.buffered + Bulk(p)
  {
    var withHeader := st.buffered + BulkHeader(|p|);
    var r := StepAsWritten(st, p, isLast, size);
    var f := Flatten(st.sent);
    BulkRegrouped(f, st.buffered, BulkHeader(|p|), p);
    if |withHeader| + |p| + 3 > size {
      FlattenOne(st.sent, Chunk(withHeader, false));
      var sent := st.sent + [Chunk(withHeader, false)];
      if |p| + 3 > size {
        assert r.sent == sent + [Chunk(p, false)] + [Chunk(CRLF, isLast)] && r.buffered == [];
        SentDirectly(sent, p, isLast, f + withHeader);
      } else {
        assert r.sent == sent && r.buffered == p + CRLF;
      }
    } else {
      assert r.sent == st.sent && r.buffered == withHeader + p + CRLF;
    }
  }

  /** The sends, the buffer and a bulk string, regrouped around the header. */
  lemma BulkRegrouped(f: seq<byte>, b: seq<byte>, h: seq<byte>, p: seq<byte>)
    requires h == BulkHeader(|p|)
    ensures f + b + Bulk(p) == (f + (b + h)) + (p + CRLF)
    ensures f + b + Bulk(p) == f + ((b + h) + p + CRLF)
    ensures f + b + Bulk(p) == (f + (b + h)) + p + CRLF + []
  {
  }

  /** An argument too large for the buffer is sent as itself followed by CR LF. */
  lemma SentDirectly(sent: seq<Chunk>, p: seq<byte>, isLast: bool, prefix: seq<byte>)
    requires Flatten(sent) == prefix
    ensures Flatten(sent + [Chunk(p, false)] + [Chunk(CRLF, isLast)]) + [] == prefix + p + CRLF + []
  {
    FlattenOne(sent, Chunk(p, false));
    FlattenOne(sent + [Chunk(p, false)], Chunk(CRLF, isLast));
  }

  lemma BoundedStepStream(st: EncState, p: seq<byte>, isLast: bool, size: int)
    ensures var r := StepBounded(st, p, isLast, size);
            Flatten(r.sent) + r.buffered == Flatten(st.sent) + st.buffered + Bulk(p)
  {
    var h := BulkHeader(|p|);
    var r := StepBounded(st, p, isLast, size);
    var f := Flatten(st.sent);
    BufferRegrouped(f, st.buffered, h, p);
    if |st.buffered| + |h| + |p| + 3 > size {
      var sent := st.sent + [Chunk(st.buffered, false)];
      FlattenOne(st.sent, Chunk(st.buffered, false));
      if |h| + |p| + 3 > size {
        assert r.sent == sent + [Chunk(h, false)] + [Chunk(p, false)] + [Chunk(CRLF, isLast)] && r.buffered == [];
        SentWithHeader(sent, h, p, isLast, f + st.buffered);
      } else {
        assert r.sent == sent && r.buffered == h + p + CRLF;
      }
    } else {
      assert r.sent == st.sent && r.buffered == st.buffered + h + p + CRLF;
    }
  }

  /** The sends, the buffer and a bulk string, regrouped around the buffer. */
  lemma BufferRegrouped(f: seq<byte>, b: seq<byte>, h: seq<byte>, p: seq<byte>)
    requires h == BulkHeader(|p|)
    ensures f + b + Bulk(p) == f + (b + h + p + CRLF)
    ensures f + b + Bulk(p) == (f + b) + (h + p + CRLF)
    ensures f + b + Bulk(p) == (f + b) + Bulk(p) + []
  {
  }

  /** A flushed buffer followed by an argument sent piecemeal with its header. */
  lemma SentWithHeader(sent: seq<Chunk>, h: seq<byte>, p: seq<byte>, isLast: bool, prefix: seq<byte>)
    requires Flatten(sent) == prefix && h == BulkHeader(|p|)
    ensures Flatten(sent + [Chunk(h, false)] + [Chunk(p, false)] + [Chunk(CRLF, isLast)]) + [] == prefix + Bulk(p)
  {
    FlattenOne(sent, Chunk(h, false));
    FlattenOne(sent + [Chunk(h, false)], Chunk(p, false));
    FlattenOne(sent + [Chunk(h, false)] + [Chunk(p, false)], Chunk(CRLF, isLast));
  }

  /** One step, either variant, adds exactly the argument's bulk string to the sends followed
      by the buffer. */
  lemma StepStream(st: EncState, p: seq<byte>, isLast: bool, size: int, bounded: bool)
    ensures var r := Step(st, p, isLast, size, bounded);
            Flatten(r.sent) + r.buffered == Flatten(st.sent) + st.buffered + Bulk(p)
  {
    if bounded { BoundedStepStream(st, p, isLast, size); } else { AsWrittenStepStream(st, p, isLast, size); }
  }

  lemma FrameSnoc(n: int, ps: seq<seq<byte>>, i: nat)
    requires 0 < i <= |ps|
    ensures Frame(n, ps[..i]) == Frame(n, ps[..i - 1]) + Bulk(ps[i - 1])
  {
    var q := ps[..i];
    assert |q| == i;
    var init := q[..|q| - 1];
    assert init == ps[..i - 1];
    var b := Bulk(q[|q| - 1]);
    assert Bulks(q) == Bulks(init) + b;
    var c := CountHeader(n);
    calc {
      Frame(n, q);
      c + Bulks(q);
      c + (Bulks(init) + b);
      (c + Bulks(init)) + b;
    }
  }

  /** Whatever the buffer size, the sends so far followed by what is held in the buffer are the
      request up to the arguments encoded so far. */
  lemma {:induction false} EncodePrefixStream(n: int, ps: seq<seq<byte>>, i: nat, size: int, bounded: bool)
    requires i <= |ps|
    ensures var st := EncodePrefix(n, ps, i, size, bounded);
            Flatten(st.sent) + st.buffered == Frame(n, ps[..i])
    decreases i
  {
    if i == 0 {
      assert ps[..0] == [];
    } else {
      EncodePrefixStream(n, ps, i - 1, size, bounded);
      var prev := EncodePrefix(n, ps, i - 1, size, bounded);
      var cur := EncodePrefix(n, ps, i, size, bounded);
      assert cur == Step(prev, ps[i - 1], i == |ps|, size, bounded);
      StepStream(prev, ps[i - 1], i == |ps|, size, bounded);
      FrameSnoc(n, ps, i);
    }
  }

  /** The concatenation of all sends is the RESP2 request, independent of where the buffer
      forces flushes, of the buffer size, and of which of the two steps is used. */
  lemma EncodeStream(n: int, ps: seq<seq<byte>>, size: int, bounded: bool)
    ensures Flatten(Encode(n, ps, size, bounded).chunks) == Frame(n, ps)
  {
    EncodePrefixStream(n, ps, |ps|, size, bounded);
    var st := EncodePrefix(n, ps, |ps|, size, bounded);
    assert ps[..|ps|] == ps;
    if |st.buffered| > 0 {
      FlattenAppend(st.sent, [Chunk(st.buffered, true)]);
      assert Flatten([Chunk(st.buffered, true)]) == st.buffered;
    }
  }

  /** Only the final send is flagged as the last one. */
  predicate LastFlagged(cs: seq<Chunk>) {
    |cs| > 0 && cs[|cs| - 1].last && forall k :: 0 <= k < |cs| - 1 ==> !cs[k].last
  }

  /** Between arguments, a send is flagged last only if it is the final one so far, the
      arguments are done and the buffer is empty; an empty buffer follows a send of CR LF that
      is flagged exactly when the arguments are done. */
  predicate FlagsSoFar(st: EncState, done: bool) {
    (forall k :: 0 <= k < |st.sent| ==> st.sent[k].last ==> k == |st.sent| - 1 && done && st.buffered == [])
    && (st.buffered == [] ==> |st.sent| > 0 && st.sent[|st.sent| - 1].last == done)
  }

  lemma StepFlags(st: EncState, p: seq<byte>, isLast: bool, size: int, bounded: bool)
    requires FlagsSoFar(st, false)
    ensures FlagsSoFar(Step(st, p, isLast, size, bounded), isLast)
  {
  }

  lemma {:induction false} EncodePrefixFlags(n: int, ps: seq<seq<byte>>, i: nat, size: int, bounded: bool)
    requires i <= |ps|
    ensures FlagsSoFar(EncodePrefix(n, ps, i, size, bounded), i == |ps|)
    decreases i
  {
    if i > 0 {
      EncodePrefixFlags(n, ps, i - 1, size, bounded);
      StepFlags(EncodePrefix(n, ps, i - 1, size, bounded), ps[i - 1], i == |ps|, size, bounded);
    }
  }

  /** Every request ends with exactly one send flagged as last. */
  lemma EncodeFlagsLast(n: int, ps: seq<seq<byte>>, size: int, bounded: bool)
    ensures LastFlagged(Encode(n, ps, size, bounded).chunks)
  {
    EncodePrefixFlags(n, ps, |ps|, size, bounded);
  }

  /** With the test moved before the header, no write reaches beyond the command buffer, given a
      buffer that holds the longest array header and bulk header with their NULs. */
  lemma {:induction false} BoundedPrefixFits(n: int, ps: seq<seq<byte>>, i: nat, size: int)
    requires i <= |ps|
    requires size >= 16
    requires -0x8000_0000 <= n < 0x8000_0000
    ensures EncodePrefix(n, ps, i, size, true).high < size
    ensures |EncodePrefix(n, ps, i, size, true).buffered| < size
    decreases i
  {
    if i == 0 {
      DecimalOfIntIsShort(n);
    } else {
      BoundedPrefixFits(n, ps, i - 1, size);
    }
  }

  lemma BoundedEncodingFits(n: int, ps: seq<seq<byte>>, size: int)
    requires size >= 16
    requires -0x8000_0000 <= n < 0x8000_0000
    ensures Encode(n, ps, size, true).high < size
  {
    BoundedPrefixFits(n, ps, |ps|, size);
  }

  /** As written, two arguments of 8176 bytes and 1 byte leave `buf` holding 8189 bytes before
      the second header, whose `$1\r\n` and NUL are then written at indexes 8189 to 8193 of an
      8192-byte buffer. */
  lemma AsWrittenOverflows()
    ensures var ps := [seq(8176, _ => 65), [97]];
            Encode(2, ps, CMDBUF_SIZE, false).high == 8193
            && Encode(2, ps, CMDBUF_SIZE, true).high < CMDBUF_SIZE
  {
    var ps: seq<seq<byte>> := [seq(8176, _ => 65), [97]];
    assert Decimal(2) == [50];
    assert NatDigits(8176) == [56, 49, 55, 54] by {
      assert NatDigits(817) == [56, 49, 55] by {
        assert NatDigits(81) == [56, 49];
      }
    }
    assert Decimal(1) == [49];
    assert |CountHeader(2)| == 4;
    assert |BulkHeader(8176)| == 7;
    assert |BulkHeader(1)| == 4;
    var st1 := EncodePrefix(2, ps, 1, CMDBUF_SIZE, false);
    assert |st1.buffered| == 8189;
    BoundedEncodingFits(2, ps, CMDBUF_SIZE);
  }

  /** The longest argument for which the encoder's `int` sums stay in range: the buffer fill
      (at most the buffer plus one header) plus the length plus 3. */
  const MAX_ARG_LENGTH: int := INT_MAX - CMDBUF_SIZE - 32

  predicate ArgsFit(ps: seq<seq<byte>>) {
    forall i :: 0 <= i < |ps| ==> |ps[i]| <= MAX_ARG_LENGTH
  }

  /** The payload length of argument `i`: lengths[i] when a lengths array is given and the
      entry is positive, otherwise strlen(args[i]). */
  function ArgLength(arg: seq<byte>, given: Option<int>): (l: int)
    ensures l >= 0
  {
    if given.Some? && given.value > 0 then given.value else StrLen(arg)
  }

  function GivenLength(lengths: Option<seq<int>>, i: nat): Option<int> {
    if lengths.Some? && i < |lengths.value| then Some(lengths.value[i]) else None
  }

  /** The caller must supply `n` arguments (and `n` lengths if any), each holding at least the
      bytes its length asks for. */
  predicate ArgsReadable(args: seq<seq<byte>>, lengths: Option<seq<int>>, n: int) {
    (n > 0 ==> |args| >= n && (lengths.Some? ==> |lengths.value| >= n))
    && forall i :: 0 <= i < n && i < |args| ==> ArgLength(args[i], GivenLength(lengths, i)) <= |args[i]|
  }

  /** The byte strings sent for the arguments. */
  function Payloads(args: seq<seq<byte>>, lengths: Option<seq<int>>, n: int): (ps: seq<seq<byte>>)
    requires ArgsReadable(args, lengths, n)
    ensures |ps| == if n > 0 then n else 0
    ensures forall i :: 0 <= i < |ps| ==> ps[i] == args[i][..ArgLength(args[i], GivenLength(lengths, i))]
  {
    var k := if n > 0 then n else 0;
    seq(k, i requires 0 <= i < k => args[i][..ArgLength(args[i], GivenLength(lengths, i))])
  }

  /** All the bytes the encoder hands to rSendBytesAsync for one request, one send after the
      other. */
  function Sends(n: int, ps: seq<seq<byte>>, size: int, bounded: bool): (b: seq<byte>)
    ensures b == Frame(n, ps)
  {
    EncodeStream(n, ps, size, bounded);
    Flatten(Encode(n, ps, size, bounded).chunks)
  }

  /** Outcome of a request send: the status and the connection afterwards. */
  datatype Sent = Sent(status: Status, conn: Option<Conn>)

  /** Sends through rSendBytesAsync: a disabled client refuses with X_NO_INIT. */
  function SendBytes(c: Conn, bytes: seq<byte>): (r: Sent)
    ensures r.status == Success <==> c.enabled
    ensures r.status == Success ==> r.conn == Some(c.(output := c.output + bytes))
    ensures r.status != Success ==> r == Sent(NoInit, Some(c))
  {
    if !c.enabled then Sent(NoInit, Some(c)) else Sent(Success, Some(c.(output := c.output + bytes)))
  }

  /** redisxSendArrayRequestAsync with a command buffer of `size` bytes (REDISX_CMDBUF_SIZE
      for the newer code) and the encoding step chosen by `bounded`. On success the request
      is counted as pending. */
  function SendArrayRequest(cl: Option<Conn>, args: seq<seq<byte>>, lengths: Option<seq<int>>, n: int,
                            size: int, bounded: bool): (r: Sent)
    requires ArgsReadable(args, lengths, n)
    ensures cl.None? ==> r == Sent(NullArg, cl)
    ensures cl.Some? && !cl.value.enabled ==> r == Sent(NoInit, cl)
    ensures r.status == Success <==> cl.Some? && cl.value.enabled
    ensures r.status == Success ==>
      r.conn == Some(cl.value.(output := cl.value.output + Frame(n, Payloads(args, lengths, n)),
                               pending := cl.value.pending + 1))
  {
    if cl.None? then Sent(NullArg, cl)
    else SendFrame(cl.value, Sends(n, Payloads(args, lengths, n), size, bounded))
  }

  /** A request's bytes through rSendBytesAsync, then one more pending reply. */
  function SendFrame(c: Conn, bytes: seq<byte>): (r: Sent)
    ensures r.status == Success <==> c.enabled
    ensures !c.enabled ==> r == Sent(NoInit, Some(c))
    ensures c.enabled ==> r.conn == Some(c.(output := c.output + bytes, pending := c.pending + 1))
  {
    var s := SendBytes(c, bytes);
    if s.status != Success then s
    else Sent(Success, Some(s.conn.value.(pending := c.pending + 1)))
  }

  /** The number of arguments redisxSendRequestAsync sends: the command and the arguments up to
      the first NULL one. */
  function RequestArgCount(a1: Option<seq<byte>>, a2: Option<seq<byte>>, a3: Option<seq<byte>>): (k: int)
    ensures 1 <= k <= 4
    ensures k == 1 <==> a1.None?
    ensures k == 4 <==> a1.Some? && a2.Some? && a3.Some?
  {
    if a1.None? then 1 else if a2.None? then 2 else if a3.None? then 3 else 4
  }

  function Present(a: Option<seq<byte>>): seq<byte> {
    if a.Some? then a.value else []
  }

  /** The argument list redisxSendRequestAsync builds from a command and up to three optional
      C-string arguments. */
  function RequestArgs(command: seq<byte>, a1: Option<seq<byte>>, a2: Option<seq<byte>>, a3: Option<seq<byte>>): (args: seq<seq<byte>>)
    ensures |args| == RequestArgCount(a1, a2, a3)
    ensures args[0] == command
  {
    [command, Present(a1), Present(a2), Present(a3)][..RequestArgCount(a1, a2, a3)]
  }

  /** redisxSendRequestAsync of `redisx-client.c`: NULL client, then NULL command, then the send. */
  function SendRequest(cl: Option<Conn>, command: Option<seq<byte>>,
                       a1: Option<seq<byte>>, a2: Option<seq<byte>>, a3: Option<seq<byte>>): (r: Sent)
    ensures cl.None? ==> r.status == NullArg
    ensures cl.Some? && command.None? ==> r == Sent(NameInvalid, cl)
    ensures r.status == Success <==> cl.Some? && command.Some? && cl.value.enabled
    ensures r.status == Success ==>
      var args := RequestArgs(command.value, a1, a2, a3);
      r.conn == Some(cl.value.(output := cl.value.output + Frame(|args|, Payloads(args, None, |args|)),
                               pending := cl.value.pending + 1))
  {
    if cl.None? then Sent(NullArg, cl)
    else if command.None? then Sent(NameInvalid, cl)
    else
      var args := RequestArgs(command.value, a1, a2, a3);
      SendArrayRequest(cl, args, None, |args|, CMDBUF_SIZE, false)
  }

  /** redisxSendRequestAsync of `redisx-io.c`: a disabled client is refused before the command
      is looked at. The buffer size of the older encoder is a parameter. */
  function SendRequestOld(cl: Option<Conn>, command: Option<seq<byte>>,
                          a1: Option<seq<byte>>, a2: Option<seq<byte>>, a3: Option<seq<byte>>,
                          size: int): (r: Sent)
    ensures cl.None? ==> r.status == NullArg
    ensures cl.Some? && !cl.value.enabled ==> r == Sent(NoInit, cl)
    ensures cl.Some? && cl.value.enabled && command.None? ==> r == Sent(NameInvalid, cl)
  {
    if cl.None? then Sent(NullArg, cl)
    else if !cl.value.enabled then Sent(NoInit, cl)
    else if command.None? then Sent(NameInvalid, cl)
    else
      var args := RequestArgs(command.value, a1, a2, a3);
      SendArrayRequest(cl, args, None, |args|, size, false)
  }

  /** The two generations differ only in the order of the checks: on an enabled client with a
      command both send the same bytes, and on a disabled client without a command the newer
      one reports the missing command, the older one the disabled client. */
  lemma SendRequestGenerations(cl: Option<Conn>, command: Option<seq<byte>>,
                               a1: Option<seq<byte>>, a2: Option<seq<byte>>, a3: Option<seq<byte>>, size: int)
    ensures cl.Some? && cl.value.enabled ==>
      SendRequestOld(cl, command, a1, a2, a3, size) == SendRequest(cl, command, a1, a2, a3)
    ensures cl.Some? && !cl.value.enabled && command.None? ==>
      SendRequest(cl, command, a1, a2, a3).status == NameInvalid
      && SendRequestOld(cl, command, a1, a2, a3, size).status == NoInit
  {
  }

  /** The argument count of redisxRequest in `redisx-io.c` and `redisx.c`: 0 for a NULL
      command, otherwise the command and the arguments up to the first NULL. */
  function RequestCount(command: Option<seq<byte>>, a1: Option<seq<byte>>, a2: Option<seq<byte>>,
                        a3: Option<seq<byte>>): (k: int)
    ensures command.None? <==> k == 0
    ensures command.Some? ==> k == RequestArgCount(a1, a2, a3)
  {
    if command.None? then 0 else if a1.None? then 1 else if a2.None? then 2 else if a3.None? then 3 else 4
  }

  /** The byte strings the client sends for CLIENT REPLY SKIP, MULTI, DISCARD and EXEC. */
  const SKIP_REQUEST: seq<byte> := Ascii("*3\r\n$6\r\nCLIENT\r\n$5\r\nREPLY\r\n$4\r\nSKIP\r\n")
  const MULTI_REQUEST: seq<byte> := Ascii("*1\r\n$5\r\nMULTI\r\n")
  const DISCARD_REQUEST: seq<byte> := Ascii("*1\r\n$7\r\nDISCARD\r\n")
  const EXEC_REQUEST: seq<byte> := Ascii("*1\r\n$4\r\nEXEC\r\n")

  lemma FrameOfOne(n: int, p: seq<byte>)
    ensures Frame(n, [p]) == CountHeader(n) + BulkHeader(|p|) + p + CRLF
  {
    assert [p][..0] == [];
    assert Bulks([p]) == Bulk(p);
    Regroup(CountHeader(n), BulkHeader(|p|), p, CRLF);
  }

  lemma Regroup(h: seq<byte>, b: seq<byte>, p: seq<byte>, t: seq<byte>)
    ensures h + (b + p + t) == h + b + p + t
  {
  }

  lemma AsciiConcat(a: string, b: string)
    ensures Ascii(a + b) == Ascii(a) + Ascii(b)
  {
  }

  /** The canned MULTI request is what the encoder produces for the one-word argument list. */
  lemma MultiIsFrame()
    ensures MULTI_REQUEST == Frame(1, [Ascii("MULTI")])
  {
    AsciiConcat("*1\r\n$5\r\n", "MULTI\r\n");
    AsciiConcat("*1\r\n", "$5\r\n");
    AsciiConcat("MULTI", "\r\n");
    assert "*1\r\n" + "$5\r\n" == "*1\r\n$5\r\n";
    assert "MULTI" + "\r\n" == "MULTI\r\n";
    assert "*1\r\n$5\r\n" + "MULTI\r\n" == "*1\r\n$5\r\nMULTI\r\n";
    assert Ascii("*1\r\n") == CountHeader(1);
    assert Ascii("$5\r\n") == BulkHeader(5);
    FrameOfOne(1, Ascii("MULTI"));
  }

  lemma DiscardIsFrame()
    ensures DISCARD_REQUEST == Frame(1, [Ascii("DISCARD")])
  {
    AsciiConcat("*1\r\n$7\r\n", "DISCARD\r\n");
    AsciiConcat("*1\r\n", "$7\r\n");
    AsciiConcat("DISCARD", "\r\n");
    assert "*1\r\n" + "$7\r\n" == "*1\r\n$7\r\n";
    assert "DISCARD" + "\r\n" == "DISCARD\r\n";
    assert "*1\r\n$7\r\n" + "DISCARD\r\n" == "*1\r\n$7\r\nDISCARD\r\n";
    assert Ascii("*1\r\n") == CountHeader(1);
    assert Ascii("$7\r\n") == BulkHeader(7);
    FrameOfOne(1, Ascii("DISCARD"));
  }

  lemma ExecIsFrame()
    ensures EXEC_REQUEST == Frame(1, [Ascii("EXEC")])
  {
    AsciiConcat("*1\r\n$4\r\n", "EXEC\r\n");
    AsciiConcat("*1\r\n", "$4\r\n");
    AsciiConcat("EXEC", "\r\n");
    assert "*1\r\n" + "$4\r\n" == "*1\r\n$4\r\n";
    assert "EXEC" + "\r\n" == "EXEC\r\n";
    assert "*1\r\n$4\r\n" + "EXEC\r\n" == "*1\r\n$4\r\nEXEC\r\n";
    assert Ascii("*1\r\n") == CountHeader(1);
    assert Ascii("$4\r\n") == BulkHeader(4);
    FrameOfOne(1, Ascii("EXEC"));
  }

  /** The bulk string of a word, from its literal. */
  lemma BulkOfWord(w: string, hdr: string)
    requires Ascii(hdr) == BulkHeader(|w|)
    ensures Bulk(Ascii(w)) == Ascii(hdr + w + "\r\n")
  {
    AsciiConcat(hdr + w, "\r\n");
    AsciiConcat(hdr, w);
    assert Ascii("\r\n") == CRLF;
  }

  lemma BulksOfThree(x: seq<byte>, y: seq<byte>, z: seq<byte>)
    ensures Bulks([x, y, z]) == Bulk(x) + Bulk(y) + Bulk(z)
  {
    var ps := [x, y, z];
    assert ps[..2][..1][..0] == [];
    assert ps[..2][..1] == [x];
    assert ps[..2] == [x, y];
    assert Bulks([x]) == Bulk(x);
    assert Bulks([x, y]) == Bulk(x) + Bulk(y);
  }

  lemma SkipWords()
    ensures Bulk(Ascii("CLIENT")) == Ascii("$6\r\nCLIENT\r\n")
    ensures Bulk(Ascii("REPLY")) == Ascii("$5\r\nREPLY\r\n")
    ensures Bulk(Ascii("SKIP")) == Ascii("$4\r\nSKIP\r\n")
  {
    assert Ascii("$6\r\n") == BulkHeader(6);
    assert Ascii("$5\r\n") == BulkHeader(5);
    assert Ascii("$4\r\n") == BulkHeader(4);
    BulkOfWord("CLIENT", "$6\r\n");
    BulkOfWord("REPLY", "$5\r\n");
    BulkOfWord("SKIP", "$4\r\n");
    assert "$6\r\n" + "CLIENT" + "\r\n" == "$6\r\nCLIENT\r\n";
    assert "$5\r\n" + "REPLY" + "\r\n" == "$5\r\nREPLY\r\n";
    assert "$4\r\n" + "SKIP" + "\r\n" == "$4\r\nSKIP\r\n";
  }

  lemma SkipHeadText()
    ensures Ascii("*3\r\n$6\r\nCLIENT\r\n$5\r\nREPLY\r\n")
         == CountHeader(3) + Bulk(Ascii("CLIENT")) + Bulk(Ascii("REPLY"))
  {
    SkipWords();
    assert Ascii("*3\r\n") == CountHeader(3);
    var s1 := "*3\r\n$6\r\nCLIENT\r\n";
    var s2 := "*3\r\n$6\r\nCLIENT\r\n$5\r\nREPLY\r\n";
    assert s1 == "*3\r\n" + "$6\r\nCLIENT\r\n";
    assert s2 == s1 + "$5\r\nREPLY\r\n";
    AsciiConcat("*3\r\n", "$6\r\nCLIENT\r\n");
    AsciiConcat(s1, "$5\r\nREPLY\r\n");
  }

  lemma SkipText()
    ensures SKIP_REQUEST == CountHeader(3) + Bulk(Ascii("CLIENT")) + Bulk(Ascii("REPLY")) + Bulk(Ascii("SKIP"))
  {
    SkipHeadText();
    SkipWords();
    var s2 := "*3\r\n$6\r\nCLIENT\r\n$5\r\nREPLY\r\n";
    var s3 := "*3\r\n$6\r\nCLIENT\r\n$5\r\nREPLY\r\n$4\r\nSKIP\r\n";
    assert s3 == s2 + "$4\r\nSKIP\r\n";
    AsciiConcat(s2, "$4\r\nSKIP\r\n");
  }

  /** The canned CLIENT REPLY SKIP request is what the encoder produces for its three words. */
  lemma SkipIsFrame()
    ensures SKIP_REQUEST == Frame(3, [Ascii("CLIENT"), Ascii("REPLY"), Ascii("SKIP")])
  {
    BulksOfThree(Ascii("CLIENT"), Ascii("REPLY"), Ascii("SKIP"));
    SkipText();
  }

  // ---------------------------------------------------------------------------------------
  // Token reader

  /** rReadToken is called with REDIS_SIMPLE_STRING_SIZE + 1 and keeps one byte for the NUL. */
  const SIMPLE_STRING_SIZE: int := 256
  const TOKEN_LIMIT: int := SIMPLE_STRING_SIZE

  predicate CRLFAt(s: seq<byte>, i: int) {
    0 <= i && i + 1 < |s| && s[i] == CR && s[i + 1] == LF
  }

  /** The position of the first CR LF at or after `from`. */
  function LineEnd(s: seq<byte>, from: nat): (r: Option<nat>)
    requires from <= |s|
    ensures r.Some? ==> from <= r.value && CRLFAt(s, r.value)
    ensures r.Some? ==> forall j :: from <= j < r.value ==> !CRLFAt(s, j)
    ensures r.None? ==> forall j :: from <= j ==> !CRLFAt(s, j)
    decreases |s| - from
  {
    if from + 1 >= |s| then None
    else if CRLFAt(s, from) then Some(from)
    else LineEnd(s, from + 1)
  }

  /** The bytes kept of a line of `i` bytes: all of them when the line and its CR LF fit in the
      buffer, else the first 253. */
  function TokenSize(i: nat): (k: nat)
    ensures k <= i && k <= TOKEN_LIMIT - 2
    ensures i <= TOKEN_LIMIT - 2 ==> k == i
  {
    if i + 2 > TOKEN_LIMIT then TOKEN_LIMIT - 3 else i
  }

  datatype TokenRead = Token(text: seq<byte>, rest: seq<byte>) | TokenFailed(status: Status)

  /** rReadToken: everything before the first CR LF, which is consumed and dropped. A line of up
      to 254 bytes is returned whole; a longer one is cut to its first 253 bytes. Without a CR LF
      the input runs out and the receive fails with X_NO_SERVICE. */
  function ReadToken(input: seq<byte>): (t: TokenRead)
    ensures t.TokenFailed? <==> LineEnd(input, 0).None?
    ensures t.TokenFailed? ==> t.status == NoService
    ensures t.Token? ==>
      (LineEnd(input, 0).Some? && t.rest == input[LineEnd(input, 0).value + 2..]
       && t.text == input[..TokenSize(LineEnd(input, 0).value)])
    ensures t.Token? ==> |t.text| <= TOKEN_LIMIT - 2 && |t.rest| + 2 <= |input|
  {
    match LineEnd(input, 0)
    case None => TokenFailed(NoService)
    case Some(i) =>
      Token(input[..TokenSize(i)], input[i + 2..])
  }

  /** The reading loop of rReadToken, with its CR/LF state machine and the bounded buffer. */
  method ReadTokenLoop(input: seq<byte>) returns (t: TokenRead)
    ensures t == ReadToken(input)
  {
    var length := SIMPLE_STRING_SIZE + 1;
    length := length - 1;
    var buf: seq<byte> := seq(SIMPLE_STRING_SIZE + 2, _ => NUL);
    var foundTerms := 0;
    var L := 0;
    while foundTerms < 2
      invariant 0 <= L <= |input|
      invariant |buf| == SIMPLE_STRING_SIZE + 2 && length == TOKEN_LIMIT
      invariant forall k :: 0 <= k < L && k < length ==> buf[k] == input[k]
      invariant foundTerms == 1 <==> L >= 1 && input[L - 1] == CR
      invariant foundTerms == 2 <==> CRLFAt(input, L - 2)
      invariant 0 <= foundTerms <= 2
      invariant forall j :: 0 <= j && j + 2 < L ==> !CRLFAt(input, j)
      invariant foundTerms < 2 ==> forall j :: 0 <= j && j + 2 <= L ==> !CRLFAt(input, j)
      decreases |input| - L
    {
      if L >= |input| {
        assert forall j :: 0 <= j ==> !CRLFAt(input, j);
        return TokenFailed(NoService);
      }
      var c := input[L];
      if c == CR {
        foundTerms := 1;
      } else if c == LF {
        foundTerms := if foundTerms == 1 then 2 else 0;
      } else {
        foundTerms := 0;
      }
      if L < length {
        buf := buf[L := c];
      }
      L := L + 1;
    }
    var used := L;
    assert LineEnd(input, 0) == Some(used - 2);
    if L > length {
      L := length - 1;
    }
    L := L - 2;
    buf := buf[L := NUL];
    t := Token(buf[..L], input[used..]);
    assert buf[..L] == input[..L];
  }

  // ---------------------------------------------------------------------------------------
  // Reply parser

  /** The newer parser, or the older one, whose RESP_PONG branch compares the token with `pong`. */
  datatype Generation = Current | Legacy(pong: seq<byte>)

  /** The older parser as written compares with "PONG\r\n". */
  const LEGACY: Generation := Legacy(Ascii("PONG\r\n"))

  /** The older parser with the comparison it evidently intends, against the stripped token. */
  const LEGACY_FIXED: Generation := Legacy(Ascii("PONG"))

  const OK: seq<byte> := Ascii("OK")

  datatype Reply = Reply(resp: Option<Resp>, conn: Conn)
  datatype Replies = Replies(items: seq<Option<Resp>>, conn: Conn)

  /** A parsed reply: the pending-request count drops by one for each reply returned. */
  function Done(r: Resp, c: Conn): Reply {
    Reply(Some(r), c.(pending := c.pending - 1))
  }

  /** The `int` that strtol's result is assigned to. */
  function Dimension(token: seq<byte>): (r: Option<int>)
    requires |token| >= 1
    ensures r.Some? ==> -0x8000_0000 <= r.value < 0x8000_0000
  {
    match StrToL(token[1..])
    case Converted(v) => Some(ToInt32(v))
    case _ => None
  }

  function AllPresent(items: seq<Option<Resp>>): bool {
    forall i :: 0 <= i < |items| ==> items[i].Some?
  }

  function Values(items: seq<Option<Resp>>): (vs: seq<Resp>)
    requires AllPresent(items)
    ensures |vs| == |items| && forall i :: 0 <= i < |items| ==> vs[i] == items[i].value
  {
    seq(|items|, i requires 0 <= i < |items| => items[i].value)
  }

  /** The common guarantees of the parser's pieces: the input never grows, nothing is sent, a
      client is never re-enabled. */
  predicate Shrinks(c: Conn, d: Conn) {
    |d.input| <= |c.input| && d.output == c.output && (d.enabled ==> c.enabled)
  }

  predicate IsSuffix(t: seq<byte>, s: seq<byte>) {
    |t| <= |s| && t == s[|s| - |t|..]
  }

  /** Input is only consumed: what is left is a suffix of what there was. */
  predicate Consumes(c: Conn, d: Conn) {
    IsSuffix(d.input, c.input)
  }

  /** redisxReadReplyAsync. A disabled client yields NULL at once; a failed token read disables
      the client and leaves the input exhausted; otherwise the token decides. */
  function ReadReply(c: Conn, gen: Generation): (r: Reply)
    ensures Shrinks(c, r.conn)
    ensures !c.enabled ==> r == Reply(None, c)
    ensures c.enabled && ReadToken(c.input).TokenFailed? ==> r == Reply(None, c.(input := [], enabled := false))
    ensures r.resp.Some? ==> WellFormed(r.resp.value) && c.enabled
    decreases |c.input|, 0, 0
  {
    if !c.enabled then Reply(None, c)
    else match ReadToken(c.input)
      case TokenFailed(_) => Reply(None, c.(input := [], enabled := false))
      case Token(token, rest) =>
        Interpret(token, c.(input := rest), gen)
  }

  /** The first byte of the token buffer: the NUL terminator when the token is empty. */
  function TypeByte(token: seq<byte>): byte {
    if |token| > 0 then token[0] else NUL
  }

  /** The switch on the type byte: `*`, `:` and `$` need a decimal dimension; simple strings and
      errors keep the token after the type byte with n its length; the bare token "OK" becomes a
      simple string with n left at 0; anything else is an unexpected response. */
  function Interpret(token: seq<byte>, c: Conn, gen: Generation): (r: Reply)
    ensures Shrinks(c, r.conn)
    ensures r.resp.Some? ==> WellFormed(r.resp.value)
    decreases |c.input|, 3, 0
  {
    var t := TypeByte(token);
    if t == RESP_ARRAY || t == RESP_INT || t == RESP_BULK_STRING then
      match Dimension(token)
      case None => Reply(None, c)
      case Some(n) => Dimensioned(t, n, c, gen)
    else if t == RESP_SIMPLE_STRING then Done(Resp(SimpleString, |token| - 1, Text(token[1..])), c)
    else if t == RESP_ERROR then Done(Resp(Error, |token| - 1, Text(token[1..])), c)
    else if gen.Legacy? && t == RESP_PONG then
      if CStr(token) != gen.pong then Reply(None, c) else Done(Resp(Pong, 0, NoValue), c)
    else if CStr(token) == OK then Done(Resp(SimpleString, 0, Text(OK)), c)
    else Reply(None, c)
  }

  /** Integers keep n; bulk strings are read by ReadBulk; arrays with n <= 0 have no
      components, others read all n components and fail as a whole if any is missing. */
  function Dimensioned(t: byte, n: int, c: Conn, gen: Generation): (r: Reply)
    ensures Shrinks(c, r.conn)
    ensures r.resp.Some? ==> WellFormed(r.resp.value)
    decreases |c.input|, 2, 0
  {
    if t == RESP_INT then Done(Resp(Int, n, NoValue), c)
    else if t == RESP_BULK_STRING then ReadBulk(n, c)
    else if n <= 0 then Done(Resp(Array, n, NoValue), c)
    else
      var rs := ReadItems(c, gen, n);
      if AllPresent(rs.items) then Done(Resp(Array, n, Items(Values(rs.items))), rs.conn)
      else Reply(None, rs.conn)
  }

  /** The body of a bulk string of length n. With n < 0 there is none. Otherwise the parser
      allocates and reads the `int` n + 2: when that wraps to a negative value the allocation
      fails and nothing is read; when the input holds fewer bytes the receive runs the input
      dry; else n + 2 bytes are consumed and the first n kept. */
  function ReadBulk(n: int, c: Conn): (r: Reply)
    ensures Shrinks(c, r.conn)
    ensures r.resp.Some? ==> r.resp.value.typ == BulkString && r.resp.value.n == n && WellFormed(r.resp.value)
  {
    if n < 0 then Done(Resp(BulkString, n, NoValue), c)
    else if n + 2 > INT_MAX then Reply(None, c)
    else if |c.input| < n + 2 then Reply(None, c.(input := []))
    else Done(Resp(BulkString, n, Text(c.input[..n])), c.(input := c.input[n + 2..]))
  }

  /** The component loop of an array reply: `k` replies, each read even after a failure. */
  function ReadItems(c: Conn, gen: Generation, k: nat): (r: Replies)
    ensures |r.items| == k
    ensures Shrinks(c, r.conn)
    ensures forall i :: 0 <= i < k ==> r.items[i].Some? ==> WellFormed(r.items[i].value)
    decreases |c.input|, 1, k
  {
    if k == 0 then Replies([], c)
    else
      var first := ReadReply(c, gen);
      var others := ReadItems(first.conn, gen, k - 1);
      var items := [first.resp] + others.items;
      assert forall i :: 1 <= i < k ==> items[i] == others.items[i - 1];
      Replies(items, others.conn)
  }

  lemma SuffixRefl(s: seq<byte>)
    ensures IsSuffix(s, s)
  {
    assert s[|s| - |s|..] == s;
  }

  lemma SuffixDrop(s: seq<byte>, k: nat)
    requires k <= |s|
    ensures IsSuffix(s[k..], s)
  {
  }

  lemma SuffixOfSuffix(a: seq<byte>, b: seq<byte>, c: seq<byte>)
    requires IsSuffix(b, a) && IsSuffix(c, b)
    ensures IsSuffix(c, a)
  {
  }

  lemma TokenRestIsSuffix(input: seq<byte>)
    requires ReadToken(input).Token?
    ensures IsSuffix(ReadToken(input).rest, input)
  {
    SuffixDrop(input, LineEnd(input, 0).value + 2);
  }

  /** The parser only ever consumes a prefix of its input: what a reply leaves unread is a
      suffix of what it was given. */
  lemma {:induction false} ReadReplyConsumes(c: Conn, gen: Generation)
    ensures Consumes(c, ReadReply(c, gen).conn)
    decreases |c.input|, 0, 0
  {
    var r := ReadReply(c, gen);
    if !c.enabled {
      assert r.conn.input == c.input;
      SuffixRefl(c.input);
    } else if ReadToken(c.input).TokenFailed? {
      assert r.conn.input == [];
      SuffixDrop(c.input, |c.input|);
    } else {
      var token := ReadToken(c.input).text;
      var rest := ReadToken(c.input).rest;
      assert r == Interpret(token, c.(input := rest), gen);
      TokenRestIsSuffix(c.input);
      InterpretConsumes(token, c.(input := rest), gen);
      SuffixOfSuffix(c.input, rest, r.conn.input);
    }
  }

  lemma {:induction false} InterpretConsumes(token: seq<byte>, c: Conn, gen: Generation)
    ensures Consumes(c, Interpret(token, c, gen).conn)
    decreases |c.input|, 3, 0
  {
    var t := TypeByte(token);
    var r := Interpret(token, c, gen);
    if (t == RESP_ARRAY || t == RESP_INT || t == RESP_BULK_STRING) && Dimension(token).Some? {
      assert r == Dimensioned(t, Dimension(token).value, c, gen);
      DimensionedConsumes(t, Dimension(token).value, c, gen);
    } else {
      assert r.conn.input == c.input;
      SuffixRefl(c.input);
    }
  }

  lemma {:induction false} DimensionedConsumes(t: byte, n: int, c: Conn, gen: Generation)
    ensures Consumes(c, Dimensioned(t, n, c, gen).conn)
    decreases |c.input|, 2, 0
  {
    var r := Dimensioned(t, n, c, gen);
    if t == RESP_INT || (t != RESP_BULK_STRING && n <= 0) {
      assert r.conn.input == c.input;
      SuffixRefl(c.input);
    } else if t == RESP_BULK_STRING {
      assert r == ReadBulk(n, c);
      BulkConsumes(n, c);
    } else {
      assert r.conn.input == ReadItems(c, gen, n).conn.input;
      ReadItemsConsumes(c, gen, n);
    }
  }

  lemma BulkConsumes(n: int, c: Conn)
    ensures Consumes(c, ReadBulk(n, c).conn)
  {
    if n < 0 || n + 2 > INT_MAX {
      SuffixRefl(c.input);
    } else if |c.input| < n + 2 {
      SuffixDrop(c.input, |c.input|);
    } else {
      SuffixDrop(c.input, n + 2);
    }
  }

  lemma {:induction false} ReadItemsConsumes(c: Conn, gen: Generation, k: nat)
    ensures Consumes(c, ReadItems(c, gen, k).conn)
    decreases |c.input|, 1, k
  {
    if k == 0 {
      assert ReadItems(c, gen, k).conn == c;
      SuffixRefl(c.input);
    } else {
      var first := ReadReply(c, gen);
      var others := ReadItems(first.conn, gen, k - 1);
      assert ReadItems(c, gen, k).conn == others.conn;
      ReadReplyConsumes(c, gen);
      ReadItemsConsumes(first.conn, gen, k - 1);
      SuffixOfSuffix(c.input, first.conn.input, others.conn.input);
    }
  }

  // ---------------------------------------------------------------------------------------
  // Per-kind parsing facts

  /** A dimension printed by `%d` reads back, followed by CR LF and anything. */
  lemma {:induction false} LineOfBytes(h: seq<byte>, more: seq<byte>)
    requires CR !in h
    ensures LineEnd(h + CRLF + more, 0) == Some(|h|)
  {
    var s := h + CRLF + more;
    assert CRLFAt(s, |h|);
    assert forall j :: 0 <= j < |h| ==> !CRLFAt(s, j) by {
      forall j | 0 <= j < |h| ensures !CRLFAt(s, j) {
        assert s[j] == h[j];
      }
    }
  }

  lemma TokenOfLine(h: seq<byte>, more: seq<byte>)
    requires CR !in h && |h| <= TOKEN_LIMIT - 2
    ensures ReadToken(h + CRLF + more) == Token(h, more)
  {
    LineOfBytes(h, more);
    var s := h + CRLF + more;
    assert s[..|h|] == h;
    assert s[|h| + 2..] == more;
  }

  lemma DecimalHasNoCR(n: int)
    ensures CR !in Decimal(n)
  {
    var d := Decimal(n);
    if n < 0 {
      var m := NatDigits(-n);
      assert d == [MINUS] + m;
      assert forall k :: 0 <= k < |d| ==> d[k] != CR by {
        forall k | 0 <= k < |d| ensures d[k] != CR {
          if k > 0 { assert d[k] == m[k - 1]; }
        }
      }
    }
  }

  /** A header line `<type byte><%d>\r\n` yields the type byte and the integer back. */
  lemma HeaderLine(t: byte, v: int, more: seq<byte>)
    requires -0x8000_0000 <= v < 0x8000_0000 && t != CR
    ensures ReadToken([t] + Decimal(v) + CRLF + more) == Token([t] + Decimal(v), more)
    ensures Dimension([t] + Decimal(v)) == Some(v)
  {
    DecimalHasNoCR(v);
    DecimalOfIntIsShort(v);
    var h := [t] + Decimal(v);
    assert CR !in h by {
      forall k | 0 <= k < |h| ensures h[k] != CR {
        if k > 0 { assert h[k] == Decimal(v)[k - 1]; }
      }
    }
    TokenOfLine(h, more);
    assert h[1..] == Decimal(v) + [];
    StrToLOfDecimal(v, []);
  }

  /** A reply whose first line is `h` is decided by the switch on `h`. */
  lemma ReplyOfLine(c: Conn, h: seq<byte>, rest: seq<byte>, gen: Generation)
    requires c.enabled && CR !in h && |h| <= TOKEN_LIMIT - 2
    ensures ReadReply(c.(input := h + CRLF + rest), gen) == Interpret(h, c.(input := rest), gen)
  {
    TokenOfLine(h, rest);
  }

  /** A reply whose first line is `<t><%d>` is decided by the type byte and the integer. */
  lemma ReplyOfHeader(c: Conn, t: byte, v: int, rest: seq<byte>, gen: Generation)
    requires c.enabled && -0x8000_0000 <= v < 0x8000_0000
    requires t == RESP_ARRAY || t == RESP_INT || t == RESP_BULK_STRING
    ensures ReadReply(c.(input := [t] + Decimal(v) + CRLF + rest), gen) == Dimensioned(t, v, c.(input := rest), gen)
  {
    HeaderLine(t, v, rest);
    var h := [t] + Decimal(v);
    assert TypeByte(h) == t;
    assert Interpret(h, c.(input := rest), gen) == Dimensioned(t, v, c.(input := rest), gen);
  }

  /** An array with n > 0 is the n components the loop reads, or NULL if one is missing. */
  lemma DimensionedArray(c: Conn, n: int, gen: Generation)
    requires n > 0
    ensures var rs := ReadItems(c, gen, n);
            Dimensioned(RESP_ARRAY, n, c, gen)
              == if AllPresent(rs.items) then Done(Resp(Array, n, Items(Values(rs.items))), rs.conn)
                 else Reply(None, rs.conn)
  {
  }

  /** `:` sets n to the integer and leaves no payload. */
  lemma ParseInteger(c: Conn, v: int, rest: seq<byte>, gen: Generation)
    requires c.enabled && -0x8000_0000 <= v < 0x8000_0000
    ensures ReadReply(c.(input := [RESP_INT] + Decimal(v) + CRLF + rest), gen)
         == Reply(Some(Resp(Int, v, NoValue)), c.(input := rest, pending := c.pending - 1))
  {
    ReplyOfHeader(c, RESP_INT, v, rest, gen);
    IntDim(c.(input := rest), v, gen);
  }

  lemma IntDim(c: Conn, v: int, gen: Generation)
    ensures Dimensioned(RESP_INT, v, c, gen) == Done(Resp(Int, v, NoValue), c)
  {
  }

  /** `$` with a negative length gives a NULL value. */
  lemma ParseNullBulk(c: Conn, v: int, rest: seq<byte>, gen: Generation)
    requires c.enabled && -0x8000_0000 <= v < 0
    ensures ReadReply(c.(input := [RESP_BULK_STRING] + Decimal(v) + CRLF + rest), gen)
         == Reply(Some(Resp(BulkString, v, NoValue)), c.(input := rest, pending := c.pending - 1))
  {
    ReplyOfHeader(c, RESP_BULK_STRING, v, rest, gen);
    NullBulk(c.(input := rest), v, gen);
  }

  lemma NullBulk(c: Conn, v: int, gen: Generation)
    requires v < 0
    ensures Dimensioned(RESP_BULK_STRING, v, c, gen) == Reply(Some(Resp(BulkString, v, NoValue)), c.(pending := c.pending - 1))
  {
  }

  /** `$n` consumes n + 2 more bytes, whatever the last two are, and keeps the first n; too few
      bytes leave the input exhausted and the reply NULL, with the client still enabled. A length
      of INT_MAX - 1 or INT_MAX, for which n + 2 wraps around, yields NULL and reads nothing. */
  lemma ParseBulk(c: Conn, v: int, body: seq<byte>, gen: Generation)
    requires c.enabled && 0 <= v <= INT_MAX
    ensures var r := ReadReply(c.(input := [RESP_BULK_STRING] + Decimal(v) + CRLF + body), gen);
            if v + 2 > INT_MAX then r == Reply(None, c.(input := body))
            else if |body| >= v + 2 then r == Reply(Some(Resp(BulkString, v, Text(body[..v]))),
                                                    c.(input := body[v + 2..], pending := c.pending - 1))
            else r == Reply(None, c.(input := []))
  {
    ReplyOfHeader(c, RESP_BULK_STRING, v, body, gen);
    BulkDim(c.(input := body), v, gen);
  }

  lemma BulkDim(c: Conn, v: int, gen: Generation)
    requires v >= 0
    ensures Dimensioned(RESP_BULK_STRING, v, c, gen)
         == if v + 2 > INT_MAX then Reply(None, c)
            else if |c.input| >= v + 2 then Done(Resp(BulkString, v, Text(c.input[..v])), c.(input := c.input[v + 2..]))
            else Reply(None, c.(input := []))
  {
    assert Dimensioned(RESP_BULK_STRING, v, c, gen) == ReadBulk(v, c);
  }

  /** `+` and `-` yield the token after the type byte, with n its length. */
  lemma ParseSimple(c: Conn, t: byte, s: seq<byte>, rest: seq<byte>, gen: Generation)
    requires c.enabled && (t == RESP_SIMPLE_STRING || t == RESP_ERROR)
    requires CR !in s && |s| < TOKEN_LIMIT - 2
    ensures ReadReply(c.(input := [t] + s + CRLF + rest), gen)
         == Reply(Some(Resp(if t == RESP_ERROR then Error else SimpleString, |s|, Text(s))),
                  c.(input := rest, pending := c.pending - 1))
  {
    var h := [t] + s;
    assert CR !in h by {
      forall k | 0 <= k < |h| ensures h[k] != CR {
        if k > 0 { assert h[k] == s[k - 1]; }
      }
    }
    assert [t] + s + CRLF + rest == h + CRLF + rest;
    ReplyOfLine(c, h, rest, gen);
    assert h[1..] == s && TypeByte(h) == t;
    InterpretSimple(h, c.(input := rest), gen);
  }

  lemma InterpretSimple(h: seq<byte>, c: Conn, gen: Generation)
    requires TypeByte(h) == RESP_SIMPLE_STRING || TypeByte(h) == RESP_ERROR
    ensures Interpret(h, c, gen)
         == Done(Resp(if TypeByte(h) == RESP_ERROR then Error else SimpleString, |h| - 1, Text(h[1..])), c)
  {
  }

  /** An array header with n <= 0 has no components. */
  lemma ParseEmptyArray(c: Conn, v: int, rest: seq<byte>, gen: Generation)
    requires c.enabled && -0x8000_0000 <= v <= 0
    ensures ReadReply(c.(input := [RESP_ARRAY] + Decimal(v) + CRLF + rest), gen)
         == Reply(Some(Resp(Array, v, NoValue)), c.(input := rest, pending := c.pending - 1))
  {
    ReplyOfHeader(c, RESP_ARRAY, v, rest, gen);
    EmptyArrayDim(c.(input := rest), v, gen);
  }

  lemma EmptyArrayDim(c: Conn, v: int, gen: Generation)
    requires v <= 0
    ensures Dimensioned(RESP_ARRAY, v, c, gen) == Done(Resp(Array, v, NoValue), c)
  {
  }

  /** An array reply with n > 0 reads all n components and is NULL as a whole when any of them
      is missing. */
  lemma ParseArray(c: Conn, v: int, rest: seq<byte>, gen: Generation)
    requires c.enabled && 0 < v < 0x8000_0000
    ensures var r := ReadReply(c.(input := [RESP_ARRAY] + Decimal(v) + CRLF + rest), gen);
            var rs := ReadItems(c.(input := rest), gen, v);
            r.conn.input == rs.conn.input && r.conn.enabled == rs.conn.enabled
            && (r.resp.Some? <==> AllPresent(rs.items))
            && (r.resp.Some? ==> r.resp.value == Resp(Array, v, Items(Values(rs.items))))
  {
    ReplyOfHeader(c, RESP_ARRAY, v, rest, gen);
    DimensionedArray(c.(input := rest), v, gen);
  }

  /** A line that is exactly "OK" becomes the simple string "OK" with n left at 0; any other line
      whose first byte is no type byte is an unexpected response and yields NULL, with the
      client left enabled. */
  lemma ParseUntyped(c: Conn, h: seq<byte>, rest: seq<byte>)
    requires c.enabled && CR !in h && |h| <= TOKEN_LIMIT - 2 && NUL !in h
    requires |h| == 0 || !(h[0] in TYPE_CHARS[..5])
    ensures var r := ReadReply(c.(input := h + CRLF + rest), Current);
            if h == OK then r == Reply(Some(Resp(SimpleString, 0, Text(OK))), c.(input := rest, pending := c.pending - 1))
            else r == Reply(None, c.(input := rest))
  {
    ReplyOfLine(c, h, rest, Current);
    assert TYPE_CHARS[..5] == [RESP_ARRAY, RESP_INT, RESP_SIMPLE_STRING, RESP_ERROR, RESP_BULK_STRING];
    InterpretUntyped(h, c.(input := rest));
    assert CStr(h) == h;
  }

  lemma InterpretUntyped(h: seq<byte>, c: Conn)
    requires TypeByte(h) != RESP_ARRAY && TypeByte(h) != RESP_INT && TypeByte(h) != RESP_BULK_STRING
    requires TypeByte(h) != RESP_SIMPLE_STRING && TypeByte(h) != RESP_ERROR
    ensures Interpret(h, c, Current) == if CStr(h) == OK then Done(Resp(SimpleString, 0, Text(OK)), c) else Reply(None, c)
  {
  }

  /** The older parser as written never accepts a PONG line: the token has its CR LF stripped,
      so it never equals "PONG\r\n", and every reply starting with 'P' is a parse error. */
  lemma LegacyPongRejected(c: Conn)
    requires c.enabled
    requires ReadToken(c.input).Token? && |ReadToken(c.input).text| > 0
    requires ReadToken(c.input).text[0] == RESP_PONG
    ensures ReadReply(c, LEGACY) == Reply(None, c.(input := ReadToken(c.input).rest))
  {
    var token := ReadToken(c.input).text;
    var i := LineEnd(c.input, 0).value;
    var p := Ascii("PONG\r\n");
    assert p[4] == CR && p[5] == LF;
    if CStr(token) == p {
      assert token[4] == CR && token[5] == LF;
      assert CRLFAt(c.input, 4);
      assert false;
    }
    assert ReadReply(c, LEGACY) == Interpret(token, c.(input := ReadToken(c.input).rest), LEGACY);
  }

  /** The older parser with the intended comparison accepts the PONG line. */
  lemma LegacyFixedPongAccepted(c: Conn, rest: seq<byte>)
    requires c.enabled
    ensures ReadReply(c.(input := Ascii("PONG") + CRLF + rest), LEGACY_FIXED)
         == Reply(Some(Resp(Pong, 0, NoValue)), c.(input := rest, pending := c.pending - 1))
  {
    var h := Ascii("PONG");
    assert h == [80, 79, 78, 71];
    ReplyOfLine(c, h, rest, LEGACY_FIXED);
    FixedPongLine(h, c.(input := rest));
  }

  lemma FixedPongLine(h: seq<byte>, c: Conn)
    requires h == [80, 79, 78, 71]
    ensures Interpret(h, c, LEGACY_FIXED) == Done(Resp(Pong, 0, NoValue), c)
  {
    assert CStr(h) == h == LEGACY_FIXED.pong;
  }

  predicate NoPongByte(s: seq<byte>) {
    forall j :: 0 <= j < |s| ==> s[j] != RESP_PONG
  }

  /** On input without a 'P' byte the two generations parse alike. */
  lemma {:induction false} GenerationsAgree(c: Conn, pong: seq<byte>)
    requires NoPongByte(c.input)
    ensures ReadReply(c, Legacy(pong)) == ReadReply(c, Current)
    decreases |c.input|, 0, 0
  {
    if c.enabled && ReadToken(c.input).Token? {
      var token := ReadToken(c.input).text;
      var rest := ReadToken(c.input).rest;
      var c1 := c.(input := rest);
      assert c.input[|c.input| - |rest|..] == rest;
      NoPongInSuffix(c.input, rest);
      assert TypeByte(token) != RESP_PONG by {
        if |token| > 0 { assert token[0] == c.input[0]; }
      }
      InterpretGenerationsAgree(token, c1, pong);
    }
  }

  lemma {:induction false} InterpretGenerationsAgree(token: seq<byte>, c: Conn, pong: seq<byte>)
    requires NoPongByte(c.input) && TypeByte(token) != RESP_PONG
    ensures Interpret(token, c, Legacy(pong)) == Interpret(token, c, Current)
    decreases |c.input|, 3, 0
  {
    var t := TypeByte(token);
    if t == RESP_ARRAY || t == RESP_INT || t == RESP_BULK_STRING {
      var d := Dimension(token);
      if d.Some? {
        DimensionedGenerationsAgree(t, d.value, c, pong);
      }
    }
  }

  lemma {:induction false} DimensionedGenerationsAgree(t: byte, n: int, c: Conn, pong: seq<byte>)
    requires NoPongByte(c.input)
    ensures Dimensioned(t, n, c, Legacy(pong)) == Dimensioned(t, n, c, Current)
    decreases |c.input|, 2, 0
  {
    if t != RESP_INT && t != RESP_BULK_STRING && n > 0 {
      ItemsGenerationsAgree(c, pong, n);
    }
  }

  lemma {:induction false} ItemsGenerationsAgree(c: Conn, pong: seq<byte>, k: nat)
    requires NoPongByte(c.input)
    ensures ReadItems(c, Legacy(pong), k) == ReadItems(c, Current, k)
    decreases |c.input|, 1, k
  {
    if k > 0 {
      GenerationsAgree(c, pong);
      var first := ReadReply(c, Current);
      ReadReplyConsumes(c, Current);
      NoPongInSuffix(c.input, first.conn.input);
      ItemsGenerationsAgree(first.conn, pong, k - 1);
    }
  }

  lemma NoPongInSuffix(s: seq<byte>, t: seq<byte>)
    requires NoPongByte(s)
    requires |t| <= |s| && t == s[|s| - |t|..]
    ensures NoPongByte(t)
  {
    forall j | 0 <= j < |t| ensures t[j] != RESP_PONG {
      assert t[j] == s[|s| - |t| + j];
    }
  }
}
