/** The RESP2 wire form of a reply, and the round trip through the parser: every reply of the
    five RESP2 kinds whose strings fit the token reader is read back exactly from its wire
    bytes, with one pending request consumed per reply at every depth. A request frame read as
    a reply is the array of its bulk-string arguments. */
module ReplyWire {
  import opened CStrings
  import opened Header
  import opened Resp
  import opened Wire

  predicate IsInt32(v: int) {
    -0x8000_0000 <= v < 0x8000_0000
  }

  /** A reply as the RESP2 server sends it: integers and dimensions fit an `int`, simple strings
      and errors are single lines short enough for the token buffer, bulk strings and arrays
      carry exactly `n` bytes or components (a bulk string's n + 2 fitting an `int`), and a negative (or, for arrays, zero) `n` has no
      payload. */
  predicate Canonical(r: Resp)
    decreases r
  {
    IsInt32(r.n) &&
    match r.typ
    case Int => r.value.NoValue?
    case SimpleString => r.value.Text? && r.n == |r.value.bytes| && CR !in r.value.bytes && r.n < TOKEN_LIMIT - 2
    case Error => r.value.Text? && r.n == |r.value.bytes| && CR !in r.value.bytes && r.n < TOKEN_LIMIT - 2
    case BulkString =>
      (r.n < 0 && r.value.NoValue?) || (r.value.Text? && r.n == |r.value.bytes| && r.n + 2 <= INT_MAX)
    case Array =>
      (r.n <= 0 && r.value.NoValue?)
      || (r.value.Items? && 0 < r.n == |r.value.items|
          && forall i :: 0 <= i < |r.value.items| ==> Canonical(r.value.items[i]))
    case _ => false
  }

  /** The bytes a server sends for a reply. */
  function ToWire(r: Resp): (w: seq<byte>)
    decreases r
  {
    match r.typ
    case Int => [RESP_INT] + Decimal(r.n) + CRLF
    case SimpleString => [RESP_SIMPLE_STRING] + Str(r) + CRLF
    case Error => [RESP_ERROR] + Str(r) + CRLF
    case BulkString =>
      if r.value.Text? then [RESP_BULK_STRING] + Decimal(r.n) + CRLF + r.value.bytes + CRLF
      else [RESP_BULK_STRING] + Decimal(r.n) + CRLF
    case _ =>
      if r.value.Items? then
        var cs := r.value.items;
        [RESP_ARRAY] + Decimal(r.n) + CRLF + Join(seq(|cs|, i requires 0 <= i < |cs| => ToWire(cs[i])))
      else [RESP_ARRAY] + Decimal(r.n) + CRLF
  }

  function Str(r: Resp): seq<byte> {
    if r.value.Text? then r.value.bytes else []
  }

  function Sum(s: seq<int>): int {
    if |s| == 0 then 0 else s[0] + Sum(s[1..])
  }

  /** The number of replies a reply counts as: itself and, for an array, all its components. */
  function ReplyCount(r: Resp): (k: int)
    decreases r
  {
    if r.value.Items? then
      var cs := r.value.items;
      1 + Sum(seq(|cs|, i requires 0 <= i < |cs| => ReplyCount(cs[i])))
    else 1
  }

  function Wires(cs: seq<Resp>): (ws: seq<seq<byte>>)
    ensures |ws| == |cs| && forall i :: 0 <= i < |cs| ==> ws[i] == ToWire(cs[i])
  {
    seq(|cs|, i requires 0 <= i < |cs| => ToWire(cs[i]))
  }

  function Counts(cs: seq<Resp>): (ks: seq<int>)
    ensures |ks| == |cs| && forall i :: 0 <= i < |cs| ==> ks[i] == ReplyCount(cs[i])
  {
    seq(|cs|, i requires 0 <= i < |cs| => ReplyCount(cs[i]))
  }

  function Presents(cs: seq<Resp>): (os: seq<Option<Resp>>)
    ensures |os| == |cs| && forall i :: 0 <= i < |cs| ==> os[i] == Some(cs[i])
  {
    seq(|cs|, i requires 0 <= i < |cs| => Some(cs[i]))
  }

  lemma ToWireNonEmpty(r: Resp)
    ensures |ToWire(r)| >= 3
  {
  }

  lemma ArrayWire(r: Resp)
    requires r.typ == Array && r.value.Items?
    ensures ToWire(r) == [RESP_ARRAY] + Decimal(r.n) + CRLF + Join(Wires(r.value.items))
    ensures ReplyCount(r) == 1 + Sum(Counts(r.value.items))
  {
  }

  lemma ArrayWireThen(r: Resp, more: seq<byte>)
    requires r.typ == Array && r.value.Items?
    ensures ToWire(r) + more == [RESP_ARRAY] + Decimal(r.n) + CRLF + (Join(Wires(r.value.items)) + more)
    ensures |Join(Wires(r.value.items))| < |ToWire(r)|
    ensures ReplyCount(r) == 1 + Sum(Counts(r.value.items))
  {
    ArrayWire(r);
    var h := [RESP_ARRAY] + Decimal(r.n) + CRLF;
    var j := Join(Wires(r.value.items));
    assert ToWire(r) == h + j;
    assert (h + j) + more == h + (j + more);
  }

  /** The parser reads a canonical reply back from its wire bytes, whatever follows them, and
      counts one reply for it and for each of its components. */
  lemma {:induction false} ParseOfWire(c: Conn, r: Resp, more: seq<byte>, gen: Generation)
    requires c.enabled && Canonical(r)
    ensures ReadReply(c.(input := ToWire(r) + more), gen)
         == Reply(Some(r), c.(input := more, pending := c.pending - ReplyCount(r)))
    decreases |ToWire(r)|, 3, 0
  {
    match r.typ
    case Int =>
      ParseInteger(c, r.n, more, gen);
    case SimpleString =>
      ParseSimple(c, RESP_SIMPLE_STRING, r.value.bytes, more, gen);
    case Error =>
      ParseSimple(c, RESP_ERROR, r.value.bytes, more, gen);
    case BulkString =>
      if r.value.Text? {
        ParseBulkOfWire(c, r, more, gen);
      } else {
        ParseNullBulk(c, r.n, more, gen);
      }
    case Array =>
      if r.value.Items? {
        ParseArrayOfWire(c, r, more, gen);
      } else {
        ParseEmptyArray(c, r.n, more, gen);
      }
  }

  lemma ParseBulkOfWire(c: Conn, r: Resp, more: seq<byte>, gen: Generation)
    requires c.enabled && Canonical(r) && r.typ == BulkString && r.value.Text?
    ensures ReadReply(c.(input := ToWire(r) + more), gen)
         == Reply(Some(r), c.(input := more, pending := c.pending - ReplyCount(r)))
  {
    var p := r.value.bytes;
    var h := [RESP_BULK_STRING] + Decimal(r.n) + CRLF;
    assert ToWire(r) == h + p + CRLF;
    assert ToWire(r) + more == h + (p + CRLF + more);
    ParseBulk(c, r.n, p + CRLF + more, gen);
    assert (p + CRLF + more)[..r.n] == p;
    assert (p + CRLF + more)[r.n + 2..] == more;
  }

  lemma {:induction false} ParseArrayOfWire(c: Conn, r: Resp, more: seq<byte>, gen: Generation)
    requires c.enabled && Canonical(r) && r.typ == Array && r.value.Items?
    ensures ReadReply(c.(input := ToWire(r) + more), gen)
         == Reply(Some(r), c.(input := more, pending := c.pending - ReplyCount(r)))
    decreases |ToWire(r)|, 2, 0
  {
    var cs := r.value.items;
    var body := Join(Wires(cs)) + more;
    ArrayWireThen(r, more);
    var cb := c.(input := body);
    ReplyOfHeader(c, RESP_ARRAY, r.n, body, gen);
    ParseAllItemsOfWire(cb, cs, more, gen, |ToWire(r)|);
    var after := cb.(input := more, pending := cb.pending - Sum(Counts(cs)));
    ArrayOfItems(cb, gen, cs, after);
  }

  /** The component loop reads the components back from their concatenated wire bytes.
      `bound` is the length of the enclosing array's wire form. */
  lemma {:induction false} ParseAllItemsOfWire(c: Conn, cs: seq<Resp>, more: seq<byte>, gen: Generation, bound: nat)
    requires c.enabled
    requires forall i :: 0 <= i < |cs| ==> Canonical(cs[i])
    requires |Join(Wires(cs))| < bound
    requires c.input == Join(Wires(cs)) + more
    ensures ReadItems(c, gen, |cs|) == Replies(Presents(cs), c.(input := more, pending := c.pending - Sum(Counts(cs))))
    decreases bound, 1, |cs|, 1
  {
    if |cs| == 0 {
      assert Wires(cs) == [] && Presents(cs) == [] && Counts(cs) == [];
      NoItems(c, gen);
    } else {
      ParseItemsStep(c, cs, more, gen, bound);
    }
  }

  /** The first component read back, then the others by ParseAllItemsOfWire. */
  lemma {:induction false} ParseItemsStep(c: Conn, cs: seq<Resp>, more: seq<byte>, gen: Generation, bound: nat)
    requires c.enabled && 0 < |cs|
    requires forall i :: 0 <= i < |cs| ==> Canonical(cs[i])
    requires |Join(Wires(cs))| < bound
    requires c.input == Join(Wires(cs)) + more
    ensures ReadItems(c, gen, |cs|) == Replies(Presents(cs), c.(input := more, pending := c.pending - Sum(Counts(cs))))
    decreases bound, 1, |cs|, 0
  {
    var c1 := NextItem(c, cs, more, gen, bound);
    CanonicalTail(cs);
    ParseAllItemsOfWire(c1, cs[1..], more, gen, bound);
    ConsParts(c, cs, c1, more);
    ItemsJoin(c, gen, |cs|, |cs[1..]|, cs[0], c1, Presents(cs), Presents(cs[1..]),
              c.(input := more, pending := c.pending - Sum(Counts(cs))),
              c1.(input := more, pending := c1.pending - Sum(Counts(cs[1..]))));
  }

  lemma CanonicalTail(cs: seq<Resp>)
    requires 0 < |cs|
    requires forall i :: 0 <= i < |cs| ==> Canonical(cs[i])
    ensures forall i :: 0 <= i < |cs[1..]| ==> Canonical(cs[1..][i])
  {
    forall i | 0 <= i < |cs[1..]| ensures Canonical(cs[1..][i]) {
      assert cs[1..][i] == cs[i + 1];
    }
  }

  /** The first component read back from the front of the components' wire bytes. */
  lemma {:induction false} NextItem(c: Conn, cs: seq<Resp>, more: seq<byte>, gen: Generation, bound: nat)
    returns (c1: Conn)
    requires c.enabled && 0 < |cs| && Canonical(cs[0])
    requires |Join(Wires(cs))| < bound
    requires c.input == Join(Wires(cs)) + more
    ensures c1.input == Join(Wires(cs[1..])) + more
    ensures c1 == c.(input := c1.input, pending := c.pending - ReplyCount(cs[0]))
    ensures c1.enabled && |Join(Wires(cs[1..]))| < bound
    ensures ReadReply(c, gen) == Reply(Some(cs[0]), c1)
    decreases bound, 0, 1
  {
    var rest := ItemWire(c, cs, more, bound);
    assert c.(input := ToWire(cs[0]) + rest) == c;
    ParseOfWireBounded(c, cs[0], rest, gen, bound);
    c1 := c.(input := rest, pending := c.pending - ReplyCount(cs[0]));
  }

  /** Splits the wire bytes of the components into the first component's and the rest. */
  lemma ItemWire(c: Conn, cs: seq<Resp>, more: seq<byte>, bound: nat) returns (rest: seq<byte>)
    requires 0 < |cs|
    requires |Join(Wires(cs))| < bound
    requires c.input == Join(Wires(cs)) + more
    ensures rest == Join(Wires(cs[1..])) + more
    ensures c.input == ToWire(cs[0]) + rest
    ensures |ToWire(cs[0])| < bound && |Join(Wires(cs[1..]))| < bound
  {
    WiresCons(cs);
    rest := Join(Wires(cs[1..])) + more;
    ToWireNonEmpty(cs[0]);
  }

  /** The component lists split at their first element. */
  lemma WiresCons(cs: seq<Resp>)
    requires 0 < |cs|
    ensures Join(Wires(cs)) == ToWire(cs[0]) + Join(Wires(cs[1..]))
    ensures Presents(cs) == [Some(cs[0])] + Presents(cs[1..])
    ensures Sum(Counts(cs)) == ReplyCount(cs[0]) + Sum(Counts(cs[1..]))
  {
    assert Wires(cs)[1..] == Wires(cs[1..]);
    assert Counts(cs)[1..] == Counts(cs[1..]);
  }

  /** The bookkeeping of one item step, apart from the parser: lengths, items and the final client. */
  lemma ConsParts(c: Conn, cs: seq<Resp>, c1: Conn, more: seq<byte>)
    requires 0 < |cs|
    requires c1 == c.(input := c1.input, pending := c.pending - ReplyCount(cs[0]))
    ensures |cs| == |cs[1..]| + 1
    ensures Presents(cs) == [Some(cs[0])] + Presents(cs[1..])
    ensures c.(input := more, pending := c.pending - Sum(Counts(cs)))
         == c1.(input := more, pending := c1.pending - Sum(Counts(cs[1..])))
  {
    WiresCons(cs);
    PendingAfter(c, c1, more, ReplyCount(cs[0]), Sum(Counts(cs[1..])));
  }

  /** `ItemsCons` with every term a variable, so that the caller only matches names. */
  lemma ItemsJoin(c: Conn, gen: Generation, k: nat, k1: nat, r0: Resp, c1: Conn,
                  items: seq<Option<Resp>>, items1: seq<Option<Resp>>, after: Conn, after1: Conn)
    requires k == k1 + 1 && items == [Some(r0)] + items1 && after == after1
    requires ReadReply(c, gen) == Reply(Some(r0), c1)
    requires ReadItems(c1, gen, k1) == Replies(items1, after1)
    ensures ReadItems(c, gen, k) == Replies(items, after)
  {
    ItemsCons(c, gen, k, r0, c1, items1, after);
  }

  /** Counting `k0` replies and then `rest` more is counting `k0 + rest`. */
  lemma PendingAfter(c: Conn, c1: Conn, more: seq<byte>, k0: int, rest: int)
    requires c1 == c.(input := c1.input, pending := c.pending - k0)
    ensures c1.(input := more, pending := c1.pending - rest) == c.(input := more, pending := c.pending - (k0 + rest))
  {
  }

  /** An array header followed by components that all parse is the array of those components. */
  lemma ArrayOfItems(c: Conn, gen: Generation, cs: seq<Resp>, after: Conn)
    requires 0 < |cs|
    requires ReadItems(c, gen, |cs|) == Replies(Presents(cs), after)
    ensures Dimensioned(RESP_ARRAY, |cs|, c, gen) == Done(Resp(Array, |cs|, Items(cs)), after)
  {
    DimensionedArray(c, |cs|, gen);
    assert AllPresent(Presents(cs));
    assert Values(Presents(cs)) == cs;
  }

  lemma NoItems(c: Conn, gen: Generation)
    ensures ReadItems(c, gen, 0) == Replies([], c.(input := c.input, pending := c.pending - 0))
  {
  }

  /** One turn of the component loop, from the first reply and the rest. */
  lemma ItemsCons(c: Conn, gen: Generation, k: nat, r0: Resp, c1: Conn, items: seq<Option<Resp>>, after: Conn)
    requires k > 0
    requires ReadReply(c, gen) == Reply(Some(r0), c1)
    requires ReadItems(c1, gen, k - 1) == Replies(items, after)
    ensures ReadItems(c, gen, k) == Replies([Some(r0)] + items, after)
  {
  }

  lemma {:induction false} ParseOfWireBounded(c: Conn, r: Resp, more: seq<byte>, gen: Generation, bound: nat)
    requires c.enabled && Canonical(r) && |ToWire(r)| < bound
    ensures ReadReply(c.(input := ToWire(r) + more), gen)
         == Reply(Some(r), c.(input := more, pending := c.pending - ReplyCount(r)))
    decreases bound, 0, 0
  {
    ParseOfWire(c, r, more, gen);
  }


  /** The reply a request frame parses as: the array of its arguments as bulk strings. */
  function RequestReply(ps: seq<seq<byte>>): (r: Resp)
    ensures r.typ == Array && r.n == |ps|
  {
    Resp(Array, |ps|, Items(seq(|ps|, i requires 0 <= i < |ps| => Resp(BulkString, |ps[i]|, Text(ps[i])))))
  }

  function BulkSeq(ps: seq<seq<byte>>): (bs: seq<seq<byte>>)
    ensures |bs| == |ps| && forall i :: 0 <= i < |ps| ==> bs[i] == Bulk(ps[i])
  {
    seq(|ps|, i requires 0 <= i < |ps| => Bulk(ps[i]))
  }

  lemma {:induction false} JoinBulks(ps: seq<seq<byte>>)
    ensures Join(BulkSeq(ps)) == Bulks(ps)
    decreases |ps|
  {
    if |ps| > 0 {
      var init := ps[..|ps| - 1];
      assert BulkSeq(ps) == BulkSeq(init) + [Bulk(ps[|ps| - 1])];
      JoinAppend(BulkSeq(init), Bulk(ps[|ps| - 1]));
      JoinBulks(init);
    }
  }

  lemma {:induction false} SumOfOnes(ks: seq<int>)
    requires forall i :: 0 <= i < |ks| ==> ks[i] == 1
    ensures Sum(ks) == |ks|
    decreases |ks|
  {
    if |ks| > 0 {
      SumOfOnes(ks[1..]);
    }
  }

  lemma RequestReplyWire(ps: seq<seq<byte>>)
    requires 0 < |ps| < 0x8000_0000
    requires ArgsFit(ps)
    ensures Canonical(RequestReply(ps))
    ensures ToWire(RequestReply(ps)) == Frame(|ps|, ps)
    ensures ReplyCount(RequestReply(ps)) == |ps| + 1
  {
    var r := RequestReply(ps);
    var cs := r.value.items;
    ArrayWire(r);
    assert Wires(cs) == BulkSeq(ps);
    JoinBulks(ps);
    SumOfOnes(Counts(cs));
  }

  /** A request frame of `n` arguments, read by the reply parser, is the array of its arguments
      as bulk strings, counted as n + 1 replies. */
  lemma ParseOfRequest(c: Conn, ps: seq<seq<byte>>, more: seq<byte>, gen: Generation)
    requires c.enabled && 0 < |ps| < 0x8000_0000
    requires ArgsFit(ps)
    ensures ReadReply(c.(input := Frame(|ps|, ps) + more), gen)
         == Reply(Some(RequestReply(ps)), c.(input := more, pending := c.pending - |ps| - 1))
  {
    RequestReplyWire(ps);
    ParseOfWire(c, RequestReply(ps), more, gen);
  }
}
