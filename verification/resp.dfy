/** The RESP value algebra of `resp.c`: a reply is a type tag, an integer `n` and a payload
    that is absent (a NULL `value`), string bytes, a list of component replies or a list of
    key/value entries. String payloads hold the buffer contents before the NUL terminator
    that the parser and redisxCopyOfRESP write after them; redisxAppendRESP as written
    leaves none (AppendBufferAsWritten), and the model follows the version that does. */
module Resp {
  import opened CStrings
  import opened Header

  /** resp_type: the five RESP2 kinds, the older PONG kind and the RESP3 kinds. */
  datatype RespType =
    | Array | Int | SimpleString | Error | BulkString | Pong
    | Null | Boolean | Double | BigNumber | BlobError | Verbatim | Set | Push | Map | Attribute

  datatype Payload =
    | NoValue
    | Text(bytes: seq<byte>)
    | Items(items: seq<Resp>)
    | Pairs(entries: seq<MapEntry>)
    | Number(bits: seq<byte>)

  datatype Resp = Resp(typ: RespType, n: int, value: Payload)

  /** RedisMap: one key/value entry of a map-type reply. */
  datatype MapEntry = MapEntry(key: Resp, value: Resp)

  /** The type byte of the kinds `redisx.h` defines; the RESP3 bytes are not part of this model. */
  function TypeChar(t: RespType): (r: Option<byte>)
    ensures r.Some? <==> t in {Array, Int, SimpleString, Error, BulkString, Pong}
    ensures r.Some? ==> r.value in TYPE_CHARS
  {
    match t
    case Array => Some(RESP_ARRAY)
    case Int => Some(RESP_INT)
    case SimpleString => Some(RESP_SIMPLE_STRING)
    case Error => Some(RESP_ERROR)
    case BulkString => Some(RESP_BULK_STRING)
    case Pong => Some(RESP_PONG)
    case _ => None
  }

  /** The kind a type byte stands for, if it is one of the header's characters. */
  function TypeOfChar(c: byte): (r: Option<RespType>)
    ensures r.Some? <==> c in TYPE_CHARS
  {
    if c == RESP_ARRAY then Some(Array)
    else if c == RESP_INT then Some(Int)
    else if c == RESP_SIMPLE_STRING then Some(SimpleString)
    else if c == RESP_ERROR then Some(Error)
    else if c == RESP_BULK_STRING then Some(BulkString)
    else if c == RESP_PONG then Some(Pong)
    else None
  }

  /** The type bytes and the kinds that have one correspond one to one. */
  lemma TypeCharsRoundTrip(t: RespType, c: byte)
    ensures TypeChar(t) == Some(c) <==> TypeOfChar(c) == Some(t)
  {
  }

  predicate IsScalarType(t: RespType) {
    t == Int || t == Boolean || t == Double || t == Null
  }

  predicate IsStringType(t: RespType) {
    t == SimpleString || t == Error || t == BulkString || t == BlobError || t == Verbatim
    || t == BigNumber
  }

  predicate IsArrayType(t: RespType) {
    t == Array || t == Set || t == Push
  }

  predicate IsMapType(t: RespType) {
    t == Map || t == Attribute
  }

  /** redisxIsScalarType, redisxIsStringType, redisxIsArrayType, redisxIsMapType: FALSE for NULL. */
  predicate IsScalar(r: Option<Resp>) {
    r.Some? && IsScalarType(r.value.typ)
  }

  predicate IsString(r: Option<Resp>) {
    r.Some? && IsStringType(r.value.typ)
  }

  predicate IsArray(r: Option<Resp>) {
    r.Some? && IsArrayType(r.value.typ)
  }

  predicate IsMap(r: Option<Resp>) {
    r.Some? && IsMapType(r.value.typ)
  }

  /** redisxHasComponents */
  predicate HasComponents(r: Option<Resp>) {
    r.Some? && r.value.n > 0 && (IsArray(r) || IsMap(r))
  }

  /** No type is in two classes, every class is FALSE for NULL, and only the PONG kind is in
      none of them. */
  lemma ClassifiersPartition(t: RespType)
    ensures !(IsScalarType(t) && IsStringType(t)) && !(IsScalarType(t) && IsArrayType(t))
    ensures !(IsScalarType(t) && IsMapType(t)) && !(IsStringType(t) && IsArrayType(t))
    ensures !(IsStringType(t) && IsMapType(t)) && !(IsArrayType(t) && IsMapType(t))
    ensures IsScalarType(t) || IsStringType(t) || IsArrayType(t) || IsMapType(t) <==> t != Pong
    ensures !IsScalar(None) && !IsString(None) && !IsArray(None) && !IsMap(None)
    ensures !HasComponents(None)
  {
  }

  /** Payloads agree with the type and `n`: string bytes extend at least `n` bytes, component
      lists hold exactly `n` well-formed replies. A NULL payload is allowed for every type. */
  predicate WellFormed(r: Resp)
    decreases r
  {
    match r.value
    case NoValue => true
    case Text(b) => IsStringType(r.typ) && 0 <= r.n <= |b|
    case Items(cs) =>
      IsArrayType(r.typ) && r.n == |cs| && forall i :: 0 <= i < |cs| ==> WellFormed(cs[i])
    case Pairs(es) =>
      IsMapType(r.typ) && r.n == |es|
      && forall i :: 0 <= i < |es| ==> WellFormed(es[i].key) && WellFormed(es[i].value)
    case Number(_) => r.typ == Double
  }

  /** Every string payload, at every depth, is exactly `n` bytes long. */
  predicate Exact(r: Resp)
    decreases r
  {
    match r.value
    case Text(b) => |b| == r.n
    case Items(cs) => forall i :: 0 <= i < |cs| ==> Exact(cs[i])
    case Pairs(es) => forall i :: 0 <= i < |es| ==> Exact(es[i].key) && Exact(es[i].value)
    case _ => true
  }

  /** The number of components or entries of a container payload. */
  function ComponentCount(p: Payload): (k: nat) {
    match p
    case Items(cs) => |cs|
    case Pairs(es) => |es|
    case _ => 0
  }

  /** For a well-formed reply that holds a payload, redisxHasComponents says exactly that the
      payload is a non-empty component or entry list. */
  lemma HasComponentsMeansNonEmpty(r: Resp)
    requires WellFormed(r) && !r.value.NoValue?
    ensures HasComponents(Some(r)) <==> ComponentCount(r.value) > 0
  {
  }

  /** XType of the xchange library, as far as `resp2xType` uses it. */
  datatype XType = XUnknown | XBoolean | XLong | XDouble | XString | XField | XStruct

  /** resp2xType */
  function ToXType(t: RespType): (x: XType) {
    match t
    case Null => XUnknown
    case Boolean => XBoolean
    case Int => XLong
    case Double => XDouble
    case SimpleString => XString
    case BulkString => XString
    case Error => XString
    case BlobError => XString
    case Verbatim => XString
    case BigNumber => XString
    case Array => XField
    case Set => XField
    case Push => XField
    case Map => XStruct
    case Attribute => XStruct
    case Pong => XUnknown
  }

  /** The xchange type follows the classifiers: strings become X_STRING, arrays X_FIELD, maps
      X_STRUCT, and the scalars their own types. */
  lemma ToXTypeAgreesWithClassifiers(t: RespType)
    ensures ToXType(t) == XString <==> IsStringType(t)
    ensures ToXType(t) == XField <==> IsArrayType(t)
    ensures ToXType(t) == XStruct <==> IsMapType(t)
    ensures IsScalarType(t) ==> ToXType(t) in {XUnknown, XBoolean, XLong, XDouble}
    ensures ToXType(t) == XLong <==> t == Int
    ensures ToXType(t) == XBoolean <==> t == Boolean
    ensures ToXType(t) == XUnknown <==> t == Null || t == Pong
  {
  }

  /** `n` of these kinds is a length or count, so a negative one is an error. */
  predicate IsSized(t: RespType) {
    t != Int && t != Null
  }

  predicate BooleanMismatch(r: Resp, expectedSize: int) {
    r.typ == Boolean && r.n != (if expectedSize != 0 then 1 else 0)
  }

  predicate TypeMismatch(r: Resp, expectedType: Option<RespType>) {
    expectedType.Some? && r.typ != expectedType.value
  }

  predicate SizeMismatch(r: Resp, expectedSize: int) {
    expectedSize > 0 && r.n != expectedSize
  }

  /** redisxCheckRESP (and redisxCheckDestroyRESP, which returns the same status). The tests run
      in a fixed order and the first failing one decides the status. `moved` and `migrating`
      stand for the cluster redirection predicates, whose code is not part of this model. */
  function Check(resp: Option<Resp>, expectedType: Option<RespType>, expectedSize: int,
                 moved: Resp -> bool, migrating: Resp -> bool): (s: Status)
    ensures s == NullArg <==> resp.None?
    ensures s == Moved <==> resp.Some? && moved(resp.value)
    ensures s == Migrating <==> resp.Some? && !moved(resp.value) && migrating(resp.value)
    ensures s == Failure <==>
      resp.Some? && !moved(resp.value) && !migrating(resp.value)
      && (BooleanMismatch(resp.value, expectedSize) || (IsSized(resp.value.typ) && resp.value.n < 0))
    ensures s == RedisNull <==>
      resp.Some? && !moved(resp.value) && !migrating(resp.value)
      && !BooleanMismatch(resp.value, expectedSize) && IsSized(resp.value.typ)
      && resp.value.n > 0 && resp.value.value.NoValue?
    ensures s == Success <==>
      resp.Some? && !moved(resp.value) && !migrating(resp.value)
      && !BooleanMismatch(resp.value, expectedSize)
      && (IsSized(resp.value.typ) ==> resp.value.n >= 0 && (resp.value.value.NoValue? ==> resp.value.n == 0))
      && !TypeMismatch(resp.value, expectedType) && !SizeMismatch(resp.value, expectedSize)
    ensures s in {NullArg, Moved, Migrating, Failure, RedisNull, UnexpectedResp, Success}
  {
    if resp.None? then NullArg
    else
      var r := resp.value;
      if moved(r) then Moved
      else if migrating(r) then Migrating
      else if BooleanMismatch(r, expectedSize) then Failure
      else if IsSized(r.typ) && r.n < 0 then Failure
      else if IsSized(r.typ) && r.value.NoValue? && r.n != 0 then RedisNull
      else if TypeMismatch(r, expectedType) then UnexpectedResp
      else if SizeMismatch(r, expectedSize) then UnexpectedResp
      else Success
  }

  /** The older redisxCheckRESP of `redisx.c`: NULL is a parse error, a negative `n` of any
      non-integer reply is returned as the status itself, and a size mismatch has its own code. */
  function CheckOld(resp: Option<Resp>, expectedType: Option<RespType>, expectedSize: int): (s: Status)
    ensures s == ParseError <==> resp.None?
    ensures resp.Some? && resp.value.typ != Int && resp.value.n < 0 ==> s == StatusOf(resp.value.n)
    ensures s.Code? ==> resp.Some? && resp.value.typ != Int && s.value == resp.value.n < 0
    ensures s == RedisNull <==>
      resp.Some? && resp.value.typ != Int
      && (resp.value.n == REDIS_NULL || (resp.value.n > 0 && resp.value.value.NoValue?))
    ensures s == UnexpectedArraySize ==> resp.Some? && (SizeMismatch(resp.value, expectedSize) || resp.value.n == REDIS_UNEXPECTED_ARRAY_SIZE)
    ensures s == Success <==>
      resp.Some? && (resp.value.typ != Int ==> resp.value.n >= 0 && (resp.value.value.NoValue? ==> resp.value.n == 0))
      && !TypeMismatch(resp.value, expectedType) && !SizeMismatch(resp.value, expectedSize)
  {
    if resp.None? then ParseError
    else
      var r := resp.value;
      if r.typ != Int && r.n < 0 then StatusOf(r.n)
      else if r.typ != Int && r.value.NoValue? && r.n != 0 then RedisNull
      else if TypeMismatch(r, expectedType) then UnexpectedResp
      else if SizeMismatch(r, expectedSize) then UnexpectedArraySize
      else Success
  }

  /** On a RESP2 reply (any kind but the RESP3 null and boolean) that is not redirected, the two
      generations accept the same replies; where the older one passes a negative `n` through as
      its status, the newer one reports X_FAILURE, and where the older one reports a size mismatch, the
      newer one reports an unexpected response. */
  lemma CheckGenerationsAgree(r: Resp, expectedType: Option<RespType>, expectedSize: int,
                              moved: Resp -> bool, migrating: Resp -> bool)
    requires r.typ != Null && r.typ != Boolean
    requires !moved(r) && !migrating(r)
    ensures Check(Some(r), expectedType, expectedSize, moved, migrating) == Success
        <==> CheckOld(Some(r), expectedType, expectedSize) == Success
    ensures Check(Some(r), expectedType, expectedSize, moved, migrating) == Failure
        <==> r.typ != Int && r.n < 0
    ensures r.typ != Int && r.n < 0 ==> CheckOld(Some(r), expectedType, expectedSize) == StatusOf(r.n)
    ensures CheckOld(Some(r), expectedType, expectedSize) == UnexpectedArraySize && r.n >= 0
        ==> Check(Some(r), expectedType, expectedSize, moved, migrating) == UnexpectedResp
  {
  }

  /** memcmp(a->value, b->value, n) == 0. For string payloads that compares the first `n`
      bytes. For component and entry lists it compares the first `n` bytes of the arrays of
      pointers or RedisMap structs, which depend on where the components are stored, not on
      their values; `sameMemory` stands for that comparison, and for the one of a double's
      storage. */
  predicate SamePayload(a: Payload, b: Payload, n: int, sameMemory: (Payload, Payload, int) -> bool)
    requires a.Text? && b.Text? ==> 0 <= n <= |a.bytes| && n <= |b.bytes|
  {
    if a.Text? && b.Text? then a.bytes[..n] == b.bytes[..n] else sameMemory(a, b, n)
  }

  /** redisxIsEqualRESP. `identical` says the two pointers are the same, which the model cannot
      see in the values. */
  function IsEqual(a: Option<Resp>, b: Option<Resp>, identical: bool,
                   sameMemory: (Payload, Payload, int) -> bool): (r: bool)
    requires identical ==> a == b
    requires a.Some? ==> WellFormed(a.value)
    requires b.Some? ==> WellFormed(b.value)
    ensures identical ==> r
    ensures r && a.Some? ==> b.Some? && a.value.typ == b.value.typ && a.value.n == b.value.n
    ensures r && a.None? ==> b.None?
    ensures r && !identical && a.Some? && a.value.value.Text? ==>
      (b.value.value.Text? && a.value.value.bytes[..a.value.n] == b.value.value.bytes[..b.value.n])
    ensures !identical && a.Some? && b.Some? && a.value.typ == b.value.typ && a.value.n == b.value.n
            && !a.value.value.NoValue? && !b.value.value.NoValue? && !a.value.value.Text?
            ==> (r <==> sameMemory(a.value.value, b.value.value, a.value.n))
    ensures a.Some? && b.Some? && a.value.value.NoValue? != b.value.value.NoValue? ==> !r
  {
    if identical || (a.None? && b.None?) then true
    else if a.None? || b.None? then false
    else
      var x := a.value;
      var y := b.value;
      if x.typ != y.typ then false
      else if x.n != y.n then false
      else if x.value.NoValue? then y.value.NoValue?
      else if y.value.NoValue? then false
      else SamePayload(x.value, y.value, x.n, sameMemory)
  }

  /** A reply equals itself; it also equals a distinct reply holding the same value unless it
      holds components, entries or a double, whose comparison is one of storage. */
  lemma IsEqualReflexive(a: Option<Resp>, sameMemory: (Payload, Payload, int) -> bool)
    requires a.Some? ==> WellFormed(a.value)
    ensures IsEqual(a, a, true, sameMemory)
    ensures a.None? || a.value.value.NoValue? || a.value.value.Text? ==> IsEqual(a, a, false, sameMemory)
  {
  }

  /** redisxIsEqualRESP is symmetric, memcmp() being symmetric. */
  lemma IsEqualSymmetric(a: Option<Resp>, b: Option<Resp>, identical: bool,
                         sameMemory: (Payload, Payload, int) -> bool)
    requires identical ==> a == b
    requires a.Some? ==> WellFormed(a.value)
    requires b.Some? ==> WellFormed(b.value)
    requires forall p, q, n :: sameMemory(p, q, n) == sameMemory(q, p, n)
    ensures IsEqual(a, b, identical, sameMemory) == IsEqual(b, a, identical, sameMemory)
  {
    if !identical && a.Some? && b.Some? {
      assert sameMemory(a.value.value, b.value.value, a.value.n) == sameMemory(b.value.value, a.value.value, a.value.n);
    }
  }

  /** redisxCopyOfRESP on a non-NULL reply: type and `n` are kept, a string payload becomes its
      first `n` bytes (NUL-terminated at `n`), components and entries are copied one by one,
      and a double is copied as is. */
  function CopyResp(r: Resp): (c: Resp)
    requires WellFormed(r)
    ensures WellFormed(c) && Exact(c)
    ensures c.typ == r.typ && c.n == r.n
    ensures c.value.NoValue? <==> r.value.NoValue?
    ensures r.value.Text? ==> c.value == Text(r.value.bytes[..r.n])
    ensures r.value.Number? ==> c.value == r.value
    ensures ComponentCount(c.value) == ComponentCount(r.value)
    ensures Exact(r) ==> c == r
    decreases r
  {
    match r.value
    case NoValue => r
    case Text(b) => Resp(r.typ, r.n, Text(b[..r.n]))
    case Number(_) => r
    case Items(cs) =>
      var copied := seq(|cs|, i requires 0 <= i < |cs| => CopyResp(cs[i]));
      assert Exact(r) ==> copied == cs;
      Resp(r.typ, r.n, Items(copied))
    case Pairs(es) =>
      var copied := seq(|es|, i requires 0 <= i < |es| =>
                          MapEntry(CopyResp(es[i].key), CopyResp(es[i].value)));
      assert Exact(r) ==> copied == es;
      Resp(r.typ, r.n, Pairs(copied))
  }

  /** redisxCopyOfRESP: NULL gives NULL. */
  function Copy(r: Option<Resp>): (c: Option<Resp>)
    requires r.Some? ==> WellFormed(r.value)
    ensures c.None? <==> r.None?
    ensures c.Some? ==> WellFormed(c.value) && Exact(c.value)
    ensures c.Some? ==> c.value.typ == r.value.typ && c.value.n == r.value.n
  {
    if r.None? then None else Some(CopyResp(r.value))
  }

  /** A copy is a new reply, so it is compared with its original without the pointer shortcut:
      a NULL, a reply without payload and a string are equal to their copies, and copying twice
      changes nothing more. */
  lemma CopyIsEqual(r: Option<Resp>, sameMemory: (Payload, Payload, int) -> bool)
    requires r.Some? ==> WellFormed(r.value)
    ensures r.None? || r.value.value.NoValue? || r.value.value.Text? ==> IsEqual(Copy(r), r, false, sameMemory)
    ensures Copy(Copy(r)) == Copy(r)
  {
  }

  /** The copy of an array with components, whose pointer array is new, is not equal to its
      original when the two pointer arrays differ in their first `n` bytes. */
  lemma CopyOfArrayCompared(r: Resp, sameMemory: (Payload, Payload, int) -> bool)
    requires WellFormed(r) && r.value.Items? && r.n > 0
    ensures IsEqual(Copy(Some(r)), Some(r), false, sameMemory) == sameMemory(CopyResp(r).value, r.value, r.n)
  {
  }

  /** The key test of redisxGetMapEntry: same type, same `n`, and either both values NULL or
      both non-NULL with the first `n` payload bytes equal. */
  predicate KeyMatches(k: Resp, key: Resp, sameMemory: (Payload, Payload, int) -> bool)
    requires WellFormed(k) && WellFormed(key)
  {
    k.typ == key.typ && k.n == key.n
    && (if key.value.NoValue? then k.value.NoValue?
        else !k.value.NoValue? && SamePayload(k.value, key.value, key.n, sameMemory))
  }

  /** Entries of a well-formed map-type reply. */
  function EntriesOf(reply: Option<Resp>): (es: seq<MapEntry>)
    requires reply.Some? ==> WellFormed(reply.value)
    ensures forall i :: 0 <= i < |es| ==> WellFormed(es[i].key) && WellFormed(es[i].value)
  {
    if reply.Some? && IsMapType(reply.value.typ) && reply.value.value.Pairs? then reply.value.value.entries else []
  }

  function FindKey(es: seq<MapEntry>, key: Resp, from: nat, sameMemory: (Payload, Payload, int) -> bool): (r: Option<nat>)
    requires WellFormed(key)
    requires forall i :: 0 <= i < |es| ==> WellFormed(es[i].key)
    requires from <= |es|
    ensures r.Some? ==> from <= r.value < |es| && KeyMatches(es[r.value].key, key, sameMemory)
    ensures r.Some? ==> forall j :: from <= j < r.value ==> !KeyMatches(es[j].key, key, sameMemory)
    ensures r.None? ==> forall j :: from <= j < |es| ==> !KeyMatches(es[j].key, key, sameMemory)
    decreases |es| - from
  {
    if from == |es| then None
    else if KeyMatches(es[from].key, key, sameMemory) then Some(from)
    else FindKey(es, key, from + 1, sameMemory)
  }

  /** redisxGetMapEntry, as the index of the entry returned: the first entry whose key matches;
      NULL for a NULL key, a reply that is not a map, a map without payload, or no match. */
  function GetMapEntry(reply: Option<Resp>, key: Option<Resp>, sameMemory: (Payload, Payload, int) -> bool): (r: Option<nat>)
    requires reply.Some? ==> WellFormed(reply.value)
    requires key.Some? ==> WellFormed(key.value)
    ensures key.None? || !IsMap(reply) || reply.value.value.NoValue? ==> r.None?
    ensures r.Some? ==> r.value < |EntriesOf(reply)| && KeyMatches(EntriesOf(reply)[r.value].key, key.value, sameMemory)
    ensures r.Some? ==> forall j :: 0 <= j < r.value ==> !KeyMatches(EntriesOf(reply)[j].key, key.value, sameMemory)
    ensures r.None? && key.Some? ==> forall j :: 0 <= j < |EntriesOf(reply)| ==> !KeyMatches(EntriesOf(reply)[j].key, key.value, sameMemory)
  {
    if key.None? || !IsMap(reply) || reply.value.value.NoValue? then None
    else FindKey(EntriesOf(reply), key.value, 0, sameMemory)
  }

  /** The key test of redisxGetKeywordEntry: a string-type key whose C string equals `key`. */
  predicate KeywordMatches(k: Resp, key: seq<byte>) {
    IsStringType(k.typ) && k.value.Text? && CStr(k.value.bytes) == key
  }

  /** strcmp() needs every string-type key to have a value. */
  predicate KeywordsReadable(reply: Option<Resp>)
    requires reply.Some? ==> WellFormed(reply.value)
  {
    forall i :: 0 <= i < |EntriesOf(reply)| ==>
      IsStringType(EntriesOf(reply)[i].key.typ) ==> EntriesOf(reply)[i].key.value.Text?
  }

  function FindKeyword(es: seq<MapEntry>, key: seq<byte>, from: nat): (r: Option<nat>)
    requires from <= |es|
    ensures r.Some? ==> from <= r.value < |es| && KeywordMatches(es[r.value].key, key)
    ensures r.Some? ==> forall j :: from <= j < r.value ==> !KeywordMatches(es[j].key, key)
    ensures r.None? ==> forall j :: from <= j < |es| ==> !KeywordMatches(es[j].key, key)
    decreases |es| - from
  {
    if from == |es| then None
    else if KeywordMatches(es[from].key, key) then Some(from)
    else FindKeyword(es, key, from + 1)
  }

  /** redisxGetKeywordEntry, as the index of the entry returned: the first entry with a string
      key equal to `key`; NULL for a NULL key, a non-map, a map without payload, or no match. */
  function GetKeywordEntry(reply: Option<Resp>, key: Option<seq<byte>>): (r: Option<nat>)
    requires reply.Some? ==> WellFormed(reply.value)
    requires KeywordsReadable(reply)
    requires key.Some? ==> IsCString(key.value)
    ensures key.None? || !IsMap(reply) || reply.value.value.NoValue? ==> r.None?
    ensures r.Some? ==> r.value < |EntriesOf(reply)| && KeywordMatches(EntriesOf(reply)[r.value].key, key.value)
    ensures r.Some? ==> forall j :: 0 <= j < r.value ==> !KeywordMatches(EntriesOf(reply)[j].key, key.value)
    ensures r.None? && key.Some? ==> forall j :: 0 <= j < |EntriesOf(reply)| ==> !KeywordMatches(EntriesOf(reply)[j].key, key.value)
  {
    if key.None? || !IsMap(reply) || reply.value.value.NoValue? then None
    else FindKeyword(EntriesOf(reply), key.value, 0)
  }

  /** A keyword lookup finds the entry a map lookup with the equivalent bulk-string key finds,
      when every key of the map is an exact bulk string without NUL bytes. */
  lemma KeywordAgreesWithMapEntry(reply: Option<Resp>, key: seq<byte>, sameMemory: (Payload, Payload, int) -> bool)
    requires reply.Some? ==> WellFormed(reply.value)
    requires IsCString(key)
    requires forall i :: 0 <= i < |EntriesOf(reply)| ==>
      EntriesOf(reply)[i].key.typ == BulkString && EntriesOf(reply)[i].key.value.Text?
      && Exact(EntriesOf(reply)[i].key) && IsCString(EntriesOf(reply)[i].key.value.bytes)
    ensures GetKeywordEntry(reply, Some(key)) == GetMapEntry(reply, Some(Resp(BulkString, |key|, Text(key))), sameMemory)
  {
    var es := EntriesOf(reply);
    var k := Resp(BulkString, |key|, Text(key));
    forall i | 0 <= i < |es|
      ensures KeywordMatches(es[i].key, key) <==> KeyMatches(es[i].key, k, sameMemory)
    {
      var b := es[i].key.value.bytes;
      assert CStr(b) == b;
      assert b[..|b|] == b && key[..|key|] == key;
    }
    FindSame(es, key, k, 0, sameMemory);
  }

  lemma {:induction false} FindSame(es: seq<MapEntry>, key: seq<byte>, k: Resp, from: nat,
                                    sameMemory: (Payload, Payload, int) -> bool)
    requires WellFormed(k) && from <= |es|
    requires forall i :: 0 <= i < |es| ==> WellFormed(es[i].key)
    requires forall i :: 0 <= i < |es| ==> (KeywordMatches(es[i].key, key) <==> KeyMatches(es[i].key, k, sameMemory))
    ensures FindKeyword(es, key, from) == FindKey(es, k, from, sameMemory)
    decreases |es| - from
  {
    if from < |es| {
      FindSame(es, key, k, from + 1, sameMemory);
    }
  }

  /** The cases in which redisxAppendRESP reaches realloc() and memcpy(): a non-NULL part of the
      target's type with n > 0, and a target that is not scalar. */
  predicate AppendCopies(resp: Option<Resp>, part: Option<Resp>) {
    resp.Some? && part.Some? && part.value.typ != Null && part.value.n > 0
    && resp.value.typ == part.value.typ && !IsScalarType(resp.value.typ)
  }

  /** Of those, the ones whose memory accesses are defined: the target's `n` is not negative
      (else the copy lands before the buffer), a target without payload has n = 0 (else its
      first n elements are uninitialised), and the part has a payload to copy from. */
  predicate AppendDefined(resp: Resp, part: Resp) {
    resp.n >= 0 && (resp.value.NoValue? ==> resp.n == 0) && !part.value.NoValue?
  }

  datatype Appended = Appended(status: Status, resp: Option<Resp>) | AppendUndefined

  /** redisxAppendRESP. The string case is the one with the terminator written, as
      AppendBufferFixed computes it. */
  function Append(resp: Option<Resp>, part: Option<Resp>): (r: Appended)
    requires resp.Some? ==> WellFormed(resp.value)
    requires part.Some? ==> WellFormed(part.value)
    ensures r.AppendUndefined? <==> AppendCopies(resp, part) && !AppendDefined(resp.value, part.value)
    ensures resp.None? ==> r == Appended(NullArg, resp)
    ensures resp.Some? && (part.None? || part.value.typ == Null || part.value.n <= 0)
            ==> r == Appended(Success, resp)
    ensures r.Appended? && r.status == UnexpectedResp <==>
      resp.Some? && part.Some? && part.value.typ != Null && part.value.n > 0
      && (resp.value.typ != part.value.typ || IsScalarType(resp.value.typ))
    ensures r.Appended? && r.status != Success ==> r.resp == resp
    ensures r.Appended? && r.status == Success && AppendCopies(resp, part) ==>
      r.resp.Some? && WellFormed(r.resp.value) && r.resp.value.typ == resp.value.typ
      && r.resp.value.n == resp.value.n + part.value.n
      && ComponentCount(r.resp.value.value) == ComponentCount(resp.value.value) + ComponentCount(part.value.value)
  {
    if resp.None? then Appended(NullArg, resp)
    else if part.None? || part.value.typ == Null || part.value.n <= 0 then Appended(Success, resp)
    else
      var a := resp.value;
      var b := part.value;
      if a.typ != b.typ then Appended(UnexpectedResp, resp)
      else if IsScalarType(a.typ) then Appended(UnexpectedResp, resp)
      else if !AppendDefined(a, b) then AppendUndefined
      else Appended(Success, Some(Joined(a, b)))
  }

  /** The target with the part's elements after its own. */
  function Joined(a: Resp, b: Resp): (c: Resp)
    requires WellFormed(a) && WellFormed(b) && AppendDefined(a, b)
    requires a.typ == b.typ && !IsScalarType(a.typ) && b.n > 0
    ensures WellFormed(c) && c.typ == a.typ && c.n == a.n + b.n
    ensures ComponentCount(c.value) == ComponentCount(a.value) + ComponentCount(b.value)
  {
    var m := a.n + b.n;
    match b.value
    case Text(y) =>
      var x := if a.value.Text? then a.value.bytes else [];
      Resp(a.typ, m, Text(AppendBufferFixed(x, a.n, y, b.n)[..m]))
    case Items(y) =>
      var x := if a.value.Items? then a.value.items else [];
      JoinedItemsWellFormed(x, y);
      Resp(a.typ, m, Items(x + y))
    case Pairs(y) =>
      var x := if a.value.Pairs? then a.value.entries else [];
      JoinedEntriesWellFormed(x, y);
      Resp(a.typ, m, Pairs(x + y))
  }

  lemma JoinedItemsWellFormed(x: seq<Resp>, y: seq<Resp>)
    requires forall i :: 0 <= i < |x| ==> WellFormed(x[i])
    requires forall i :: 0 <= i < |y| ==> WellFormed(y[i])
    ensures forall i :: 0 <= i < |x + y| ==> WellFormed((x + y)[i])
  {
    forall i | 0 <= i < |x + y| ensures WellFormed((x + y)[i]) {
      if i >= |x| { assert (x + y)[i] == y[i - |x|]; }
    }
  }

  lemma JoinedEntriesWellFormed(x: seq<MapEntry>, y: seq<MapEntry>)
    requires forall i :: 0 <= i < |x| ==> WellFormed(x[i].key) && WellFormed(x[i].value)
    requires forall i :: 0 <= i < |y| ==> WellFormed(y[i].key) && WellFormed(y[i].value)
    ensures forall i :: 0 <= i < |x + y| ==> WellFormed((x + y)[i].key) && WellFormed((x + y)[i].value)
  {
    forall i | 0 <= i < |x + y| ensures WellFormed((x + y)[i].key) && WellFormed((x + y)[i].value) {
      if i >= |x| { assert (x + y)[i] == y[i - |x|]; }
    }
  }

  /** Appending keeps the target's elements in front of the part's: for arrays the components,
      for maps the entries and for strings the bytes of the result are the two sequences joined. */
  lemma AppendConcatenates(a: Resp, b: Resp)
    requires WellFormed(a) && WellFormed(b) && AppendDefined(a, b)
    requires a.typ == b.typ && !IsScalarType(a.typ) && b.typ != Null && b.n > 0
    ensures Append(Some(a), Some(b)) == Appended(Success, Some(Joined(a, b)))
    ensures a.value.Items? ==> Joined(a, b).value.items == a.value.items + b.value.items
    ensures a.value.Pairs? ==> Joined(a, b).value.entries == a.value.entries + b.value.entries
    ensures a.value.Text? ==> Joined(a, b).value.bytes == a.value.bytes[..a.n] + b.value.bytes[..b.n]
    ensures a.value.NoValue? ==>
      Joined(a, b).n == b.n
      && Joined(a, b).value == if b.value.Text? then Text(b.value.bytes[..b.n]) else b.value
  {
    if b.value.Text? {
      JoinedText(a, b);
    } else if b.value.Items? {
      assert Joined(a, b).value.items == (if a.value.Items? then a.value.items else []) + b.value.items;
    } else {
      assert Joined(a, b).value.entries == (if a.value.Pairs? then a.value.entries else []) + b.value.entries;
    }
  }

  lemma JoinedText(a: Resp, b: Resp)
    requires WellFormed(a) && WellFormed(b) && AppendDefined(a, b)
    requires a.typ == b.typ && !IsScalarType(a.typ) && b.n > 0 && b.value.Text?
    ensures Joined(a, b).value.bytes == (if a.value.Text? then a.value.bytes[..a.n] else []) + b.value.bytes[..b.n]
  {
    var x := if a.value.Text? then a.value.bytes else [];
    var w := AppendBufferAsWritten(x, a.n, b.value.bytes, b.n);
    AppendBufferFixedTerminated(x, a.n, b.value.bytes, b.n);
    assert Joined(a, b).value.bytes == w;
    if a.value.NoValue? {
      assert x[..a.n] == [];
    }
  }

  /** The string buffer redisxAppendRESP builds, as written: realloc() to n + m bytes, the
      part's m bytes copied in at offset n. No NUL is written after them. */
  function AppendBufferAsWritten(x: seq<byte>, n: nat, y: seq<byte>, m: nat): (buf: seq<byte>)
    requires n <= |x| && m <= |y|
    ensures |buf| == n + m
  {
    x[..n] + y[..m]
  }

  /** The buffer with room for the terminator that every other string of the library has. */
  function AppendBufferFixed(x: seq<byte>, n: nat, y: seq<byte>, m: nat): (buf: seq<byte>)
    requires n <= |x| && m <= |y|
  {
    x[..n] + y[..m] + [NUL]
  }

  /** A string of n bytes is terminated when its buffer has a NUL at index n. */
  predicate Terminated(buf: seq<byte>, n: nat) {
    n < |buf| && buf[n] == NUL
  }

  /** As written, the appended string is never terminated: a later strlen() or strcmp() reads
      past the end of the buffer. */
  lemma AppendBufferUnterminated(x: seq<byte>, n: nat, y: seq<byte>, m: nat)
    requires n <= |x| && m <= |y|
    ensures !Terminated(AppendBufferAsWritten(x, n, y, m), n + m)
  {
  }

  /** With the extra byte the string is terminated, and its n + m bytes are those as written. */
  lemma AppendBufferFixedTerminated(x: seq<byte>, n: nat, y: seq<byte>, m: nat)
    requires n <= |x| && m <= |y|
    ensures Terminated(AppendBufferFixed(x, n, y, m), n + m)
    ensures AppendBufferFixed(x, n, y, m)[..n + m] == AppendBufferAsWritten(x, n, y, m)
    ensures CStr(AppendBufferFixed(x, n, y, m)) == AppendBufferAsWritten(x, n, y, m) || NUL in AppendBufferAsWritten(x, n, y, m)
  {
    var buf := AppendBufferFixed(x, n, y, m);
    var w := AppendBufferAsWritten(x, n, y, m);
    assert buf == w + [NUL];
    if NUL !in w {
      CStrOfConcat(w, [NUL]);
    }
  }

  /** Delimiters of the strtok() call in redisxSplitText. */
  predicate IsSplitDelimiter(c: byte) {
    c == 32 || c == 9 || c == 13 || c == 10
  }

  function DelimiterRun(s: seq<byte>): (k: nat)
    ensures k <= |s| && forall i :: 0 <= i < k ==> IsSplitDelimiter(s[i])
    ensures k < |s| ==> !IsSplitDelimiter(s[k])
  {
    if |s| == 0 || !IsSplitDelimiter(s[0]) then 0 else 1 + DelimiterRun(s[1..])
  }

  function TokenRun(s: seq<byte>): (k: nat)
    ensures k <= |s| && forall i :: 0 <= i < k ==> !IsSplitDelimiter(s[i])
    ensures k < |s| ==> IsSplitDelimiter(s[k])
  {
    if |s| == 0 || IsSplitDelimiter(s[0]) then 0 else 1 + TokenRun(s[1..])
  }

  /** Outcome of redisxSplitText: an error status, a remnant length with the remnant text (NULL
      when absent) and the reply as modified in place, or undefined behaviour when strtok()
      finds no token and its NULL result goes to strlen(). */
  datatype Split = SplitFailed(status: Status) | SplitDone(length: int, text: Option<seq<byte>>, resp: Resp) | SplitUndefined

  /** strtok(str, " \t\r\n") on an error string: the first token starts after the leading
      delimiters; a delimiter right after it is overwritten with NUL. Returns the token length
      and the modified buffer, or None when the string holds only delimiters. */
  function FirstToken(b: seq<byte>): (r: Option<(nat, seq<byte>)>)
    ensures r.Some? ==> |r.value.1| == |b|
  {
    var s := CStr(b);
    var lead := DelimiterRun(s);
    if lead == |s| then None
    else
      var len := TokenRun(s[lead..]);
      var endAt := lead + len;
      var updated := if endAt < |s| then b[endAt := NUL] else b;
      Some((len, updated))
  }

  /** Shared part of the two splitting variants: everything but the remnant length of an
      error-type reply, which is n minus the offset minus `short`. */
  function SplitWith(resp: Option<Resp>, short: int): (r: Split)
    requires resp.Some? ==> WellFormed(resp.value)
    ensures (resp.Some? && resp.value.value.Text? && (resp.value.typ == Error || resp.value.typ == BlobError)
             && r.SplitDone? && r.text.Some?)
            ==> r.length == resp.value.n - (|resp.value.value.bytes| - |r.text.value|) - short
    ensures (resp.Some? && resp.value.value.Text? && resp.value.typ == Verbatim && r.SplitDone?)
            ==> resp.value.n >= 4 && r.text == Some(resp.value.value.bytes[4..]) && r.length == resp.value.n - 4
  {
    if resp.None? then SplitFailed(NullArg)
    else
      var r := resp.value;
      if r.value.NoValue? then SplitDone(0, None, r)
      else if r.typ == Verbatim then
        if r.n < 4 then SplitFailed(ParseError)
        else
          var b := r.value.bytes;
          SplitDone(r.n - 4, Some(b[4..]), Resp(r.typ, r.n, Text(b[3 := NUL])))
      else if r.typ == Error || r.typ == BlobError then
        match FirstToken(r.value.bytes)
        case None => SplitUndefined
        case Some((len, updated)) =>
          var offset := len + 1;
          if offset < r.n then SplitDone(r.n - offset - short, Some(updated[offset..]), Resp(r.typ, r.n, Text(updated)))
          else SplitDone(0, None, Resp(r.typ, r.n, Text(updated)))
      else SplitFailed(UnexpectedResp)
  }

  /** redisxSplitText as written: an error-type reply returns n - offset - 1. */
  function SplitText(resp: Option<Resp>): (r: Split)
    requires resp.Some? ==> WellFormed(resp.value)
    ensures resp.None? ==> r == SplitFailed(NullArg)
    ensures resp.Some? && resp.value.value.NoValue? ==> r == SplitDone(0, None, resp.value)
    ensures resp.Some? && !resp.value.value.NoValue? && resp.value.typ == Verbatim ==>
      (resp.value.n < 4 <==> r == SplitFailed(ParseError))
    ensures (resp.Some? && !resp.value.value.NoValue? && !(resp.value.typ in {Verbatim, Error, BlobError}))
            ==> r == SplitFailed(UnexpectedResp)
    ensures r.SplitDone? && resp.value.typ == Verbatim && !resp.value.value.NoValue? ==>
      r.text == Some(resp.value.value.bytes[4..]) && r.length == resp.value.n - 4
    ensures (resp.Some? && Exact(resp.value) && (resp.value.typ == Error || resp.value.typ == BlobError)
             && r.SplitDone? && r.text.Some?) ==> r.length == |r.text.value| - 1
  {
    SplitWith(resp, 1)
  }

  /** The split as documented. */
  function SplitTextFixed(resp: Option<Resp>): (r: Split)
    requires resp.Some? ==> WellFormed(resp.value)
  {
    SplitWith(resp, 0)
  }

  /** The documented split returns the length of the remnant text, for a reply whose string is
      exactly `n` bytes long. */
  lemma SplitTextFixedLength(resp: Option<Resp>)
    requires resp.Some? ==> WellFormed(resp.value)
    ensures var r := SplitTextFixed(resp);
            resp.Some? && Exact(resp.value) && r.SplitDone? && r.text.Some? ==> r.length == |r.text.value|
  {
    var r := SplitWith(resp, 0);
    if resp.Some? && Exact(resp.value) && r.SplitDone? && r.text.Some? {
      assert resp.value.value.Text?;
      assert |resp.value.value.bytes| == resp.value.n;
    }
  }

  /** The two variants differ only in the remnant length of an error-type reply that has a
      remnant, which as written is one less. */
  lemma SplitVariants(resp: Option<Resp>)
    requires resp.Some? ==> WellFormed(resp.value)
    ensures SplitText(resp).SplitDone? <==> SplitTextFixed(resp).SplitDone?
    ensures !SplitText(resp).SplitDone? ==> SplitText(resp) == SplitTextFixed(resp)
    ensures SplitText(resp).SplitDone? ==>
      SplitText(resp).text == SplitTextFixed(resp).text && SplitText(resp).resp == SplitTextFixed(resp).resp
      && SplitText(resp).length
         == SplitTextFixed(resp).length
            - (if SplitText(resp).text.Some? && (resp.value.typ == Error || resp.value.typ == BlobError) then 1 else 0)
  {
  }

  /** "ERR x": an error code, one space and a one-byte message. */
  const ERR_X: seq<byte> := [69, 82, 82, 32, 120]

  lemma FirstTokenOfErrX()
    ensures FirstToken(ERR_X) == Some((3, ERR_X[3 := NUL]))
  {
    var b := ERR_X;
    assert NUL !in b;
    assert CStr(b) == b;
    assert DelimiterRun(b) == 0;
    assert b[1..][1..] == b[2..] && b[2..][1..] == b[3..];
    assert TokenRun(b[3..]) == 0;
    assert TokenRun(b) == 3;
  }

  /** The remnant length of an error reply as written is one short of its text:
      for "ERR x" it is 0 while the text is "x"; the documented split returns 1. */
  lemma SplitTextShortByOne()
    ensures var r := Resp(Error, 5, Text(ERR_X));
            SplitText(Some(r)).SplitDone? && SplitText(Some(r)).text == Some([120])
            && SplitText(Some(r)).length == 0
            && SplitTextFixed(Some(r)).length == 1
  {
    FirstTokenOfErrX();
    assert ERR_X[3 := NUL][4..] == [120];
  }
}
