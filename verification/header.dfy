/** The constants of the public header `redisx.h`: default port and buffer sizes, the version
    string, the RESP type characters, the REDIS_* error codes and the channel numbering, plus
    the status codes the library returns. */
module Header {
  import opened CStrings

  const TCP_PORT: int := 6379
  const TCP_BUF_SIZE: int := 0
  const CMDBUF_SIZE: int := 8192
  const RCVBUF_SIZE: int := 8192

  const MAJOR_VERSION: nat := 0
  const MINOR_VERSION: nat := 9
  const PATCHLEVEL: nat := 0
  const RELEASE_STRING: seq<byte> := Ascii("-devel")

  /** REDISX_VERSION_STRING: the three stringified version numbers joined by '.', followed by
      the release suffix. */
  function VersionString(): (r: seq<byte>)
    ensures r == Ascii("0.9.0-devel")
  {
    Decimal(MAJOR_VERSION) + Ascii(".") + Decimal(MINOR_VERSION) + Ascii(".")
      + Decimal(PATCHLEVEL) + RELEASE_STRING
  }

  /** The first bytes of the RESP2 reply kinds, and the 'P' of the older PONG reply. */
  const RESP_ARRAY: byte := 42
  const RESP_INT: byte := 58
  const RESP_SIMPLE_STRING: byte := 43
  const RESP_ERROR: byte := 45
  const RESP_BULK_STRING: byte := 36
  const RESP_PONG: byte := 80

  const TYPE_CHARS: seq<byte> :=
    [RESP_ARRAY, RESP_INT, RESP_SIMPLE_STRING, RESP_ERROR, RESP_BULK_STRING, RESP_PONG]

  /** The header's type characters are six different bytes, so a reply's first byte
      identifies its kind. */
  lemma TypeCharsDistinct()
    ensures |TYPE_CHARS| == 6
    ensures forall i, j :: 0 <= i < j < |TYPE_CHARS| ==> TYPE_CHARS[i] != TYPE_CHARS[j]
    ensures TYPE_CHARS == Ascii("*:+-$P")
  {
  }

  const REDIS_INVALID_CHANNEL: int := -101
  const REDIS_NULL: int := -102
  const REDIS_ERROR: int := -103
  const REDIS_INCOMPLETE_TRANSFER: int := -104
  const REDIS_UNEXPECTED_RESP: int := -105
  const REDIS_UNEXPECTED_ARRAY_SIZE: int := -106

  /** Status codes. X_SUCCESS is 0; the other X_* codes come from `xchange.h`, whose numeric
      values are not part of this model, so they are plain constructors. `Code` carries a raw
      negative integer that a function passes through as its status. */
  datatype Status =
    | Success
    | Failure | NullArg | NoInit | NoService | NameInvalid | GroupInvalid | SizeInvalid
    | ParseError | AlreadyOpen | Incomplete
    | InvalidChannel | RedisNull | RedisError | IncompleteTransfer | UnexpectedResp
    | UnexpectedArraySize
    | Moved | Migrating
    | Code(value: int)

  /** The numeric value of a REDIS_* status, for the six codes the header defines. */
  function RedisCode(s: Status): (r: Option<int>)
    ensures r.Some? ==> -106 <= r.value <= -101
    ensures r.Some? <==> s.InvalidChannel? || s.RedisNull? || s.RedisError?
                         || s.IncompleteTransfer? || s.UnexpectedResp? || s.UnexpectedArraySize?
  {
    match s
    case InvalidChannel => Some(REDIS_INVALID_CHANNEL)
    case RedisNull => Some(REDIS_NULL)
    case RedisError => Some(REDIS_ERROR)
    case IncompleteTransfer => Some(REDIS_INCOMPLETE_TRANSFER)
    case UnexpectedResp => Some(REDIS_UNEXPECTED_RESP)
    case UnexpectedArraySize => Some(REDIS_UNEXPECTED_ARRAY_SIZE)
    case _ => None
  }

  /** The REDIS_* status whose numeric value is `v`, if any. */
  function RedisStatus(v: int): (r: Option<Status>)
    ensures r.Some? <==> -106 <= v <= -101
  {
    if v == REDIS_INVALID_CHANNEL then Some(InvalidChannel)
    else if v == REDIS_NULL then Some(RedisNull)
    else if v == REDIS_ERROR then Some(RedisError)
    else if v == REDIS_INCOMPLETE_TRANSFER then Some(IncompleteTransfer)
    else if v == REDIS_UNEXPECTED_RESP then Some(UnexpectedResp)
    else if v == REDIS_UNEXPECTED_ARRAY_SIZE then Some(UnexpectedArraySize)
    else None
  }

  /** The status a raw negative `int` stands for when a function passes it through: a REDIS_*
      code by its name, any other value as itself. */
  function StatusOf(v: int): (s: Status)
    ensures RedisStatus(v).Some? ==> s == RedisStatus(v).value && RedisCode(s) == Some(v)
    ensures RedisStatus(v).None? ==> s == Code(v)
  {
    if RedisStatus(v).Some? then RedisStatus(v).value else Code(v)
  }

  /** The six REDIS_* codes are distinct: the value maps back to the code and vice versa. */
  lemma RedisCodesDistinct(s: Status, v: int)
    ensures RedisCode(s) == Some(v) <==> RedisStatus(v) == Some(s)
  {
  }

  /** redisx_channel */
  datatype Channel = Interactive | Pipeline | Subscription

  const CHANNELS: int := 3

  function ChannelIndex(c: Channel): (r: int)
    ensures 0 <= r < CHANNELS
  {
    match c
    case Interactive => 0
    case Pipeline => 1
    case Subscription => 2
  }

  /** The channel numbered `i`, or None when `i` is outside 0 .. REDISX_CHANNELS-1. */
  function ChannelOf(i: int): (r: Option<Channel>)
    ensures r.Some? <==> 0 <= i < CHANNELS
    ensures r.Some? ==> ChannelIndex(r.value) == i
  {
    if i == 0 then Some(Interactive)
    else if i == 1 then Some(Pipeline)
    else if i == 2 then Some(Subscription)
    else None
  }

  /** Channel numbers and channels are in one-to-one correspondence. */
  lemma ChannelNumbering(c: Channel)
    ensures ChannelOf(ChannelIndex(c)) == Some(c)
    ensures ChannelIndex(Interactive) == 0 && ChannelIndex(Pipeline) == 1
    ensures ChannelIndex(Subscription) == CHANNELS - 1
  {
  }
}
