/** What the higher-level helpers (tables, pub/sub, scripts, connection setup) hand to the
    request sender: argument strings and, optionally, their lengths. The byte stream a request
    becomes on the socket is the business of the wire codec; here a helper's outcome is the
    status it refuses with, or the requests it sends, in order. */
module Requests {
  import opened CStrings
  import opened Header

  /** The arguments of redisxArrayRequest / redisxSendArrayRequestAsync; `lengths` is the
      optional array of lengths (a length of 0 means "use strlen"). */
  datatype Request = Request(args: seq<seq<byte>>, lengths: Option<seq<int>>)

  /** A helper either refuses with a status before sending anything, or sends these requests. */
  datatype Outcome = Refused(status: Status) | Sends(requests: seq<Request>)

  /** A request sent with redisxSendRequestAsync or redisxRequest: no lengths. */
  function Plain(args: seq<seq<byte>>): (r: Request)
    ensures r.args == args && r.lengths.None?
  {
    Request(args, None)
  }

  /** A string argument that is NULL or empty, the test `s == NULL || !s[0]`. */
  predicate Blank(s: Option<seq<byte>>) {
    s.None? || StrLen(s.value) == 0
  }

  /** CLIENT REPLY SKIP, which redisxSkipReplyAsync sends (as a canned byte string) ahead of a
      request whose reply is not wanted. */
  const SKIP_REPLY: Request := Plain([Ascii("CLIENT"), Ascii("REPLY"), Ascii("SKIP")])

  /** The requests of a helper that asks for no reply unless `confirm`: the skip first. */
  function Confirmed(confirm: bool, r: Request): (rs: seq<Request>)
    ensures |rs| == (if confirm then 1 else 2) && rs[|rs| - 1] == r
    ensures !confirm ==> rs[0] == SKIP_REPLY
  {
    if confirm then [r] else [SKIP_REPLY, r]
  }
}
