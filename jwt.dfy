/** The bearer-token handler of app/jwt/jwt.py: the expiry parser `_get_expire_time` and
    the state machine of `get_token`. The token fetcher, the clock and the base64 / UTF-8 /
    JSON decoding of the payload segment are inputs. Times are integers counting whole
    seconds, the unit of the `exp` claim and of the one-second margin. */
module Jwt {
  import opened Common

  /** Python's `s.split(".")`: the pieces between the dots, in order. */
  function SplitDots(s: string): (parts: seq<string>)
    ensures |parts| >= 1
    ensures forall i :: 0 <= i < |parts| ==> '.' !in parts[i]
  {
    if |s| == 0 then [""]
    else
      var rest := SplitDots(s[1..]);
      if s[0] == '.' then [""] + rest
      else [[s[0]] + rest[0]] + rest[1..]
  }

  /** `".".join(parts)`. */
  function JoinDots(parts: seq<string>): (s: string)
    requires |parts| >= 1
    ensures |s| >= |parts[0]| && s[..|parts[0]|] == parts[0]
    ensures |parts| > 1 ==> |s| > |parts[0]| && s[|parts[0]|] == '.'
  {
    if |parts| == 1 then parts[0] else parts[0] + "." + JoinDots(parts[1..])
  }

  /** The number of dots in `s`. */
  function CountDots(s: string): (n: nat)
    ensures n <= |s|
    ensures n == 0 <==> '.' !in s
  {
    if |s| == 0 then 0 else (if s[0] == '.' then 1 else 0) + CountDots(s[1..])
  }

  /** Splitting loses nothing: joining the pieces with dots gives the string back. */
  lemma {:induction false} JoinSplit(s: string)
    ensures JoinDots(SplitDots(s)) == s
  {
    if |s| > 0 {
      JoinSplit(s[1..]);
      var rest := SplitDots(s[1..]);
      if s[0] == '.' {
        assert s == [s[0]] + s[1..];
      } else {
        if |rest| == 1 {
          assert s == [s[0]] + rest[0];
        } else {
          assert JoinDots(rest) == rest[0] + "." + JoinDots(rest[1..]);
          assert s == [s[0]] + s[1..];
        }
      }
    }
  }

  /** A dot-free prefix joins the first piece of what follows it. */
  lemma {:induction false} SplitDotFreePrefix(a: string, rest: string)
    requires '.' !in a
    ensures SplitDots(a + rest) == [a + SplitDots(rest)[0]] + SplitDots(rest)[1..]
  {
    if |a| > 0 {
      SplitDotFreePrefix(a[1..], rest);
      assert (a + rest)[0] == a[0];
      assert (a + rest)[1..] == a[1..] + rest;
      assert [a[0]] + (a[1..] + SplitDots(rest)[0]) == a + SplitDots(rest)[0];
    } else {
      var r := SplitDots(rest);
      assert a + rest == rest;
      assert a + r[0] == r[0];
      assert r == [r[0]] + r[1..];
    }
  }

  /** The other round trip: splitting dot-free pieces joined with dots gives the pieces. */
  lemma {:induction false} SplitJoin(parts: seq<string>)
    requires |parts| >= 1
    requires forall i :: 0 <= i < |parts| ==> '.' !in parts[i]
    ensures SplitDots(JoinDots(parts)) == parts
  {
    if |parts| == 1 {
      SplitDotFreePrefix(parts[0], "");
      assert parts[0] + "" == parts[0];
    } else {
      SplitJoin(parts[1..]);
      var tail := JoinDots(parts[1..]);
      assert parts[0] + "." + tail == parts[0] + ("." + tail);
      SplitDotFreePrefix(parts[0], "." + tail);
      assert ("." + tail)[1..] == tail;
      assert SplitDots("." + tail) == [""] + parts[1..];
      assert parts[0] + "" == parts[0];
      assert parts == [parts[0]] + parts[1..];
    }
  }

  /** There is one more piece than there are dots. */
  lemma {:induction false} SplitCount(s: string)
    ensures |SplitDots(s)| == CountDots(s) + 1
  {
    if |s| > 0 {
      SplitCount(s[1..]);
    }
  }

  /** The padding `"=" * (4 - len(segment) % 4)` appended before base64 decoding. */
  function Padding(segment: string): (pad: string)
    ensures 1 <= |pad| <= 4
    ensures (|segment| + |pad|) % 4 == 0
    ensures forall i :: 0 <= i < |pad| ==> pad[i] == '='
  {
    var n := |segment|;
    assert n == 4 * (n / 4) + n % 4 && 0 <= n % 4 < 4;
    assert n + (4 - n % 4) == 4 * (n / 4 + 1);
    seq(4 - n % 4, _ => '=')
  }

  /** What decoding a padded payload segment can give: a JSON object, with or without an
      integer `exp` claim, or one of the failures of base64, UTF-8 or JSON decoding, or a
      JSON value that is not an object. */
  datatype Decoded =
    | Claims(exp: Option<int>)
    | BadBase64
    | BadUtf8(reason: string)
    | BadJson(reason: string)
    | NotAnObject

  /** The outcome of `_get_expire_time`: the expiry, an HTTP error, or another exception
      that escapes the handler unconverted. */
  datatype Expiry = Expires(at: int) | Raised(error: HttpError) | Uncaught

  const FormatError: HttpError := HttpError(500, "Invalid token format.")
  const InternalErrorPrefix: string := "Internal server error: "

  /** `_get_expire_time(token)`. */
  function GetExpireTime(token: string, decode: string -> Decoded): (r: Expiry)
    ensures r == Raised(FormatError) <==> |SplitDots(token)| != 3
    ensures r.Raised? ==> r.error.status == 500
    ensures r.Expires? || r.Uncaught? ==> |SplitDots(token)| == 3
  {
    var parts := SplitDots(token);
    if |parts| != 3 then Raised(FormatError)
    else
      match decode(parts[1] + Padding(parts[1]))
      case Claims(exp) => Expires(if exp.Some? then exp.value else 0)
      case BadUtf8(reason) => Raised(HttpError(500, InternalErrorPrefix + reason))
      case BadJson(reason) => Raised(HttpError(500, InternalErrorPrefix + reason))
      case BadBase64 => Uncaught
      case NotAnObject => Uncaught
  }

  /** A token with three segments whose payload fails UTF-8 or JSON decoding raises status
      500 with a detail that starts with "Internal server error". */
  lemma DecodeFailureIsInternalError(token: string, decode: string -> Decoded)
    requires |SplitDots(token)| == 3
    requires var p := SplitDots(token)[1]; decode(p + Padding(p)).BadUtf8? || decode(p + Padding(p)).BadJson?
    ensures var r := GetExpireTime(token, decode);
            && r.Raised? && r.error.status == 500
            && |r.error.detail| >= |InternalErrorPrefix|
            && r.error.detail[..|InternalErrorPrefix|] == InternalErrorPrefix
  {
  }

  /** A decoded payload without `exp` gives expiry 0, one with `exp` gives that claim. */
  lemma ExpiryFromClaim(token: string, decode: string -> Decoded)
    requires |SplitDots(token)| == 3
    requires var p := SplitDots(token)[1]; decode(p + Padding(p)).Claims?
    ensures var p := SplitDots(token)[1];
            var exp := decode(p + Padding(p)).exp;
            GetExpireTime(token, decode) == Expires(if exp.None? then 0 else exp.value)
  {
  }

  /** "invalid.token" has two segments and raises the format error. */
  lemma TwoSegmentTokenIsFormatError(decode: string -> Decoded)
    ensures GetExpireTime("invalid.token", decode) == Raised(FormatError)
  {
    SplitCount("invalid.token");
    assert CountDots("invalid.token") == 1;
  }

  /** The handler's fields `token` and `expire_time`. */
  datatype TokenState = TokenState(token: Option<string>, expireTime: Option<int>)

  /** The outcome of `get_token`: a token, an HTTP error from the fetcher or the parser, or
      an exception that escapes unconverted (including the TypeError of comparing the
      clock against a missing expiry). */
  datatype TokenOutcome = Token(value: string) | Failed(error: HttpError) | Crashed

  /** One `get_token` call: what it returns, the state it leaves and how many fetches it
      made. `first` and `second` are what the first and second fetch of the call return. */
  datatype Step = Step(outcome: TokenOutcome, state: TokenState, fetches: nat)

  /** `get_token` as written: a missing token is fetched and stored before its expiry is
      computed; then, if the clock is at or past the expiry, a new token is fetched and
      stored, and its expiry less one second is stored after it. */
  function GetTokenAsWritten(s: TokenState, now: int, first: Result<string>, second: Result<string>,
                             decode: string -> Decoded): (r: Step)
    // No fetch is made exactly when a token is held and the clock has not reached a stored expiry.
    ensures r.fetches == 0 <==> s.token.Some? && (s.expireTime.None? || now < s.expireTime.value)
    ensures r.fetches <= 2
    // A returned token is the one stored afterwards, and an expiry is stored with it.
    ensures r.outcome.Token? ==> r.state.token == Some(r.outcome.value) && r.state.expireTime.Some?
  {
    if s.token.None? then
      match first
      case Err(e) => Step(Failed(e), s, 1)
      case Ok(t) =>
        match GetExpireTime(t, decode)
        case Raised(e) => Step(Failed(e), TokenState(Some(t), s.expireTime), 1)
        case Uncaught => Step(Crashed, TokenState(Some(t), s.expireTime), 1)
        case Expires(at) => Refresh(TokenState(Some(t), Some(at)), now, second, decode, 1)
    else Refresh(s, now, first, decode, 0)
  }

  /** The second half of `get_token`, entered with a token held and `done` fetches made. */
  function Refresh(s: TokenState, now: int, fetched: Result<string>, decode: string -> Decoded, done: nat)
    : (r: Step)
    requires s.token.Some?
    // One more fetch is made exactly when an expiry is stored and the clock has reached it.
    ensures r.fetches == (if s.expireTime.Some? && now >= s.expireTime.value then done + 1 else done)
    ensures r.outcome.Token? ==> r.state.token == Some(r.outcome.value) && r.state.expireTime.Some?
  {
    if s.expireTime.None? then Step(Crashed, s, done)
    else if now < s.expireTime.value then Step(Token(s.token.value), s, done)
    else
      match fetched
      case Err(e) => Step(Failed(e), s, done + 1)
      case Ok(t) =>
        match GetExpireTime(t, decode)
        case Raised(e) => Step(Failed(e), TokenState(Some(t), s.expireTime), done + 1)
        case Uncaught => Step(Crashed, TokenState(Some(t), s.expireTime), done + 1)
        case Expires(at) => Step(Token(t), TokenState(Some(t), Some(at - 1)), done + 1)
  }

  /** The state invariant the design intends: a token is held exactly when its expiry is. */
  predicate Consistent(s: TokenState)
  {
    s.token.Some? <==> s.expireTime.Some?
  }

  /** With no token held, one fetch whose token has a future expiry is made and that token
      is stored with its expiry and returned. */
  lemma FirstCallFetchesOnce(now: int, t: string, second: Result<string>, decode: string -> Decoded)
    requires GetExpireTime(t, decode).Expires? && now < GetExpireTime(t, decode).at
    ensures GetTokenAsWritten(TokenState(None, None), now, Ok(t), second, decode)
            == Step(Token(t), TokenState(Some(t), Some(GetExpireTime(t, decode).at)), 1)
  {
  }

  /** A held token that has not expired is returned with no fetch and no state change. */
  lemma ValidTokenIsReused(s: TokenState, now: int, first: Result<string>, second: Result<string>,
                           decode: string -> Decoded)
    requires s.token.Some? && s.expireTime.Some? && now < s.expireTime.value
    ensures GetTokenAsWritten(s, now, first, second, decode) == Step(Token(s.token.value), s, 0)
  {
  }

  /** A held token at or past its expiry is replaced by one fetch; the new expiry is the new
      token's own expiry less one second. */
  lemma ExpiredTokenIsRefetched(s: TokenState, now: int, t: string, second: Result<string>,
                                decode: string -> Decoded)
    requires s.token.Some? && s.expireTime.Some? && now >= s.expireTime.value
    requires GetExpireTime(t, decode).Expires?
    ensures GetTokenAsWritten(s, now, Ok(t), second, decode)
            == Step(Token(t), TokenState(Some(t), Some(GetExpireTime(t, decode).at - 1)), 1)
  {
  }

  /** A run of `get_token` calls from state `s`: each call gets its clock reading and the
      results of its first and second fetch. The outcomes, one per call, in order. */
  function RunCalls(s: TokenState, calls: seq<(int, Result<string>, Result<string>)>, decode: string -> Decoded)
    : (outcomes: seq<TokenOutcome>)
    ensures |outcomes| == |calls|
    decreases |calls|
  {
    if |calls| == 0 then []
    else
      var r := GetTokenAsWritten(s, calls[0].0, calls[0].1, calls[0].2, decode);
      [r.outcome] + RunCalls(r.state, calls[1..], decode)
  }

  /** A handler holding a token without an expiry crashes on every call, whatever the clock
      and the fetcher give, and never leaves that state. */
  lemma {:induction false} WedgedCrashesForever(s: TokenState, calls: seq<(int, Result<string>, Result<string>)>,
                                                decode: string -> Decoded)
    requires s.token.Some? && s.expireTime.None?
    ensures forall i :: 0 <= i < |calls| ==> RunCalls(s, calls, decode)[i] == Crashed
    decreases |calls|
  {
    if |calls| > 0 {
      WedgedCrashesForever(s, calls[1..], decode);
    }
  }

  /** As written, a first fetched token whose expiry cannot be computed (an error is raised
      or escapes) fails the call and leaves a token without an expiry; from then on every
      call crashes, whatever the clock and the fetcher give. */
  lemma AsWrittenWedgesAfterBadFirstToken(now: int, t: string, second: Result<string>, decode: string -> Decoded,
                                          calls: seq<(int, Result<string>, Result<string>)>)
    requires !GetExpireTime(t, decode).Expires?
    ensures var s1 := GetTokenAsWritten(TokenState(None, None), now, Ok(t), second, decode);
            && (s1.outcome.Failed? || s1.outcome.Crashed?)
            && s1.state == TokenState(Some(t), None)
            && !Consistent(s1.state)
            && forall i :: 0 <= i < |calls| ==> RunCalls(s1.state, calls, decode)[i] == Crashed
  {
    WedgedCrashesForever(TokenState(Some(t), None), calls, decode);
  }

  /** "header.8a.signature" is its three pieces joined with dots. */
  lemma SourceTestTokenJoin()
    ensures JoinDots(["header", "8a", "signature"]) == "header.8a.signature"
  {
    var parts := ["header", "8a", "signature"];
    assert parts[1..] == ["8a", "signature"];
    assert parts[1..][1..] == ["signature"];
    assert JoinDots(["signature"]) == "signature";
    assert JoinDots(["8a", "signature"]) == "8a.signature";
  }

  /** The token of the source's own test, "header.8a.signature", has three segments, and
      its payload "8a" is padded to "8a==" (which decodes to the single byte 0xF1, not valid
      UTF-8). */
  lemma SourceTestTokenPayload()
    ensures SplitDots("header.8a.signature") == ["header", "8a", "signature"]
    ensures var p := SplitDots("header.8a.signature")[1]; p + Padding(p) == "8a=="
  {
    var parts := ["header", "8a", "signature"];
    assert forall i :: 0 <= i < |parts| ==> '.' !in parts[i];
    SourceTestTokenJoin();
    SplitJoin(parts);
    PaddingOfTwo("8a");
  }

  /** A two-character segment is padded with "==". */
  lemma PaddingOfTwo(segment: string)
    requires |segment| == 2
    ensures segment + Padding(segment) == segment + "=="
  {
    var pad := Padding(segment);
    assert |pad| == 2;
    assert pad == "==";
  }

  /** With a decoder that reports the UTF-8 failure of "8a==", the source test's token fails
      the first call with status 500 and wedges the handler. */
  lemma SourceTestTokenWedges(now: int, second: Result<string>, decode: string -> Decoded)
    requires decode("8a==").BadUtf8?
    ensures var s1 := GetTokenAsWritten(TokenState(None, None), now, Ok("header.8a.signature"), second, decode);
            && s1.outcome.Failed? && s1.outcome.error.status == 500
            && !Consistent(s1.state)
  {
    SourceTestTokenPayload();
    DecodeFailureIsInternalError("header.8a.signature", decode);
    AsWrittenWedgesAfterBadFirstToken(now, "header.8a.signature", second, decode, []);
  }

  /** The corrected `get_token`: a fetched token is stored together with its expiry, and
      only once the expiry has been computed. Otherwise as written. */
  function GetTokenCorrected(s: TokenState, now: int, first: Result<string>, second: Result<string>,
                             decode: string -> Decoded): (r: Step)
    requires Consistent(s)
    ensures Consistent(r.state)
    ensures r.outcome.Token? ==> r.state.token == Some(r.outcome.value)
  {
    if s.token.None? then
      match first
      case Err(e) => Step(Failed(e), s, 1)
      case Ok(t) =>
        match GetExpireTime(t, decode)
        case Raised(e) => Step(Failed(e), s, 1)
        case Uncaught => Step(Crashed, s, 1)
        case Expires(at) => RefreshCorrected(TokenState(Some(t), Some(at)), now, second, decode, 1)
    else RefreshCorrected(s, now, first, decode, 0)
  }

  function RefreshCorrected(s: TokenState, now: int, fetched: Result<string>, decode: string -> Decoded,
                            done: nat): (r: Step)
    requires s.token.Some? && s.expireTime.Some?
    ensures Consistent(r.state)
    ensures r.outcome.Token? ==> r.state.token == Some(r.outcome.value)
  {
    if now < s.expireTime.value then Step(Token(s.token.value), s, done)
    else
      match fetched
      case Err(e) => Step(Failed(e), s, done + 1)
      case Ok(t) =>
        match GetExpireTime(t, decode)
        case Raised(e) => Step(Failed(e), s, done + 1)
        case Uncaught => Step(Crashed, s, done + 1)
        case Expires(at) => Step(Token(t), TokenState(Some(t), Some(at - 1)), done + 1)
  }

  /** The corrected handler crashes only when the decoding of a fetched token escapes
      unconverted, so a failed call is retried by the next one instead of wedging it. */
  lemma CorrectedCrashesOnlyOnUncaughtDecode(s: TokenState, now: int, first: Result<string>,
                                             second: Result<string>, decode: string -> Decoded)
    requires Consistent(s)
    ensures GetTokenCorrected(s, now, first, second, decode).outcome == Crashed ==>
              || (first.Ok? && GetExpireTime(first.value, decode) == Uncaught)
              || (second.Ok? && GetExpireTime(second.value, decode) == Uncaught)
  {
  }

  /** Corrected, any first token whose expiry cannot be computed leaves the handler empty,
      and the next call fetches again and returns a good token. */
  lemma CorrectedRecoversAfterBadFirstToken(now: int, later: int, bad: string, t: string, f2: Result<string>,
                                           decode: string -> Decoded)
    requires !GetExpireTime(bad, decode).Expires?
    requires GetExpireTime(t, decode).Expires? && later < GetExpireTime(t, decode).at
    ensures var s1 := GetTokenCorrected(TokenState(None, None), now, Ok(bad), f2, decode);
            && (s1.outcome.Failed? || s1.outcome.Crashed?)
            && s1.state == TokenState(None, None)
            && GetTokenCorrected(s1.state, later, Ok(t), f2, decode).outcome == Token(t)
  {
  }

  /** The handler (`JWTHandler`) with its two fields. */
  class JwtHandler {
    var token: Option<string>
    var expireTime: Option<int>

    function State(): (s: TokenState)
      reads this
    {
      TokenState(token, expireTime)
    }

    /** `__init__`: no token and no expiry. */
    constructor ()
      ensures token == None && expireTime == None
    {
      token := None;
      expireTime := None;
    }

    /** `get_token` as written, one field assignment at a time; `fetches` counts the calls
        to the fetcher, whose successive results are `first` and `second`. */
    method GetToken(now: int, first: Result<string>, second: Result<string>, decode: string -> Decoded)
      returns (r: TokenOutcome, fetches: nat)
      modifies this
      ensures Step(r, State(), fetches) == GetTokenAsWritten(old(State()), now, first, second, decode)
      ensures r.Token? ==> token == Some(r.value)
    {
      fetches := 0;
      if token.None? {
        fetches := 1;
        if first.Err? {
          return Failed(first.error), fetches;
        }
        token := Some(first.value);
        var e := GetExpireTime(first.value, decode);
        if e.Raised? {
          return Failed(e.error), fetches;
        } else if e.Uncaught? {
          return Crashed, fetches;
        }
        expireTime := Some(e.at);
      }
      if expireTime.None? {
        return Crashed, fetches;
      }
      if now >= expireTime.value {
        var fetched := if fetches == 0 then first else second;
        fetches := fetches + 1;
        if fetched.Err? {
          return Failed(fetched.error), fetches;
        }
        token := Some(fetched.value);
        var e := GetExpireTime(fetched.value, decode);
        if e.Raised? {
          return Failed(e.error), fetches;
        } else if e.Uncaught? {
          return Crashed, fetches;
        }
        expireTime := Some(e.at - 1);
      }
      return Token(token.value), fetches;
    }
  }
}
