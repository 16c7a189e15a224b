/** The access guard `isLoggedIn` (`src/app/middlewares/authUser.js`): the bearer token is
    taken from the `authorization` header and verified under the access secret; what it
    sets as `req.user` is the `Ok` value. */
module AuthUser {
  import opened Common
  import opened Foreign

  /** `s.split(" ")`: the pieces between single spaces, empty pieces included. */
  function SplitSpace(s: string): (r: seq<string>)
    ensures |r| >= 1
    ensures |r| == 1 <==> ' ' !in s
    ensures ' ' !in s ==> r == [s]
    ensures forall k :: 0 <= k < |r| ==> ' ' !in r[k]
  {
    if |s| == 0 then [""]
    else
      var rest := SplitSpace(s[1..]);
      assert s == [s[0]] + s[1..];
      if s[0] == ' ' then [""] + rest
      else [[s[0]] + rest[0]] + rest[1..]
  }

  /** Splitting at a space joins the pieces on either side. */
  lemma {:induction false} SplitSpaceJoin(a: string, b: string)
    ensures SplitSpace(a + " " + b) == SplitSpace(a) + SplitSpace(b)
  {
    if |a| == 0 {
      assert a + " " + b == [' '] + b;
      assert (a + " " + b)[1..] == b;
    } else {
      assert (a + " " + b)[1..] == a[1..] + " " + b;
      SplitSpaceJoin(a[1..], b);
    }
  }

  /** `header.split(" ")[1]`: the second piece, absent when the header has no space. */
  function BearerToken(header: string): (r: Option<string>)
    ensures r.None? <==> ' ' !in header
    ensures r.Some? ==> ' ' !in r.value
  {
    var parts := SplitSpace(header);
    if |parts| < 2 then None else Some(parts[1])
  }

  /** The token is the word after the first space, whatever word stands before it. */
  lemma BearerTokenIsSecondWord(scheme: string, token: string, rest: string)
    requires ' ' !in scheme && ' ' !in token
    ensures BearerToken(scheme + " " + token) == Some(token)
    ensures BearerToken(scheme + " " + token + " " + rest) == Some(token)
  {
    SplitSpaceJoin(scheme, token);
    SplitSpaceJoin(scheme + " " + token, rest);
  }

  /** `req.headers.authorization || req.headers.Authorization`. */
  function IncomingHeader(authorization: Option<string>, capitalised: Option<string>): (r: Option<string>)
    ensures Present(r) <==> Present(authorization) || Present(capitalised)
    ensures Present(authorization) ==> r == authorization
    ensures !Present(authorization) ==> r == capitalised
  {
    if Present(authorization) then authorization else capitalised
  }

  /** `isLoggedIn`. Every failure to verify (expired or otherwise invalid) collapses to 401;
      a falsy decoded payload is refused with 403; otherwise the decoded claims are passed on. */
  function IsLoggedIn(authorization: Option<string>, capitalised: Option<string>, verify: string -> Verdict)
    : (r: Response<Claims>)
    ensures !r.Redirect?
    ensures r == Fail(401, KeyMissing) <==> !Present(authorization) && !Present(capitalised)
    ensures var header := IncomingHeader(authorization, capitalised);
      r == Fail(401, TokenMissing) <==> Present(header) && !Present(BearerToken(header.value))
    ensures var header := IncomingHeader(authorization, capitalised);
      r == Fail(401, KeyExpired) <==>
        Present(header) && Present(BearerToken(header.value))
        && (verify(BearerToken(header.value).value) == Expired || verify(BearerToken(header.value).value) == Invalid)
    ensures var header := IncomingHeader(authorization, capitalised);
      r == Fail(403, FalsyPayload) <==>
        Present(header) && Present(BearerToken(header.value))
        && verify(BearerToken(header.value).value) == Verified(Falsy)
    ensures var header := IncomingHeader(authorization, capitalised);
      r.Ok? <==>
        Present(header) && Present(BearerToken(header.value))
        && verify(BearerToken(header.value).value).Verified?
        && verify(BearerToken(header.value).value).payload.Object?
    ensures r.Ok? ==>
      var token := BearerToken(IncomingHeader(authorization, capitalised).value).value;
      verify(token) == Verified(Object(r.value))
  {
    var header := IncomingHeader(authorization, capitalised);
    if !Present(header) then Fail(401, KeyMissing)
    else
      var token := BearerToken(header.value);
      if !Present(token) then Fail(401, TokenMissing)
      else match verify(token.value)
        case Expired => Fail(401, KeyExpired)
        case Invalid => Fail(401, KeyExpired)
        case Verified(Falsy) => Fail(403, FalsyPayload)
        case Verified(Object(decoded)) => Ok(decoded)
  }

  /** The scheme word is never checked: any space-free word before the token gives the
      same answer. */
  lemma SchemeNeverChecked(scheme1: string, scheme2: string, token: string, verify: string -> Verdict)
    requires ' ' !in scheme1 && ' ' !in scheme2 && ' ' !in token
    ensures IsLoggedIn(Some(scheme1 + " " + token), None, verify)
      == IsLoggedIn(Some(scheme2 + " " + token), None, verify)
  {
    BearerTokenIsSecondWord(scheme1, token, "");
    BearerTokenIsSecondWord(scheme2, token, "");
  }

  /** A header without a space yields no token: 401. */
  lemma HeaderWithoutSpaceRefused(header: string, verify: string -> Verdict)
    requires header != "" && ' ' !in header
    ensures IsLoggedIn(Some(header), None, verify) == Fail(401, TokenMissing)
  {
  }

  /** Two spaces after the scheme make the second piece empty: 401. */
  lemma DoubleSpaceRefused(scheme: string, token: string, verify: string -> Verdict)
    requires ' ' !in scheme
    ensures IsLoggedIn(Some(scheme + "  " + token), None, verify) == Fail(401, TokenMissing)
  {
    var header := scheme + "  " + token;
    assert header == scheme + " " + (" " + token);
    SplitSpaceJoin(scheme, " " + token);
    assert " " + token == "" + " " + token;
    SplitSpaceJoin("", token);
    assert SplitSpace(header)[1] == "";
  }
}
