/** The decision logic of the two endpoints and of the bearer gate.

    `/v1/qr` (`qrHandler`) verifies a capability link and only then hands the
    target to the QR renderer; `/v1/sign` (`signHandler`) mints a link and is
    reachable only through `requireBearer`. Each handler is a chain of guards
    with early returns; here each is a function from the request's query
    values (an absent value is the empty string, as `q.Get` returns it), the
    current Unix time `now` and the collaborators (URL parser, MAC) to an
    outcome. Rendering the image and writing the response are not modelled:
    the outcomes `Render` and `Minted` stand for them. */
module Handlers {
  import opened Basics
  import opened Base64Url
  import opened Decimal
  import opened TargetPolicy
  import opened Token

  /** The outcomes of `qrHandler`, one per early return, and `Render` when
      every guard passes. */
  datatype VerifyOutcome =
    | Missing
    | BadExp
    | Expired
    | BadTarget(error: TargetError)
    | BadSig
    | Render(target: Bytes)

  /** The longest lifetime a link may be minted with: one day. */
  const MaxTtl: int := 24 * 3600

  /** A minted link: the three query values of `/v1/qr?u=..&exp=..&sig=..`
      before URL escaping. */
  datatype Link = Link(target: Bytes, exp: Bytes, sig: Bytes)

  /** The outcomes of `signHandler`. */
  datatype MintOutcome =
    | MintMissing
    | BadTtl
    | MintBadTarget(error: TargetError)
    | Minted(link: Link)

  /** The outcomes of `requireBearer`. */
  datatype GateOutcome = NoAuthorization | WrongCredential | Admitted

  /** An error answer: the HTTP status and the message `http.Error` writes. */
  datatype HttpError = HttpError(status: int, message: Bytes)

  const StatusBadRequest: int := 400
  const StatusUnauthorized: int := 401

  /** The `exp` value as a positive expiry time, or None when `qrHandler`
      answers "invalid exp". */
  function ExpiryOf(exp: Bytes): (r: Option<int>)
    ensures r.Some? <==> ParseInt(exp).Some? && ParseInt(exp).value > 0
    ensures r.Some? ==> r == ParseInt(exp)
  {
    match ParseInt(exp)
    case Some(n) => if n <= 0 then None else Some(n)
    case None => None
  }

  /** `qrHandler` up to the render call. The guards run in a fixed order and
      the first that fails decides the outcome: a missing value, then an
      unparsable or non-positive expiry, then expiry against `now` (inclusive:
      a link is still good at its expiry second), then the target policy,
      then the signature, recomputed over the expiry text as presented. */
  function Verify(parse: UrlParser, mac: Mac, secret: Bytes, now: int, u: Bytes, exp: Bytes, sig: Bytes): (r: VerifyOutcome)
    ensures r == Missing <==> u == [] || exp == [] || sig == []
    ensures r == BadExp <==> u != [] && exp != [] && sig != [] && ExpiryOf(exp).None?
    ensures r == Expired <==>
      u != [] && exp != [] && sig != [] && ExpiryOf(exp).Some? && now > ExpiryOf(exp).value
    ensures r.BadTarget? <==>
      u != [] && exp != [] && sig != [] && ExpiryOf(exp).Some? && now <= ExpiryOf(exp).value &&
      ValidateTargetUrl(parse, u).Rejected?
    ensures r.BadTarget? ==> ValidateTargetUrl(parse, u) == Rejected(r.error)
    ensures r == BadSig <==>
      u != [] && exp != [] && sig != [] && ExpiryOf(exp).Some? && now <= ExpiryOf(exp).value &&
      ValidateTargetUrl(parse, u) == Accepted && DecodeString(sig) != Some(mac(secret, MacInput(u, exp)))
    ensures r.Render? <==>
      u != [] && exp != [] && sig != [] && ExpiryOf(exp).Some? && now <= ExpiryOf(exp).value &&
      ValidateTargetUrl(parse, u) == Accepted && DecodeString(sig) == Some(mac(secret, MacInput(u, exp)))
    ensures r.Render? ==> r.target == u
  {
    if u == [] || exp == [] || sig == [] then Missing
    else
      match ExpiryOf(exp)
      case None => BadExp
      case Some(expUnix) =>
        if now > expUnix then Expired
        else
          match ValidateTargetUrl(parse, u)
          case Rejected(e) => BadTarget(e)
          case Accepted =>
            var expected := Sign(mac, secret, u, exp);
            if !SecureEqual(sig, expected) then BadSig
            else Render(u)
  }

  /** The error `qrHandler` answers with; `Render` answers with the image instead. */
  function VerifyError(r: VerifyOutcome): (e: HttpError)
    requires !r.Render?
    ensures e.status == (if r == Expired || r == BadSig then StatusUnauthorized else StatusBadRequest)
  {
    match r
    case Missing => HttpError(StatusBadRequest, Ascii("missing u, exp, or sig"))
    case BadExp => HttpError(StatusBadRequest, Ascii("invalid exp"))
    case Expired => HttpError(StatusUnauthorized, Ascii("expired"))
    case BadTarget(e) => HttpError(StatusBadRequest, Ascii("invalid target url: ") + ErrorText(e))
    case BadSig => HttpError(StatusUnauthorized, Ascii("bad signature"))
  }

  /** The `ttl` value as a lifetime in seconds, or None when `signHandler`
      answers "invalid ttl (1..86400)". */
  function TtlOf(ttlStr: Bytes): (r: Option<int>)
    ensures r.Some? <==> ParseInt(ttlStr).Some? && 1 <= ParseInt(ttlStr).value <= MaxTtl
    ensures r.Some? ==> r == ParseInt(ttlStr)
  {
    match ParseInt(ttlStr)
    case Some(ttl) => if ttl <= 0 || ttl > MaxTtl then None else Some(ttl)
    case None => None
  }

  /** The link for a target that lives `ttl` seconds from `now`: the expiry
      is written in decimal and signed together with the target. */
  function Issue(mac: Mac, secret: Bytes, now: int, u: Bytes, ttl: int): (link: Link)
    ensures link.target == u && link.exp == FormatInt(now + ttl)
    ensures DecodeString(link.sig) == Some(mac(secret, MacInput(u, link.exp)))
    ensures link.sig == Sign(mac, secret, u, link.exp)
  {
    var expStr := FormatInt(now + ttl);
    Link(u, expStr, Sign(mac, secret, u, expStr))
  }

  /** `signHandler` up to building the link: missing values, then the ttl
      (an integer in 1..86400), then the target policy; on success the expiry
      is `now + ttl`, written in decimal, and signed together with the target. */
  function Mint(parse: UrlParser, mac: Mac, secret: Bytes, now: int, u: Bytes, ttlStr: Bytes): (r: MintOutcome)
    ensures r == MintMissing <==> u == [] || ttlStr == []
    ensures r == BadTtl <==> u != [] && ttlStr != [] && TtlOf(ttlStr).None?
    ensures r.MintBadTarget? <==>
      u != [] && ttlStr != [] && TtlOf(ttlStr).Some? && ValidateTargetUrl(parse, u).Rejected?
    ensures r.MintBadTarget? ==> ValidateTargetUrl(parse, u) == Rejected(r.error)
    ensures r.Minted? ==>
      u != [] && TtlOf(ttlStr).Some? && ValidateTargetUrl(parse, u) == Accepted &&
      r.link.target == u && r.link.exp == FormatInt(now + TtlOf(ttlStr).value) &&
      DecodeString(r.link.sig) == Some(mac(secret, MacInput(u, r.link.exp))) &&
      r.link.sig == Sign(mac, secret, u, r.link.exp)
  {
    if u == [] || ttlStr == [] then MintMissing
    else
      match TtlOf(ttlStr)
      case None => BadTtl
      case Some(ttl) =>
        match ValidateTargetUrl(parse, u)
        case Rejected(e) => MintBadTarget(e)
        case Accepted => Minted(Issue(mac, secret, now, u, ttl))
  }

  /** The error `signHandler` answers with; `Minted` answers with the link instead. */
  function MintError(r: MintOutcome): (e: HttpError)
    requires !r.Minted?
    ensures e.status == StatusBadRequest
  {
    match r
    case MintMissing => HttpError(StatusBadRequest, Ascii("missing u or ttl"))
    case BadTtl => HttpError(StatusBadRequest, Ascii("invalid ttl (1..86400)"))
    case MintBadTarget(e) => HttpError(StatusBadRequest, Ascii("invalid target url: ") + ErrorText(e))
  }

  /** `requireBearer(token, next)` applied to the Authorization header value. */
  function Gate(token: Bytes, authorization: Bytes): (g: GateOutcome)
    ensures g == NoAuthorization <==> authorization == []
    ensures g == WrongCredential <==> authorization != [] && authorization != Ascii("Bearer ") + token
    ensures g == Admitted <==> authorization == Ascii("Bearer ") + token
  {
    if authorization == [] then NoAuthorization
    else if authorization != Ascii("Bearer ") + token then WrongCredential
    else Admitted
  }

  /** The error `requireBearer` answers with when it does not call `next`. */
  function GateError(g: GateOutcome): (e: HttpError)
    requires !g.Admitted?
    ensures e.status == StatusUnauthorized
  {
    match g
    case NoAuthorization => HttpError(StatusUnauthorized, Ascii("missing Authorization header"))
    case WrongCredential => HttpError(StatusUnauthorized, Ascii("unauthorized"))
  }

  /** The result of a request to `/v1/sign`: refused at the gate, or handled by `signHandler`. */
  datatype SignResult = Refused(gate: GateOutcome) | Handled(outcome: MintOutcome)

  /** `/v1/sign`: the gate wraps the mint handler. */
  function SignEndpoint(token: Bytes, authorization: Bytes, parse: UrlParser, mac: Mac, secret: Bytes,
                        now: int, u: Bytes, ttlStr: Bytes): (r: SignResult)
    ensures r.Handled? <==> Gate(token, authorization) == Admitted
    ensures r.Handled? ==> r.outcome == Mint(parse, mac, secret, now, u, ttlStr)
    ensures r.Refused? ==> r.gate == Gate(token, authorization) && r.gate != Admitted
  {
    match Gate(token, authorization)
    case Admitted => Handled(Mint(parse, mac, secret, now, u, ttlStr))
    case g => Refused(g)
  }

  /** The mint handler is reached exactly when the header is "Bearer " followed
      by the token; an empty header is refused as missing. */
  lemma GateAdmitsExactly(token: Bytes, authorization: Bytes, parse: UrlParser, mac: Mac, secret: Bytes,
                          now: int, u: Bytes, ttlStr: Bytes)
    ensures var r := SignEndpoint(token, authorization, parse, mac, secret, now, u, ttlStr);
      (r.Handled? <==> authorization == Ascii("Bearer ") + token) &&
      (r.Handled? ==> r.outcome == Mint(parse, mac, secret, now, u, ttlStr)) &&
      (authorization == [] ==> r == Refused(NoAuthorization))
  {
    assert |Ascii("Bearer ") + token| >= 7;
  }

  /** A minted link verifies, with the same secret and parser, at every time
      up to and including its expiry, provided `now` lies after the epoch and
      the expiry fits a 64-bit integer. */
  lemma MintThenVerify(parse: UrlParser, mac: Mac, secret: Bytes, now: int, u: Bytes, ttlStr: Bytes, later: int)
    requires 0 <= now <= MaxInt64 - MaxTtl
    requires Mint(parse, mac, secret, now, u, ttlStr).Minted?
    requires later <= now + TtlOf(ttlStr).value
    ensures var link := Mint(parse, mac, secret, now, u, ttlStr).link;
      Verify(parse, mac, secret, later, link.target, link.exp, link.sig) == Render(u)
  {
    var ttl := TtlOf(ttlStr).value;
    var link := Issue(mac, secret, now, u, ttl);
    assert Mint(parse, mac, secret, now, u, ttlStr).link == link;
    assert |link.sig| == 43;
    ParseFormat(now + ttl);
    assert ExpiryOf(link.exp) == Some(now + ttl);
  }

  /** The expiry check is inclusive: at the expiry second a link passes it,
      one second later it is expired. */
  lemma ExpiryInclusive(parse: UrlParser, mac: Mac, secret: Bytes, u: Bytes, exp: Bytes, sig: Bytes)
    requires u != [] && sig != [] && ExpiryOf(exp).Some?
    ensures var t := ExpiryOf(exp).value;
      Verify(parse, mac, secret, t, u, exp, sig) != Expired &&
      Verify(parse, mac, secret, t + 1, u, exp, sig) == Expired
  {
  }

  /** A signature whose decoded bytes differ from the expected MAC is never
      accepted, whatever bits were flipped. */
  lemma TamperedSignatureRejected(parse: UrlParser, mac: Mac, secret: Bytes, now: int, u: Bytes, exp: Bytes, d: Bytes)
    requires d != mac(secret, MacInput(u, exp))
    ensures !Verify(parse, mac, secret, now, u, exp, Encode(d)).Render?
  {
    DecodeEncode(d);
  }

  /** The signature binds the target and the expiry text together. Two links
      whose expiry texts both parse have different signed messages as soon as
      they differ in the target, in the expiry text, or in both; so the
      signature minted for one link admits another exactly when the MAC of
      the two messages coincides. This covers an expiry respelled with the
      same value (a leading '+' or zero) as much as a changed target. */
  lemma SignatureBindsLink(parse: UrlParser, mac: Mac, secret: Bytes, now: int,
                           u1: Bytes, e1: Bytes, u2: Bytes, e2: Bytes)
    requires ParseInt(e1).Some? && ParseInt(e2).Some?
    ensures (u1, e1) != (u2, e2) ==> MacInput(u1, e1) != MacInput(u2, e2)
    ensures (u2 != [] && e2 != [] && ExpiryOf(e2).Some? && now <= ExpiryOf(e2).value &&
             ValidateTargetUrl(parse, u2) == Accepted) ==>
      (Verify(parse, mac, secret, now, u2, e2, Sign(mac, secret, u1, e1)).Render? <==>
       mac(secret, MacInput(u1, e1)) == mac(secret, MacInput(u2, e2)))
  {
    ParsedHasNoNewLine(e1);
    ParsedHasNoNewLine(e2);
    MacInputInjective(u1, e1, u2, e2);
  }

  /** The verifier sees the MAC only at the message built from the presented
      target and expiry text: two MACs that agree there give the same outcome. */
  lemma VerifyDependsOnPresentedMessage(parse: UrlParser, mac1: Mac, mac2: Mac, secret: Bytes, now: int,
                                        u: Bytes, exp: Bytes, sig: Bytes)
    requires mac1(secret, MacInput(u, exp)) == mac2(secret, MacInput(u, exp))
    ensures Verify(parse, mac1, secret, now, u, exp, sig) == Verify(parse, mac2, secret, now, u, exp, sig)
  {
  }

  /** Other spellings of a good signature are accepted as well: a line break
      inserted anywhere, or a different value in the two spare bits of the
      last symbol. */
  lemma SignatureSpellingsAccepted(parse: UrlParser, mac: Mac, secret: Bytes, now: int, u: Bytes, exp: Bytes,
                                   k: nat, c: Byte, j: int)
    requires Verify(parse, mac, secret, now, u, exp, Sign(mac, secret, u, exp)).Render?
    requires k <= 43 && IsLineBreak(c) && 0 < j < 4
    ensures var sig := Sign(mac, secret, u, exp);
      Verify(parse, mac, secret, now, u, exp, sig[..k] + [c] + sig[k..]).Render?
    ensures Verify(parse, mac, secret, now, u, exp, Respelled(mac(secret, MacInput(u, exp)), j)).Render?
  {
    var sig := Sign(mac, secret, u, exp);
    LineBreakIgnored(sig, k, c);
    SignatureSpellings(mac, secret, u, exp, j);
    assert |Respelled(mac(secret, MacInput(u, exp)), j)| == 43;
  }

  /** Verification has no hidden state: the outcome depends only on the
      arguments, so presenting a link again at the same time gives the same
      answer, and a link that expired stays expired. */
  lemma ExpiredStaysExpired(parse: UrlParser, mac: Mac, secret: Bytes, now: int, later: int,
                            u: Bytes, exp: Bytes, sig: Bytes)
    requires Verify(parse, mac, secret, now, u, exp, sig) == Expired && now <= later
    ensures Verify(parse, mac, secret, later, u, exp, sig) == Expired
  {
  }

  /** The two failures a link holder could learn the most from both answer
      401, but their messages differ, so a caller can tell an expired link
      from a forged one. */
  lemma ExpiredAndBadSigDistinguishable()
    ensures VerifyError(Expired).status == VerifyError(BadSig).status == StatusUnauthorized
    ensures VerifyError(Expired).message != VerifyError(BadSig).message
  {
    assert |VerifyError(Expired).message| == 7;
  }
}
