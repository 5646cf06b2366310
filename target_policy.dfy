/** The target-URL policy (`validateTargetURL`): which URLs a link may carry.

    URL parsing itself (`url.Parse`) is a collaborator: the policy sees its
    result, either a parse error with the error's text or the parsed scheme,
    host (`u.Host`, port included) and hostname (`u.Hostname()`, port and
    IPv6 brackets removed). */
module TargetPolicy {
  import opened Basics

  datatype ParsedUrl =
    | ParseError(message: Bytes)
    | Url(scheme: Bytes, host: Bytes, hostname: Bytes)

  /** `url.Parse`, passed in as a parameter. */
  type UrlParser = Bytes -> ParsedUrl

  /** The four reasons a target is refused, in the order the rules run. */
  datatype TargetError =
    | BadSyntax(message: Bytes)
    | BadScheme
    | EmptyHost
    | LoopbackHost

  datatype Verdict = Accepted | Rejected(error: TargetError)

  const Http: Bytes := Ascii("http")
  const Https: Bytes := Ascii("https")
  const Localhost: Bytes := Ascii("localhost")

  /** The rules, each failing on its own, with no order between them. */
  predicate SchemeAllowed(u: ParsedUrl) requires u.Url? { u.scheme == Http || u.scheme == Https }
  predicate HasHost(u: ParsedUrl) requires u.Url? { u.host != [] }
  predicate IsLocalhost(u: ParsedUrl) requires u.Url? { EqualIgnoringCase(u.hostname, Localhost) }

  /** The policy over a parsed URL. The first rule that fails decides the
      reason; a URL is accepted exactly when every rule holds. */
  function CheckParsed(u: ParsedUrl): (r: Verdict)
    ensures r == Accepted <==> u.Url? && SchemeAllowed(u) && HasHost(u) && !IsLocalhost(u)
    ensures r.Rejected? && r.error.BadSyntax? <==> u.ParseError?
    ensures u.ParseError? ==> r == Rejected(BadSyntax(u.message))
    ensures r == Rejected(BadScheme) <==> u.Url? && !SchemeAllowed(u)
    ensures r == Rejected(EmptyHost) <==> u.Url? && SchemeAllowed(u) && !HasHost(u)
    ensures r == Rejected(LoopbackHost) <==> u.Url? && SchemeAllowed(u) && HasHost(u) && IsLocalhost(u)
  {
    match u
    case ParseError(message) => Rejected(BadSyntax(message))
    case Url(scheme, host, hostname) =>
      if scheme != Http && scheme != Https then Rejected(BadScheme)
      else if host == [] then Rejected(EmptyHost)
      else if Lower(hostname) == Localhost then
        assert IsLocalhost(u) by { LowerIsLocalhost(hostname); }
        Rejected(LoopbackHost)
      else
        assert !IsLocalhost(u) by { LowerIsLocalhost(hostname); }
        Accepted
  }

  /** `validateTargetURL(raw)`: parse, then apply the policy. */
  function ValidateTargetUrl(parse: UrlParser, raw: Bytes): (r: Verdict)
    ensures var u := parse(raw);
      (r == Accepted <==> u.Url? && SchemeAllowed(u) && HasHost(u) && !IsLocalhost(u)) &&
      (u.ParseError? <==> r.Rejected? && r.error.BadSyntax?) &&
      (u.ParseError? ==> r.error.message == u.message)
  {
    CheckParsed(parse(raw))
  }

  /** The text of the error `validateTargetURL` returns. */
  function ErrorText(e: TargetError): (t: Bytes)
    ensures e.BadSyntax? ==> t == e.message
    ensures !e.BadSyntax? ==> t != []
  {
    match e
    case BadSyntax(message) => message
    case BadScheme => Ascii("scheme must be http or https")
    case EmptyHost => Ascii("missing host")
    case LoopbackHost => Ascii("localhost not allowed")
  }

  /** The three policy rules answer with three different texts, so the
      message names the rule that refused the target. */
  lemma PolicyMessagesDistinct(e1: TargetError, e2: TargetError)
    requires !e1.BadSyntax? && !e2.BadSyntax?
    ensures ErrorText(e1) == ErrorText(e2) <==> e1 == e2
  {
    assert ErrorText(BadScheme)[0] != ErrorText(EmptyHost)[0];
    assert ErrorText(BadScheme)[0] != ErrorText(LoopbackHost)[0];
    assert ErrorText(EmptyHost)[0] != ErrorText(LoopbackHost)[0];
  }

  /** Lower-casing a hostname gives "localhost" exactly when the hostname is
      "localhost" in some mix of upper and lower case. */
  lemma LowerIsLocalhost(h: Bytes)
    ensures Lower(h) == Localhost <==> EqualIgnoringCase(h, Localhost)
  {
    var l := Lower(h);
    assert forall i :: 0 <= i < |Localhost| ==> LowerByte(Localhost[i]) == Localhost[i];
    if EqualIgnoringCase(h, Localhost) {
      assert forall i :: 0 <= i < |h| ==> l[i] == Localhost[i];
    }
  }

  /** The loopback rule is narrow: a loopback IP literal passes the policy. */
  lemma LoopbackLiteralAccepted()
    ensures CheckParsed(Url(Http, Ascii("127.0.0.1"), Ascii("127.0.0.1"))) == Accepted
  {
    var h := Ascii("127.0.0.1");
    assert LowerByte(h[0]) != LowerByte(Localhost[0]);
  }
}
