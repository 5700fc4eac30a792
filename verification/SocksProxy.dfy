/**
  From URL to proxy settings and back (mosquitto__parse_socks_url,
  connectivity/mqtt/mqtt_common.c): the split text with its credentials decoded and its port read.
 */
module SocksProxy {
  import opened Common
  import opened Decimal
  import opened UrlDecode
  import opened SocksUrl

  datatype Proxy = Proxy(username: Option<string>, password: Option<string>, host: string, port: int)

  /** Undefined: the port is a number that atoi has no defined result for. */
  datatype Outcome = Rejected | Undefined | Accepted(proxy: Proxy)

  const SCHEME := "socks5h://"
  const DEFAULT_PORT := 1080

  function CharGlyph(c: char): Glyph {
    if '0' <= c <= '9' then Digit(c as int - '0' as int)
    else if c == '+' then Plus
    else if c == '-' then Minus
    else if c == ' ' || '\t' <= c <= '\r' then Space
    else Other
  }

  function GlyphsOfText(s: string): (g: seq<Glyph>)
    ensures |g| == |s|
  {
    seq(|s|, i requires 0 <= i < |s| => CharGlyph(s[i]))
  }

  function DecodeIfAny(s: Option<string>): Option<Option<string>> {
    match s
    case None => Some(None)
    case Some(t) => match Decode(t) case None => None case Some(d) => Some(Some(d))
  }

  function PortOf(port: Option<string>): Option<int> {
    match port
    case None => Some(DEFAULT_PORT)
    case Some(t) => Atoi(GlyphsOfText(t))
  }

  function Settle(p: Parts): Outcome {
    match (DecodeIfAny(p.username), DecodeIfAny(p.password))
    case (Some(username), Some(password)) =>
      (match PortOf(p.port)
       case None => Undefined
       case Some(n) => if n < 1 || n > 65535 then Rejected else Accepted(Proxy(username, password, p.host, n)))
    case _ => Rejected
  }

  function ParseUrl(url: string): Outcome {
    if !(SCHEME <= url) then Rejected
    else
      match Split(url[|SCHEME|..])
      case None => Rejected
      case Some(p) => Settle(p)
  }

  /** The copy of a component on the heap, decoded in place. */
  method DecodeCopy(s: Option<string>) returns (ok: bool, r: Option<string>)
    ensures ok == DecodeIfAny(s).Some? && (ok ==> Some(r) == DecodeIfAny(s))
  {
    if s.None? {
      return true, None;
    }
    var n := |s.value|;
    var str := new char[n + 1](i requires 0 <= i < n + 1 => if i < n then s.value[i] else '\0');
    assert str[..n] == s.value;
    var len;
    ok, len := UrlDecode.UrlDecode(str, n);
    r := if ok then Some(str[..len]) else None;
  }

  method ParseSocksUrl(url: string) returns (r: Outcome)
    ensures r == ParseUrl(url)
  {
    if !(SCHEME <= url) {
      return Rejected;
    }
    var parts := SplitLoop(url[|SCHEME|..]);
    if parts.None? {
      return Rejected;
    }
    var ok, username := DecodeCopy(parts.value.username);
    if !ok {
      return Rejected;
    }
    var password;
    ok, password := DecodeCopy(parts.value.password);
    if !ok {
      return Rejected;
    }
    var port := PortOf(parts.value.port);
    if port.None? {
      return Undefined;
    }
    if port.value < 1 || port.value > 65535 {
      return Rejected;
    }
    r := Accepted(Proxy(username, password, parts.value.host, port.value));
  }

  // ----- printing -----

  function DigitText(ds: seq<nat>): (s: string)
    requires AllDigits(ds)
    ensures |s| == |ds| && forall i :: 0 <= i < |s| ==> s[i] == ('0' as int + ds[i]) as char
  {
    seq(|ds|, i requires 0 <= i < |ds| => ('0' as int + ds[i]) as char)
  }

  function LoginText(p: Proxy): string {
    match (p.username, p.password)
    case (Some(u), None) => Encode(u) + "@"
    case (Some(u), Some(w)) => Encode(u) + ":" + Encode(w) + "@"
    case _ => ""
  }

  function PortText(port: nat): string {
    ":" + DigitText(DigitsOf(port))
  }

  function Print(p: Proxy, withPort: bool): string
    requires 0 <= p.port
  {
    SCHEME + Body(p, withPort)
  }

  /** Characters the pass never stops at, and at least one of them. */
  ghost predicate Atomic(s: string) {
    s != "" && forall i :: 0 <= i < |s| ==> !Separator(s[i])
  }

  /** What each of the six URL forms can express. */
  ghost predicate Printable(p: Proxy, withPort: bool) {
    && (p.password.Some? ==> p.username.Some? && p.password.value != "")
    && (p.username.Some? ==> p.username.value != "")
    && Atomic(p.host) && 1 <= p.port <= 65535
    && (withPort || p.port == DEFAULT_PORT)
  }

  // ----- the round trip -----

  lemma FindIs(s: string, c: char, from: nat, k: nat)
    requires from <= |s| && FirstAt(s, c, from, k)
    ensures Find(s, c, from) == k
  {
  }

  ghost predicate PortPart(t: string, port: Option<string>) {
    match port
    case None => t == ""
    case Some(p) => Atomic(p) && t == ":" + p
  }

  lemma GrammarHost(host: string, t: string, port: Option<string>)
    requires Atomic(host) && PortPart(t, port)
    ensures Grammar(host + t) == Some(Parts(None, None, host, port))
  {
    var s := host + t;
    FindIs(s, '@', 0, |s|);
    FindIs(s, ':', 0, |host|);
    assert s[..|s|] == s && s[..|host|] == host;
    if port.Some? {
      assert s[|host| + 1..|s|] == port.value;
      assert s[|host| + 1] == port.value[0];
    }
  }

  lemma HostPart(login: string, host: string, t: string, port: Option<string>)
    requires Atomic(host) && PortPart(t, port)
    ensures var s := login + host + t;
            HostAndPort(s, |login|) == Some((host, port)) && Find(s, '@', |login|) == |s|
  {
    var s, b := login + host + t, |login|;
    FindIs(s, '@', b, |s|);
    FindIs(s, ':', b, b + |host|);
    assert s[b..b + |host|] == host;
    if port.Some? {
      FindIs(s, ':', b + |host| + 1, |s|);
      assert s[b + |host| + 1..] == port.value;
    } else {
      assert s[b..] == host;
    }
  }

  lemma NamePart(u: string, w: Option<string>, rest: string)
    requires Atomic(u) && (w.Some? ==> Atomic(w.value))
    ensures var left := if w.Some? then u + ":" + w.value else u;
            var s := left + ("@" + rest);
            NameAndRest(s, |left|) == Some((u, w)) && Find(s, '@', 0) == |left|
  {
    var left := if w.Some? then u + ":" + w.value else u;
    var s := left + ("@" + rest);
    FindIs(s, '@', 0, |left|);
    assert s[..|left|] == left;
    if w.Some? {
      FindIs(s, ':', 0, |u|);
      assert s[..|u|] == u && s[|u| + 1..|left|] == w.value;
    }
  }

  lemma GrammarLogin(u: string, w: Option<string>, host: string, t: string, port: Option<string>)
    requires Atomic(u) && (w.Some? ==> Atomic(w.value)) && Atomic(host) && PortPart(t, port)
    ensures var left := if w.Some? then u + ":" + w.value else u;
            Grammar(left + "@" + host + t) == Some(Parts(Some(u), w, host, port))
  {
    var left := if w.Some? then u + ":" + w.value else u;
    var s := left + "@" + host + t;
    assert s == left + ("@" + (host + t));
    NamePart(u, w, host + t);
    HostPart(left + "@", host, t, port);
    assert s == (left + "@") + host + t;
  }

  lemma EncodedIsAtomic(s: string)
    requires s != ""
    ensures Atomic(Encode(s))
  {
  }

  lemma PortReadsBack(n: nat)
    requires n <= 65535
    ensures Atomic(DigitText(DigitsOf(n))) && Atoi(GlyphsOfText(DigitText(DigitsOf(n)))) == Some(n)
  {
    DecimalText(n);
  }

  lemma DecimalText(n: nat)
    requires n < 0x8000_0000
    ensures Atomic(DigitText(DigitsOf(n))) && Atoi(GlyphsOfText(DigitText(DigitsOf(n)))) == Some(n)
  {
    var ds := DigitsOf(n);
    assert GlyphsOfText(DigitText(ds)) == GlyphsOf(ds);
    StrtolOfDigits(ds);
    ValueOfDigits(n);
  }

  function Mangled(s: Option<string>): Option<string> {
    match s case None => None case Some(t) => Some(AtToColon(t))
  }

  function EncodeIfAny(s: Option<string>): Option<string> {
    match s case None => None case Some(t) => Some(Encode(t))
  }

  function PrintedPort(port: nat, withPort: bool): Option<string> {
    if withPort then Some(DigitText(DigitsOf(port))) else None
  }

  function Body(p: Proxy, withPort: bool): string
    requires 0 <= p.port
  {
    LoginText(p) + p.host + if withPort then PortText(p.port) else ""
  }

  lemma PrintedPortPart(port: nat, withPort: bool)
    requires port <= 65535
    ensures PortPart(if withPort then PortText(port) else "", PrintedPort(port, withPort))
  {
    PortReadsBack(port);
  }

  lemma SplitOfBody(p: Proxy, withPort: bool)
    requires Printable(p, withPort)
    ensures Split(Body(p, withPort)) ==
            Some(Parts(EncodeIfAny(p.username), EncodeIfAny(p.password), p.host, PrintedPort(p.port, withPort)))
  {
    var t := if withPort then PortText(p.port) else "";
    PrintedPortPart(p.port, withPort);
    SplitIsGrammar(Body(p, withPort));
    GrammarOfBody(p, t, PrintedPort(p.port, withPort));
  }

  lemma GrammarOfBody(p: Proxy, t: string, port: Option<string>)
    requires (p.username.Some? ==> p.username.value != "") && Atomic(p.host) && PortPart(t, port)
    requires p.password.Some? ==> p.username.Some? && p.password.value != ""
    ensures Grammar(LoginText(p) + p.host + t) ==
            Some(Parts(EncodeIfAny(p.username), EncodeIfAny(p.password), p.host, port))
  {
    if p.username.Some? {
      GrammarOfLogin(p, t, port);
    } else {
      assert "" + p.host + t == p.host + t;
      GrammarHost(p.host, t, port);
    }
  }

  lemma GrammarOfLogin(p: Proxy, t: string, port: Option<string>)
    requires p.username.Some? && p.username.value != "" && (p.password.Some? ==> p.password.value != "")
    requires Atomic(p.host) && PortPart(t, port)
    ensures Grammar(LoginText(p) + p.host + t) ==
            Some(Parts(EncodeIfAny(p.username), EncodeIfAny(p.password), p.host, port))
  {
    EncodedIsAtomic(p.username.value);
    if p.password.Some? {
      EncodedIsAtomic(p.password.value);
    }
    GrammarLogin(Encode(p.username.value), EncodeIfAny(p.password), p.host, t, port);
  }

  lemma DecodeOfEncodeIfAny(s: Option<string>)
    ensures DecodeIfAny(EncodeIfAny(s)) == Some(Mangled(s))
  {
    if s.Some? {
      DecodeOfEncode(s.value);
    }
  }

  /** Every printable proxy, in each of the six forms, is parsed back; only '@' in a credential
      comes back as ':'. */
  lemma ParseOfPrint(p: Proxy, withPort: bool)
    requires Printable(p, withPort)
    ensures ParseUrl(Print(p, withPort)) ==
            Accepted(p.(username := Mangled(p.username), password := Mangled(p.password)))
  {
    SplitOfBody(p, withPort);
    DecodeOfEncodeIfAny(p.username);
    DecodeOfEncodeIfAny(p.password);
    PortReadsBack(p.port);
    assert Print(p, withPort)[|SCHEME|..] == Body(p, withPort);
  }

  ghost predicate Without(s: Option<string>, c: char) {
    s.Some? ==> c !in s.value
  }

  /** Parsing undoes printing exactly when no credential contains '@'. */
  lemma ParseUndoesPrintExactly(p: Proxy, withPort: bool)
    requires Printable(p, withPort)
    ensures ParseUrl(Print(p, withPort)) == Accepted(p) <==> Without(p.username, '@') && Without(p.password, '@')
  {
    ParseOfPrint(p, withPort);
    if p.username.Some? {
      AtToColonIdentity(p.username.value);
    }
    if p.password.Some? {
      AtToColonIdentity(p.password.value);
    }
  }

  // ----- what is accepted -----

  /** The characters of a port number, and no others. */
  lemma CharGlyphExactly(c: char)
    ensures CharGlyph(c).Digit? <==> c in "0123456789"
    ensures CharGlyph(c).Digit? ==> c == "0123456789"[CharGlyph(c).value]
    ensures CharGlyph(c).Space? <==> c in " \t\n\r" || c as int == 11 || c as int == 12
    ensures (CharGlyph(c).Plus? <==> c == '+') && (CharGlyph(c).Minus? <==> c == '-')
  {
    assert "0123456789" == ['0', '1', '2', '3', '4', '5', '6', '7', '8', '9'];
  }

  /** The verdict on a port: 1080 without one, and otherwise a number from 1 to 65535. */
  function Verdict(username: Option<string>, password: Option<string>, host: string, port: Option<string>): Outcome {
    match port
    case None => Accepted(Proxy(username, password, host, 1080))
    case Some(t) =>
      match Atoi(GlyphsOfText(t))
      case None => Undefined
      case Some(n) => if 1 <= n <= 65535 then Accepted(Proxy(username, password, host, n)) else Rejected
  }

  lemma ParseOfParts(text: string, p: Parts)
    requires Grammar(text) == Some(p)
    ensures ParseUrl("socks5h://" + text) ==
            if (p.username.Some? && Decode(p.username.value).None?) ||
               (p.password.Some? && Decode(p.password.value).None?)
            then Rejected
            else Verdict(DecodeIfAny(p.username).value, DecodeIfAny(p.password).value, p.host, p.port)
  {
    var url := "socks5h://" + text;
    SplitIsGrammar(text);
    assert url[10..] == text && url[..10] == "socks5h://";
  }

  /** A URL is parsed exactly if it has the scheme, its text is in the grammar, its credentials are
      decodable, and its port is in range. */
  lemma ParsesExactly(url: string)
    ensures !("socks5h://" <= url) ==> ParseUrl(url) == Rejected
    ensures "socks5h://" <= url && Grammar(url[10..]) == None ==> ParseUrl(url) == Rejected
    ensures "socks5h://" <= url && Grammar(url[10..]).Some? ==>
              var p := Grammar(url[10..]).value;
              ParseUrl(url) ==
                if (p.username.Some? && Decode(p.username.value).None?) ||
                   (p.password.Some? && Decode(p.password.value).None?) then Rejected
                else Verdict(DecodeIfAny(p.username).value, DecodeIfAny(p.password).value, p.host, p.port)
  {
    if "socks5h://" <= url {
      assert url == "socks5h://" + url[10..];
      SplitIsGrammar(url[10..]);
      if Grammar(url[10..]).Some? {
        ParseOfParts(url[10..], Grammar(url[10..]).value);
      }
    }
  }

  /** A host and a decimal port: accepted exactly from 1 to 65535. */
  lemma PortRangeExactly(host: string, n: nat)
    requires Atomic(host) && n < 0x8000_0000
    ensures ParseUrl("socks5h://" + (host + (":" + DigitText(DigitsOf(n))))) ==
            if 1 <= n <= 65535 then Accepted(Proxy(None, None, host, n)) else Rejected
    ensures ParseUrl("socks5h://" + (host + "")) == Accepted(Proxy(None, None, host, 1080))
  {
    var t := DigitText(DigitsOf(n));
    DecimalText(n);
    GrammarHost(host, ":" + t, Some(t));
    ParseOfParts(host + (":" + t), Parts(None, None, host, Some(t)));
    GrammarHost(host, "", None);
    ParseOfParts(host + "", Parts(None, None, host, None));
  }
}
