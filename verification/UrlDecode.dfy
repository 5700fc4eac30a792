/**
  Percent decoding of SOCKS credentials (mosquitto__urldecode, connectivity/mqtt/mqtt_common.c):
  the escapes of section 2.1 of RFC 3986 for '%', ':' and '@', decoded in place by shifting the
  rest of the string.  As coded, %40 becomes ':' and not '@'.
 */
module UrlDecode {
  import opened Common

  /** The three escapes; a hexadecimal A may be in either case. */
  function EscapeOf(a: char, b: char): Option<char> {
    if a == '2' && b == '5' then Some('%')
    else if a == '3' && (b == 'A' || b == 'a') then Some(':')
    else if a == '4' && b == '0' then Some(':')
    else None
  }

  function Prepend(p: string, r: Option<string>): Option<string> {
    if r.None? then None else Some(p + r.value)
  }

  /** Left to right, never looking at a decoded character again. */
  function Decode(s: string): Option<string> {
    if s == "" then Some("")
    else if s[0] != '%' then Prepend([s[0]], Decode(s[1..]))
    else if |s| < 3 || EscapeOf(s[1], s[2]).None? then None
    else Prepend([EscapeOf(s[1], s[2]).value], Decode(s[3..]))
  }

  // ----- what is decodable -----

  datatype Token = Plain(c: char) | Escape(a: char, b: char)

  predicate ValidToken(t: Token) {
    match t
    case Plain(c) => c != '%'
    case Escape(a, b) => EscapeOf(a, b).Some?
  }

  function Text(t: Token): string {
    match t
    case Plain(c) => [c]
    case Escape(a, b) => ['%', a, b]
  }

  function Meaning(t: Token): char {
    match t
    case Plain(c) => c
    case Escape(a, b) => if EscapeOf(a, b).Some? then EscapeOf(a, b).value else '%'
  }

  function Render(ts: seq<Token>): string {
    if ts == [] then "" else Text(ts[0]) + Render(ts[1..])
  }

  function MeaningOf(ts: seq<Token>): string {
    if ts == [] then "" else [Meaning(ts[0])] + MeaningOf(ts[1..])
  }

  ghost predicate Spells(ts: seq<Token>, s: string) {
    (forall t :: t in ts ==> ValidToken(t)) && Render(ts) == s
  }

  lemma {:induction false} DecodeOfRender(ts: seq<Token>)
    requires forall t :: t in ts ==> ValidToken(t)
    ensures Decode(Render(ts)) == Some(MeaningOf(ts))
  {
    if ts != [] {
      var t, s := ts[0], Render(ts);
      assert t in ts;
      DecodeOfRender(ts[1..]);
      assert s[|Text(t)|..] == Render(ts[1..]);
    }
  }

  lemma {:induction false} Tokenize(s: string) returns (ts: seq<Token>)
    requires Decode(s).Some?
    ensures Spells(ts, s)
  {
    if s == "" {
      ts := [];
    } else {
      var t := if s[0] != '%' then Plain(s[0]) else Escape(s[1], s[2]);
      var rest := Tokenize(s[|Text(t)|..]);
      ts := [t] + rest;
      assert ts[1..] == rest;
      assert s == Text(t) + s[|Text(t)|..];
    }
  }

  /** Decoding succeeds exactly on concatenations of plain characters and known escapes, and
      yields what they mean: it fails exactly on a truncated or unknown escape. */
  lemma DecodesExactlyTokens(s: string, d: string)
    ensures Decode(s) == Some(d) <==> exists ts :: Spells(ts, s) && MeaningOf(ts) == d
  {
    if Decode(s) == Some(d) {
      var ts := Tokenize(s);
      DecodeOfRender(ts);
    }
    if ts :| Spells(ts, s) && MeaningOf(ts) == d {
      DecodeOfRender(ts);
    }
  }

  // ----- encoding -----

  function EncodeChar(c: char): string {
    if c == '%' then "%25" else if c == ':' then "%3A" else if c == '@' then "%40" else [c]
  }

  function Encode(s: string): string {
    if s == "" then "" else EncodeChar(s[0]) + Encode(s[1..])
  }

  function AtToColon(s: string): string {
    if s == "" then "" else [if s[0] == '@' then ':' else s[0]] + AtToColon(s[1..])
  }

  lemma {:induction false} DecodeOfEncode(s: string)
    ensures Decode(Encode(s)) == Some(AtToColon(s))
  {
    if s != "" {
      DecodeOfEncode(s[1..]);
      var e := EncodeChar(s[0]);
      assert Encode(s)[|e|..] == Encode(s[1..]);
    }
  }

  lemma {:induction false} AtToColonIdentity(s: string)
    ensures AtToColon(s) == s <==> '@' !in s
  {
    if s != "" {
      AtToColonIdentity(s[1..]);
      assert s == [s[0]] + s[1..];
      assert AtToColon(s)[1..] == AtToColon(s[1..]);
    }
  }

  /** Decoding undoes encoding for exactly the strings without '@'. */
  lemma DecodeInvertsEncodeExactly(s: string)
    ensures Decode(Encode(s)) == Some(s) <==> '@' !in s
  {
    DecodeOfEncode(s);
    AtToColonIdentity(s);
  }

  /** An encoded string has no character that the URL parser splits at. */
  lemma {:induction false} EncodeIsAtomic(s: string)
    ensures ':' !in Encode(s) && '@' !in Encode(s)
    ensures s != "" ==> Encode(s) != ""
  {
    if s != "" {
      EncodeIsAtomic(s[1..]);
    }
  }

  // ----- in place -----

  /** Moves everything two places down from i + 1 on, and ends the string there. */
  method ShiftDown(str: array<char>, i: nat, len: nat)
    requires i < len && len + 2 < str.Length
    modifies str
    ensures str[..i + 1] == old(str[..i + 1])
    ensures str[i + 1..len] == old(str[i + 3..len + 2])
    ensures str[len] == '\0'
  {
    ghost var before := str[..];
    var j := i + 1;
    while j < len
      invariant i + 1 <= j <= len
      invariant forall k :: 0 <= k < i + 1 ==> str[k] == before[k]
      invariant forall k :: i + 1 <= k < j ==> str[k] == before[k + 2]
      invariant forall k :: j <= k < str.Length ==> str[k] == before[k]
    {
      str[j] := str[j + 2];
      j := j + 1;
    }
    str[j] := '\0';
    assert str[i + 1..len] == before[i + 3..len + 2];
  }

  /** Overwrites the three characters of the escape at i by the one it stands for. */
  method Collapse(str: array<char>, i: nat, len: nat, c: char) returns (len': nat)
    requires i + 2 < len < str.Length
    modifies str
    ensures len' == len - 2 && str[len'] == '\0'
    ensures str[..i + 1] == old(str[..i]) + [c] && str[i + 1..len'] == old(str[i + 3..len])
  {
    ghost var before := str[..];
    str[i] := c;
    len' := len - 2;
    assert str[i + 3..len] == before[i + 3..len] && str[..i] == before[..i];
    ShiftDown(str, i, len');
  }

  lemma {:induction false} DecodePlain(s: string)
    requires '%' !in s
    ensures Decode(s) == Some(s)
  {
    if s != "" {
      assert s[0] in s;
      DecodePlain(s[1..]);
      assert s == [s[0]] + s[1..];
    }
  }

  /** The in-place loop computes the pure decoder, on every string. */
  method UrlDecode(str: array<char>, strlen: nat) returns (ok: bool, len: nat)
    requires strlen < str.Length && str[strlen] == '\0'
    modifies str
    ensures ok <==> Decode(old(str[..strlen])).Some?
    ensures ok ==> len < str.Length && str[len] == '\0' && Decode(old(str[..strlen])) == Some(str[..len])
  {
    if '%' !in str[..strlen] {
      DecodePlain(str[..strlen]);
      return true, strlen;
    }
    ok, len := DecodeEscapes(str, strlen);
  }

  /** What one round of the loop takes off the front, and what the rest then still decodes to. */
  lemma DecodeFront(s: string)
    requires s != ""
    ensures s[0] != '%' ==> Decode(s) == Prepend([s[0]], Decode(s[1..]))
    ensures s[0] == '%' && (|s| <= 2 || EscapeOf(s[1], s[2]).None?) ==> Decode(s) == None
    ensures s[0] == '%' && |s| > 2 && EscapeOf(s[1], s[2]).Some? ==>
              Decode(s) == Prepend([EscapeOf(s[1], s[2]).value], Decode(s[3..]))
  {
  }

  method DecodeEscapes(str: array<char>, strlen: nat) returns (ok: bool, len: nat)
    requires strlen < str.Length && str[strlen] == '\0'
    modifies str
    ensures ok <==> Decode(old(str[..strlen])).Some?
    ensures ok ==> len < str.Length && str[len] == '\0' && Decode(old(str[..strlen])) == Some(str[..len])
  {
    len := strlen;
    ghost var goal := Decode(str[..strlen]);
    var i := 0;
    assert str[0..len] == str[..strlen] && str[..0] == "";
    assert goal.Some? ==> "" + goal.value == goal.value;
    while i < len
      invariant 0 <= i <= len < str.Length && str[len] == '\0'
      invariant goal == Prepend(str[..i], Decode(str[i..len]))
      decreases len - i
    {
      ghost var done, rest := str[..i], str[i..len];
      DecodeFront(rest);
      if str[i] == '%' {
        if i + 2 >= len {
          return false, len;
        }
        assert rest[1] == str[i + 1] && rest[2] == str[i + 2];
        var e := EscapeOf(str[i + 1], str[i + 2]);
        if e.None? {
          return false, len;
        }
        assert rest[3..] == str[i + 3..len];
        len := Collapse(str, i, len, e.value);
        PrependTwice(done, [e.value], Decode(rest[3..]));
      } else {
        assert rest[1..] == str[i + 1..len];
        assert str[..i + 1] == done + [str[i]];
        PrependTwice(done, [str[i]], Decode(rest[1..]));
      }
      i := i + 1;
    }
    assert str[i..len] == "" && str[..i] + "" == str[..len];
    ok := true;
  }

  lemma PrependTwice(p: string, q: string, r: Option<string>)
    ensures Prepend(p, Prepend(q, r)) == Prepend(p + q, r)
  {
    if r.Some? {
      assert p + (q + r.value) == (p + q) + r.value;
    }
  }

  // ----- the escapes one by one -----

  /** What is decoded does not depend on what follows. */
  lemma {:induction false} DecodeConcat(p: string, s: string)
    requires Decode(p).Some?
    ensures Decode(p + s) == Prepend(Decode(p).value, Decode(s))
  {
    if p == "" {
      assert p + s == s;
      assert Decode(s).Some? ==> "" + Decode(s).value == Decode(s).value;
    } else {
      var k := if p[0] == '%' then 3 else 1;
      assert (p + s)[k..] == p[k..] + s;
      DecodeFront(p);
      DecodeFront(p + s);
      DecodeConcat(p[k..], s);
      PrependTwice(Decode(p).value[..1], Decode(p[k..]).value, Decode(s));
    }
  }

  lemma EscapeMeans(a: char, b: char)
    ensures EscapeOf(a, b) == if [a, b] == "25" then Some('%')
                              else if [a, b] == "3A" || [a, b] == "3a" || [a, b] == "40" then Some(':')
                              else None
  {
    assert [a, b][0] == a && [a, b][1] == b;
  }

  lemma DecodeEscaped(a: char, b: char, s: string)
    ensures Decode(['%', a, b] + s) ==
            if EscapeOf(a, b).None? then None else Prepend([EscapeOf(a, b).value], Decode(s))
  {
    var e := ['%', a, b] + s;
    assert e[0] == '%' && e[1] == a && e[2] == b && e[3..] == s;
    DecodeFront(e);
  }

  lemma DanglingEscape(p: string, a: char)
    requires Decode(p).Some?
    ensures Decode(p + "%") == None && Decode(p + ['%', a]) == None
  {
    DecodeConcat(p, "%");
    DecodeConcat(p, ['%', a]);
  }

  /** Between any decodable texts: %25 is '%', %3A, %3a and, as coded, %40 are ':', and any other
      escape or a truncated one makes the whole undecodable. */
  lemma EscapesExactly(p: string, a: char, b: char, s: string)
    requires Decode(p).Some? && Decode(s).Some?
    ensures var x, y := Decode(p).value, Decode(s).value;
            Decode(p + (['%', a, b] + s)) ==
              if [a, b] == "25" then Some(x + "%" + y)
              else if [a, b] == "3A" || [a, b] == "3a" || [a, b] == "40" then Some(x + ":" + y)
              else None
    ensures Decode(p + "%") == None && Decode(p + ['%', a]) == None
  {
    EscapeMeans(a, b);
    DecodeEscaped(a, b, s);
    DecodeConcat(p, ['%', a, b] + s);
    DanglingEscape(p, a);
    if EscapeOf(a, b).Some? {
      PrependTwice(Decode(p).value, [EscapeOf(a, b).value], Decode(s));
    }
  }
}
