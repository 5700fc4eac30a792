/** Decimal numbers as the C library prints and reads them (printf %0w, strtol in base 10). */
module Decimal {
  import opened Common

  /** A character as strtol sees it. */
  datatype Glyph = Digit(value: nat) | Space | Plus | Minus | Other

  predicate AllDigits(ds: seq<nat>) {
    forall i :: 0 <= i < |ds| ==> ds[i] < 10
  }

  function DigitsOf(n: nat): (ds: seq<nat>)
    ensures ds != [] && AllDigits(ds)
  {
    if n < 10 then [n] else DigitsOf(n / 10) + [n % 10]
  }

  /** Zero-padding to a minimal width. */
  function Padded(ds: seq<nat>, width: nat): (r: seq<nat>)
    requires AllDigits(ds)
    ensures AllDigits(r) && |r| == if |ds| < width then width else |ds|
    decreases width - |ds|
  {
    if |ds| >= width then ds else Padded([0] + ds, width)
  }

  function ValueOf(ds: seq<nat>): nat {
    if ds == [] then 0 else ValueOf(ds[..|ds| - 1]) * 10 + ds[|ds| - 1]
  }

  function Pow10(w: nat): (p: nat)
    ensures p >= 1
  {
    if w == 0 then 1 else 10 * Pow10(w - 1)
  }

  /** Reading back what was printed. */
  lemma {:induction false} ValueOfDigits(n: nat)
    ensures ValueOf(DigitsOf(n)) == n
  {
    if n >= 10 {
      ValueOfDigits(n / 10);
      assert (DigitsOf(n / 10) + [n % 10])[..|DigitsOf(n / 10)|] == DigitsOf(n / 10);
    } else {
      assert [n][..0] == [];
    }
  }

  lemma {:induction false} LeadingZero(ds: seq<nat>)
    ensures ValueOf([0] + ds) == ValueOf(ds)
  {
    if ds == [] {
      assert ([0] + ds)[..0] == [];
    } else {
      assert ([0] + ds)[..|ds|] == [0] + ds[..|ds| - 1];
      LeadingZero(ds[..|ds| - 1]);
    }
  }

  lemma {:induction false} ValueOfPadded(ds: seq<nat>, width: nat)
    requires AllDigits(ds)
    ensures ValueOf(Padded(ds, width)) == ValueOf(ds)
    decreases width - |ds|
  {
    if |ds| < width {
      LeadingZero(ds);
      ValueOfPadded([0] + ds, width);
    }
  }

  lemma {:induction false} DigitsFit(n: nat, w: nat)
    requires 1 <= w
    ensures |DigitsOf(n)| <= w <==> n < Pow10(w)
  {
    if n < 10 {
      assert Pow10(w) == 10 * Pow10(w - 1);
    } else if w == 1 {
      assert Pow10(1) == 10 * Pow10(0);
    } else {
      DigitsFit(n / 10, w - 1);
    }
  }

  lemma {:induction false} ProperPrefixIsSmaller(ds: seq<nat>, k: nat)
    requires k < |ds|
    ensures 10 * ValueOf(ds[..k]) <= ValueOf(ds)
  {
    if k + 1 < |ds| {
      assert ds[..|ds| - 1][..k] == ds[..k];
      ProperPrefixIsSmaller(ds[..|ds| - 1], k);
    }
  }

  // ----- strtol -----

  function SkipSpace(g: seq<Glyph>): seq<Glyph> {
    if g != [] && g[0].Space? then SkipSpace(g[1..]) else g
  }

  function LeadingDigits(g: seq<Glyph>): (ds: seq<nat>) {
    if g != [] && g[0].Digit? then [g[0].value] + LeadingDigits(g[1..]) else []
  }

  /** The number at the front of a text, before any range check. */
  function Strtol(g: seq<Glyph>): int {
    var t := SkipSpace(g);
    if t == [] then 0
    else if t[0].Minus? then 0 - ValueOf(LeadingDigits(t[1..]))
    else if t[0].Plus? then ValueOf(LeadingDigits(t[1..]))
    else ValueOf(LeadingDigits(t))
  }

  const INT_LIMIT: int := 0x8000_0000
  const LONG_LIMIT: int := 0x8000_0000_0000_0000

  /** atoi and atol: a number outside the type has no defined result. */
  function Atoi(g: seq<Glyph>): Option<int> {
    if -INT_LIMIT <= Strtol(g) < INT_LIMIT then Some(Strtol(g)) else None
  }

  function Atol(g: seq<Glyph>): Option<int> {
    if -LONG_LIMIT <= Strtol(g) < LONG_LIMIT then Some(Strtol(g)) else None
  }

  function GlyphsOf(ds: seq<nat>): (g: seq<Glyph>)
    ensures |g| == |ds| && forall i :: 0 <= i < |g| ==> g[i] == Digit(ds[i])
  {
    seq(|ds|, i requires 0 <= i < |ds| => Digit(ds[i]))
  }

  lemma {:induction false} LeadingDigitsOfAll(ds: seq<nat>, g: seq<Glyph>)
    requires g != [] ==> !g[0].Digit?
    ensures LeadingDigits(GlyphsOf(ds) + g) == ds
  {
    if ds == [] {
      assert GlyphsOf(ds) + g == g;
    } else {
      assert (GlyphsOf(ds) + g)[1..] == GlyphsOf(ds[1..]) + g;
      LeadingDigitsOfAll(ds[1..], g);
    }
  }

  lemma StrtolOfDigits(ds: seq<nat>)
    requires ds != []
    ensures Strtol(GlyphsOf(ds)) == ValueOf(ds)
  {
    LeadingDigitsOfAll(ds, []);
    assert GlyphsOf(ds) + [] == GlyphsOf(ds);
  }

  /** Any number of spaces, a sign or none, digits, and then anything that is not a digit. */
  lemma {:induction false} StrtolReads(spaces: nat, sign: seq<Glyph>, ds: seq<nat>, rest: seq<Glyph>)
    requires sign == [] || sign == [Plus] || sign == [Minus]
    requires rest != [] ==> !rest[0].Digit? && (sign == [] && ds == [] ==> rest[0].Other?)
    ensures Strtol(Repeat(Space, spaces) + sign + GlyphsOf(ds) + rest) ==
            if sign == [Minus] then 0 - ValueOf(ds) else ValueOf(ds)
  {
    var g := sign + (GlyphsOf(ds) + rest);
    assert Repeat(Space, spaces) + sign + GlyphsOf(ds) + rest == Repeat(Space, spaces) + g;
    SpacesSkipped(spaces, g);
    LeadingDigitsOfAll(ds, rest);
    if sign == [] {
      assert g == GlyphsOf(ds) + rest;
    } else {
      assert g[0] == sign[0] && g[1..] == GlyphsOf(ds) + rest;
    }
  }

  lemma {:induction false} SpacesSkipped(spaces: nat, g: seq<Glyph>)
    requires g != [] ==> !g[0].Space?
    ensures SkipSpace(Repeat(Space, spaces) + g) == g
  {
    if spaces == 0 {
      assert Repeat(Space, 0) + g == g;
    } else {
      assert (Repeat(Space, spaces) + g)[1..] == Repeat(Space, spaces - 1) + g;
      SpacesSkipped(spaces - 1, g);
    }
  }

  /** Within the type the number read is the result. */
  lemma AtoiExactly(g: seq<Glyph>, v: int)
    ensures Atoi(g) == Some(v) <==> Strtol(g) == v && -2_147_483_648 <= v <= 2_147_483_647
    ensures Atol(g) == Some(v) <==> Strtol(g) == v && -9_223_372_036_854_775_808 <= v <= 9_223_372_036_854_775_807
  {
  }
}
