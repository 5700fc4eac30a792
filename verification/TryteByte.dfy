/**
  The nibble codec between bytes and trytes (utils/tryte_byte_conv.c).  Both loops count with a
  16-bit variable, but the decoder's limit is a 32-bit one.
 */
module TryteByte {
  type Byte = x: int | 0 <= x < 256

  const TRYTE_ALPHABET: string := "9ABCDEFGHIJKLMNOPQRSTUVWXYZ"

  const NINE: Byte := 57

  /** The entry of the tryte alphabet for a nibble. */
  function TryteOf(nibble: nat): (t: Byte)
    requires nibble < 16
  {
    if nibble == 0 then NINE else 64 + nibble
  }

  lemma TryteInAlphabet(nibble: nat)
    requires nibble < 16
    ensures TryteOf(nibble) == TRYTE_ALPHABET[nibble] as int
  {
  }

  /** Any character but '9' is taken as an offset from 64, with the wrap-around of uint8_t. */
  function NibbleOf(t: Byte): Byte {
    if t == NINE then 0 else if t < 64 then t + 192 else t - 64
  }

  function Upper(b: Byte): (u: nat)
    ensures u < 16
  {
    b / 16
  }

  function Lower(b: Byte): (l: nat)
    ensures l < 16
  {
    b % 16
  }

  function BitOr(a: nat, b: nat): nat {
    if a == 0 then b else 2 * BitOr(a / 2, b / 2) + (if a % 2 == 1 || b % 2 == 1 then 1 else 0)
  }

  lemma {:induction false} OrBound(a: nat, b: nat, k: nat)
    requires a < k && b < k && (k == 1 || k == 2 || k == 4 || k == 8 || k == 16)
    ensures BitOr(a, b) < k
  {
    if a != 0 {
      OrBound(a / 2, b / 2, k / 2);
    }
  }

  /** (upper << 4) | lower, cut to eight bits. */
  function Pack(upper: Byte, lower: Byte): Byte {
    if lower < 16 then upper % 16 * 16 + lower
    else
      OrBound(upper % 16, lower / 16, 16);
      BitOr(upper % 16, lower / 16) * 16 + lower % 16
  }

  /** Bit k of a number. */
  function Bit(n: nat, k: nat): bool {
    if k == 0 then n % 2 == 1 else Bit(n / 2, k - 1)
  }

  lemma {:induction false} BitsOfOr(a: nat, b: nat, k: nat)
    ensures Bit(BitOr(a, b), k) <==> Bit(a, k) || Bit(b, k)
  {
    if a == 0 {
      ZeroBits(k);
    } else if k > 0 {
      assert BitOr(a, b) / 2 == BitOr(a / 2, b / 2);
      BitsOfOr(a / 2, b / 2, k - 1);
    }
  }

  lemma {:induction false} ZeroBits(k: nat)
    ensures !Bit(0, k)
  {
    if k > 0 {
      ZeroBits(k - 1);
    }
  }

  lemma ShiftedBits(n: nat, r: nat, k: nat)
    requires r < 16
    ensures Bit(16 * n + r, k) <==> if k < 4 then Bit(r, k) else Bit(n, k - 4)
  {
    var x := 16 * n + r;
    assert x / 2 == 8 * n + r / 2 && x / 2 / 2 == 4 * n + r / 4;
    assert x / 2 / 2 / 2 == 2 * n + r / 8 && x / 2 / 2 / 2 / 2 == n;
    FourthBit(x, k);
    FourthBit(r, k);
  }

  lemma FourthBit(x: nat, k: nat)
    ensures k >= 4 ==> (Bit(x, k) <==> Bit(x / 2 / 2 / 2 / 2, k - 4))
    ensures Bit(x, 0) <==> x % 2 == 1
    ensures Bit(x, 1) <==> x / 2 % 2 == 1
    ensures Bit(x, 2) <==> x / 2 / 2 % 2 == 1
    ensures Bit(x, 3) <==> x / 2 / 2 / 2 % 2 == 1
  {
    assert Bit(x, 2) == Bit(x / 2, 1) == Bit(x / 2 / 2, 0);
    assert Bit(x, 3) == Bit(x / 2, 2) == Bit(x / 2 / 2, 1) == Bit(x / 2 / 2 / 2, 0);
    if k >= 4 {
      assert Bit(x, k) == Bit(x / 2, k - 1) == Bit(x / 2 / 2, k - 2);
      assert Bit(x / 2 / 2, k - 2) == Bit(x / 2 / 2 / 2, k - 3) == Bit(x / 2 / 2 / 2 / 2, k - 4);
    }
  }

  lemma PackedShort(upper: Byte, lower: Byte, k: nat)
    requires k < 8 && lower < 16
    ensures Bit(Pack(upper, lower), k) <==> if k < 4 then Bit(lower, k) else Bit(upper % 16, k - 4)
    ensures k >= 4 ==> !Bit(lower, k)
  {
    ShiftedBits(upper % 16, lower, k);
    ShiftedBits(0, lower, k);
    if k >= 4 {
      ZeroBits(k - 4);
    }
  }

  lemma PackedLong(upper: Byte, lower: Byte, k: nat)
    requires k < 8 && lower >= 16
    ensures Bit(Pack(upper, lower), k) <==> if k < 4 then Bit(lower, k) else Bit(upper % 16, k - 4) || Bit(lower, k)
  {
    OrBound(upper % 16, lower / 16, 16);
    ShiftedBits(BitOr(upper % 16, lower / 16), lower % 16, k);
    ShiftedBits(lower / 16, lower % 16, k);
    if k >= 4 {
      BitsOfOr(upper % 16, lower / 16, k - 4);
    }
  }

  /** Bit by bit the packed byte is the upper nibble shifted by four, or the lower one. */
  lemma PackedBits(upper: Byte, lower: Byte, k: nat)
    requires k < 8
    ensures Bit(Pack(upper, lower), k) <==> Bit(lower, k) || (k >= 4 && Bit(upper, k - 4))
  {
    if k >= 4 {
      ShiftedBits(upper / 16, upper % 16, k - 4);
    }
    if lower < 16 {
      PackedShort(upper, lower, k);
    } else {
      PackedLong(upper, lower, k);
    }
  }

  /** Any other character than '9' is the distance from 64, modulo 256. */
  lemma NibbleWraps(t: Byte)
    ensures NibbleOf(t) == if t == '9' as int then 0 else (t - 64) % 256
  {
  }

  /** Tryte i of the encoding: the upper nibble of byte i / 2 first, then its lower one. */
  function TryteAt(s: seq<Byte>, i: nat): Byte
    requires i < 2 * |s|
  {
    if i % 2 == 0 then TryteOf(Upper(s[i / 2])) else TryteOf(Lower(s[i / 2]))
  }

  function Encode(s: seq<Byte>): (r: seq<Byte>)
    ensures |r| == 2 * |s|
  {
    seq(2 * |s|, i requires 0 <= i < 2 * |s| => TryteAt(s, i))
  }

  function PairOf(a: Byte, b: Byte): Byte {
    Pack(NibbleOf(a), NibbleOf(b))
  }

  function Decode(t: seq<Byte>): (r: seq<Byte>)
    requires |t| % 2 == 0
    ensures |r| == |t| / 2
  {
    seq(|t| / 2, j requires 0 <= j < |t| / 2 => PairOf(t[2 * j], t[2 * j + 1]))
  }

  lemma NibbleOfTryte(n: nat)
    requires n < 16
    ensures NibbleOf(TryteOf(n)) == n
  {
  }

  lemma PackNibbles(u: nat, l: nat)
    requires u < 16 && l < 16
    ensures Pack(u, l) == u * 16 + l
  {
  }

  lemma PairRoundTrip(b: Byte)
    ensures PairOf(TryteOf(Upper(b)), TryteOf(Lower(b))) == b
  {
    var u, l := Upper(b), Lower(b);
    assert b == u * 16 + l;
    NibbleOfTryte(u);
    NibbleOfTryte(l);
    PackNibbles(u, l);
  }

  lemma DecodeInvertsEncode(s: seq<Byte>)
    ensures Decode(Encode(s)) == s
  {
    forall j | 0 <= j < |s|
      ensures Decode(Encode(s))[j] == s[j]
    {
      ByteRoundTrip(s, j);
      PairsOfEncoding(s, j);
    }
  }

  lemma DecodeAt(t: seq<Byte>, j: nat)
    requires |t| % 2 == 0 && j < |t| / 2
    ensures Decode(t)[j] == PairOf(t[2 * j], t[2 * j + 1])
  {
  }

  lemma EncodeAt(s: seq<Byte>, i: nat)
    requires i < 2 * |s|
    ensures Encode(s)[i] == TryteAt(s, i)
  {
  }

  lemma PairsOfEncoding(s: seq<Byte>, j: nat)
    requires j < |s|
    ensures Decode(Encode(s))[j] == PairOf(TryteAt(s, 2 * j), TryteAt(s, 2 * j + 1))
  {
    DecodeAt(Encode(s), j);
    EncodeAt(s, 2 * j);
    EncodeAt(s, 2 * j + 1);
  }

  lemma ByteRoundTrip(s: seq<Byte>, j: nat)
    requires j < |s|
    ensures PairOf(TryteAt(s, 2 * j), TryteAt(s, 2 * j + 1)) == s[j]
  {
    assert 2 * j / 2 == j && (2 * j + 1) / 2 == j && (2 * j + 1) % 2 == 1;
    PairRoundTrip(s[j]);
  }

  lemma EncodedAlphabet(s: seq<Byte>, i: nat)
    requires i < 2 * |s|
    ensures Encode(s)[i] == NINE || 65 <= Encode(s)[i] <= 79
  {
  }

  // ----- the loops -----

  const UINT16_RANGE: nat := 0x1_0000

  method Put(output: array<Byte>, k: nat, b: Byte)
    requires k < output.Length
    modifies output
    ensures output[..k + 1] == old(output[..k]) + [b]
    ensures forall m :: k < m < output.Length ==> output[m] == old(output[m])
  {
    output[k] := b;
  }

  lemma EncodeNext(s: seq<Byte>, i: nat)
    requires i < |s|
    ensures Encode(s[..i + 1]) == Encode(s[..i]) + [TryteOf(Upper(s[i])), TryteOf(Lower(s[i]))]
  {
    var p, q := s[..i], s[..i + 1];
    forall k | 0 <= k < 2 * (i + 1)
      ensures Encode(q)[k] == (Encode(p) + [TryteOf(Upper(s[i])), TryteOf(Lower(s[i]))])[k]
    {
      EncodeAt(q, k);
      if k < 2 * i {
        EncodeAt(p, k);
      }
    }
  }

  /** bytes_to_trytes: the limit is itself a uint16_t, so the counter cannot wrap before it. */
  method BytesToTrytes(input: array<Byte>, len: nat, output: array<Byte>)
    requires len < UINT16_RANGE && len <= input.Length && 2 * len <= output.Length && input != output
    modifies output
    ensures output[..2 * len] == Encode(input[..len])
    ensures output[2 * len..] == old(output[2 * len..])
  {
    ghost var src := input[..len];
    var i := 0;
    while i < len
      invariant 0 <= i <= len && input[..len] == src
      invariant output[..2 * i] == Encode(src[..i])
      invariant forall k :: 2 * len <= k < output.Length ==> output[k] == old(output[k])
      decreases len - i
    {
      var dec := input[i];
      assert dec == src[i];
      EncodeNext(src, i);
      Put(output, 2 * i, TryteOf(Upper(dec)));
      Put(output, 2 * i + 1, TryteOf(Lower(dec)));
      i := (i + 1) % UINT16_RANGE;
    }
  }

  /** The decoder's counter after n rounds. */
  function Counter(n: nat): nat {
    if n == 0 then 0 else (Counter(n - 1) + 2) % UINT16_RANGE
  }

  lemma RemainderIs(x: int, q: int, r: nat)
    requires r < UINT16_RANGE && x == UINT16_RANGE * q + r
    ensures x % UINT16_RANGE == r
  {
  }

  lemma {:induction false} CounterValue(n: nat)
    ensures Counter(n) == 2 * n % UINT16_RANGE
  {
    if n > 0 {
      CounterValue(n - 1);
      var q, r := 2 * (n - 1) / UINT16_RANGE, 2 * (n - 1) % UINT16_RANGE;
      var carry := if r + 2 < UINT16_RANGE then 0 else 1;
      RemainderIs(r + 2, carry, r + 2 - UINT16_RANGE * carry);
      RemainderIs(2 * n, q + carry, r + 2 - UINT16_RANGE * carry);
    }
  }

  ghost predicate Reaches(len: nat, n: nat) {
    Counter(n) >= len
  }

  ghost predicate Ends(len: nat) {
    exists n: nat :: Reaches(len, n)
  }

  /** The decoder's loop ends exactly for inputs of at most 65534 trytes. */
  lemma DecoderEndsExactly(len: nat)
    ensures Ends(len) <==> len <= 65534
  {
    if len <= 65534 {
      CounterValue((len + 1) / 2);
      assert Reaches(len, (len + 1) / 2);
    }
    if n: nat :| Reaches(len, n) {
      CounterValue(n);
      RemainderIs(2 * n, n / 0x8000, 2 * (n % 0x8000));
    }
  }

  /** What the encoder makes of more than 32767 bytes, the decoder never finishes reading. */
  lemma RoundTripBound(s: seq<Byte>)
    ensures Ends(|Encode(s)|) <==> |s| <= 32767
  {
    DecoderEndsExactly(|Encode(s)|);
  }

  /** What the loop knows of the decoding: how one more pair is decoded. */
  ghost predicate DecodesBy(dec: seq<Byte> -> seq<Byte>, pair: (Byte, Byte) -> Byte, t: seq<Byte>) {
    && dec([]) == []
    && forall r: nat {:trigger DecodesPair(dec, pair, t, r)} :: DecodesPair(dec, pair, t, r)
  }

  ghost predicate DecodesPair(dec: seq<Byte> -> seq<Byte>, pair: (Byte, Byte) -> Byte, t: seq<Byte>, r: nat) {
    2 * r + 1 < |t| ==> dec(t[..2 * r + 2]) == dec(t[..2 * r]) + [pair(t[2 * r], t[2 * r + 1])]
  }

  ghost predicate IsPairOf(pair: (Byte, Byte) -> Byte) {
    forall a, b {:trigger PairsAs(pair, a, b)} :: PairsAs(pair, a, b)
  }

  ghost predicate PairsAs(pair: (Byte, Byte) -> Byte, a: Byte, b: Byte) {
    pair(a, b) == PairOf(a, b)
  }

  ghost function Decoding(): seq<Byte> -> seq<Byte> {
    (t: seq<Byte>) => if |t| % 2 == 0 then Decode(t) else []
  }

  lemma DecodingBy(t: seq<Byte>)
    ensures DecodesBy(Decoding(), PairOf, t)
  {
    forall r: nat
      ensures DecodesPair(Decoding(), PairOf, t, r)
    {
      if 2 * r + 1 < |t| {
        DecodeNext(t, r);
      }
    }
  }

  /** trytes_to_bytes on the inputs for which it returns.  It reads in pairs, so of an odd number
      of trytes it also reads the character after the last one. */
  method TrytesToBytes(input: array<Byte>, len: nat, output: array<Byte>)
    requires len <= 65534 && len + len % 2 <= input.Length && (len + 1) / 2 <= output.Length && input != output
    modifies output
    ensures output[..(len + 1) / 2] == Decode(input[..len + len % 2])
    ensures output[(len + 1) / 2..] == old(output[(len + 1) / 2..])
  {
    ghost var n := (len + 1) / 2;
    assert len + len % 2 == 2 * n;
    DecodingBy(input[..2 * n]);
    DecodePairs(input, len, output, n, Decoding(), PairOf);
    assert Decoding()(input[..2 * n]) == Decode(input[..2 * n]);
  }

  method DecodePairs(
      input: array<Byte>, len: nat, output: array<Byte>,
      ghost n: nat, ghost dec: seq<Byte> -> seq<Byte>, ghost pair: (Byte, Byte) -> Byte)
    requires len <= 2 * n <= len + 1 && 2 * n <= 65534 && 2 * n <= input.Length && n <= output.Length && input != output
    requires DecodesBy(dec, pair, input[..2 * n]) && IsPairOf(pair)
    modifies output
    ensures output[..n] == dec(input[..2 * n])
    ensures output[n..] == old(output[n..])
  {
    ghost var src := input[..2 * n];
    ghost var rounds := 0;
    var i := 0;
    assert src[..0] == [];
    while i < len
      invariant 0 <= i == 2 * rounds <= 2 * n && input[..2 * n] == src
      invariant output[..rounds] == dec(src[..i])
      invariant forall k :: n <= k < output.Length ==> output[k] == old(output[k])
      decreases 2 * n - i
    {
      assert DecodesPair(dec, pair, src, rounds);
      var b := DecodePair(input[i], input[i + 1], pair);
      assert i / 2 == rounds;
      Put(output, i / 2, b);
      i := (i + 2) % UINT16_RANGE;
      rounds := rounds + 1;
    }
    assert src[..i] == src;
  }

  method DecodePair(first: Byte, second: Byte, ghost pair: (Byte, Byte) -> Byte) returns (b: Byte)
    requires IsPairOf(pair)
    ensures b == pair(first, second)
  {
    assert PairsAs(pair, first, second);
    var upper := NibbleOf(first);
    var lower := NibbleOf(second);
    b := Pack(upper, lower);
  }

  lemma DecodeNext(t: seq<Byte>, r: nat)
    requires 2 * r + 1 < |t|
    ensures Decode(t[..2 * r + 2]) == Decode(t[..2 * r]) + [PairOf(t[2 * r], t[2 * r + 1])]
  {
    var p, q := t[..2 * r], t[..2 * r + 2];
    forall j | 0 <= j < r + 1
      ensures Decode(q)[j] == (Decode(p) + [PairOf(t[2 * r], t[2 * r + 1])])[j]
    {
      DecodeAt(q, j);
      if j < r {
        DecodeAt(p, j);
      }
    }
  }
}
