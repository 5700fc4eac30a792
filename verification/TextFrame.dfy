/**
  The fixed-width text frame that carries an encrypted message (endpoint/text_serializer.c):
  iv, 20-digit timestamp, hmac, 10-digit ciphertext length, ciphertext.
 */
module TextFrame {
  import opened Common
  import opened Decimal
  import opened Cipher

  const UINT64_LEN: nat := 20
  const UINT32_LEN: nat := 10
  const HEADER: nat := 78

  const UINT64_LIMIT: int := 0x1_0000_0000_0000_0000
  const UINT32_LIMIT: int := 0x1_0000_0000

  datatype Message = Message(iv: Bytes, timestamp: nat, hmac: Bytes, ciphertext: Bytes)

  /** The sizes the C fields have. */
  ghost predicate FieldSizes(m: Message) {
    |m.iv| == BLOCK && |m.hmac| == HMAC_SIZE && m.timestamp < UINT64_LIMIT
  }

  /** snprintf of a zero-padded number into a buffer that holds `width` digits. */
  function Printed(n: nat, width: nat): (r: Bytes)
    ensures |r| == width
  {
    AsciiDigits(Padded(DigitsOf(n), width)[..width])
  }

  function FrameOf(m: Message): Bytes {
    m.iv + Printed(m.timestamp, UINT64_LEN) + m.hmac + Printed(|m.ciphertext|, UINT32_LEN) + m.ciphertext
  }

  function ByteGlyph(b: Byte): Glyph {
    if b == 48 then Digit(0) else if b == 49 then Digit(1) else if b == 50 then Digit(2)
    else if b == 51 then Digit(3) else if b == 52 then Digit(4) else if b == 53 then Digit(5)
    else if b == 54 then Digit(6) else if b == 55 then Digit(7) else if b == 56 then Digit(8)
    else if b == 57 then Digit(9)
    else if b == 43 then Plus else if b == 45 then Minus
    else if b == 32 || (9 <= b <= 13) then Space else Other
  }

  function GlyphsOfBytes(s: Bytes): (g: seq<Glyph>)
    ensures |g| == |s|
  {
    seq(|s|, i requires 0 <= i < |s| => ByteGlyph(s[i]))
  }

  /** atol into a uint64_t and atoi into a uint32_t. */
  function ReadTimestamp(s: Bytes): Option<nat> {
    match Atol(GlyphsOfBytes(s))
    case None => None
    case Some(v) => Some(if v < 0 then v + UINT64_LIMIT else v)
  }

  function ReadLength(s: Bytes): Option<nat> {
    match Atoi(GlyphsOfBytes(s))
    case None => None
    case Some(v) => Some(if v < 0 then v + UINT32_LIMIT else v)
  }

  /** The caller's message must hold the header and as many bytes as its length field says. */
  ghost predicate Readable(msg: Bytes) {
    HEADER <= |msg| && (ReadLength(msg[68..78]).Some? ==> HEADER + ReadLength(msg[68..78]).value <= |msg|)
  }

  /** None when a number field is outside what atol or atoi define. */
  function Parse(msg: Bytes): Option<Message>
    requires Readable(msg)
  {
    match (ReadTimestamp(msg[16..36]), ReadLength(msg[68..78]))
    case (Some(t), Some(n)) => Some(Message(msg[..16], t, msg[36..68], msg[78..78 + n]))
    case _ => None
  }

  // ----- the moving pointer -----

  /** serialize_msg; the output buffer is the caller's. */
  method SerializeMsg(m: Message, out: array<Byte>) returns (len: nat)
    requires FieldSizes(m) && HEADER + |m.ciphertext| <= out.Length
    modifies out
    ensures len == HEADER + |m.ciphertext| && out[..len] == FrameOf(m)
    ensures out[len..] == old(out[len..])
  {
    var stamp := Printed(m.timestamp, UINT64_LEN);
    var length := Printed(|m.ciphertext|, UINT32_LEN);
    len := PutFields(out, m.iv, stamp, m.hmac, length, m.ciphertext);
  }

  /** The five copies, the pointer moving along. */
  method PutFields(out: array<Byte>, iv: Bytes, stamp: Bytes, hmac: Bytes, length: Bytes, text: Bytes)
      returns (ptr: nat)
    requires |iv| + |stamp| + |hmac| + |length| + |text| <= out.Length
    modifies out
    ensures ptr == |iv| + |stamp| + |hmac| + |length| + |text|
    ensures out[..ptr] == iv + stamp + hmac + length + text
    ensures out[ptr..] == old(out[ptr..])
  {
    ptr := Put(out, 0, iv);
    ptr := Put(out, ptr, stamp);
    ptr := Put(out, ptr, hmac);
    ptr := Put(out, ptr, length);
    ptr := Put(out, ptr, text);
  }

  /** memcpy at the write pointer, then advance it. */
  method Put(out: array<Byte>, ptr: nat, src: Bytes) returns (ptr': nat)
    requires ptr + |src| <= out.Length
    modifies out
    ensures ptr' == ptr + |src|
    ensures out[..ptr'] == old(out[..ptr]) + src
    ensures forall k :: ptr' <= k < out.Length ==> out[k] == old(out[k])
  {
    forall i | 0 <= i < |src| {
      out[ptr + i] := src[i];
    }
    ptr' := ptr + |src|;
  }

  /** deserialize_msg. */
  method DeserializeMsg(msg: Bytes) returns (r: Option<Message>)
    requires Readable(msg)
    ensures r == Parse(msg)
  {
    var ptr := 0;
    var iv := msg[ptr..ptr + BLOCK];
    ptr := ptr + BLOCK;
    var timestamp := ReadTimestamp(msg[ptr..ptr + UINT64_LEN]);
    ptr := ptr + UINT64_LEN;
    var hmac := msg[ptr..ptr + HMAC_SIZE];
    ptr := ptr + HMAC_SIZE;
    var length := ReadLength(msg[ptr..ptr + UINT32_LEN]);
    ptr := ptr + UINT32_LEN;
    if timestamp.None? || length.None? {
      return None;
    }
    r := Some(Message(iv, timestamp.value, hmac, msg[ptr..ptr + length.value]));
  }

  // ----- the round trip -----

  lemma GlyphOfDigitByte(d: nat)
    requires d < 10
    ensures ByteGlyph(DigitByte(d)) == Digit(d)
  {
  }

  lemma GlyphsOfAscii(ds: seq<nat>)
    requires AllDigits(ds)
    ensures GlyphsOfBytes(AsciiDigits(ds)) == GlyphsOf(ds)
  {
    forall i | 0 <= i < |ds|
      ensures GlyphsOfBytes(AsciiDigits(ds))[i] == GlyphsOf(ds)[i]
    {
      GlyphOfDigitByte(ds[i]);
    }
  }

  /** The characters of numbers, and no others. */
  lemma ByteGlyphExactly(b: Byte)
    ensures ByteGlyph(b).Digit? <==> 48 <= b <= 57
    ensures ByteGlyph(b).Space? <==> b == 32 || 9 <= b <= 13
    ensures (ByteGlyph(b).Plus? <==> b == 43) && (ByteGlyph(b).Minus? <==> b == 45)
  {
  }

  /** A negative number in a field is read with the wrap-around of the unsigned type. */
  lemma NegativeFieldsWrap(ds: seq<nat>)
    requires ds != [] && AllDigits(ds) && 0 < ValueOf(ds) <= 0x8000_0000
    ensures ReadTimestamp([45] + AsciiDigits(ds)) == Some(0x1_0000_0000_0000_0000 - ValueOf(ds))
    ensures ReadLength([45] + AsciiDigits(ds)) == Some(0x1_0000_0000 - ValueOf(ds))
  {
    var s := [45] + AsciiDigits(ds);
    GlyphsOfAscii(ds);
    assert GlyphsOfBytes(s) == Repeat(Space, 0) + [Minus] + GlyphsOf(ds) + [];
    StrtolReads(0, [Minus], ds, []);
  }

  /** A printed number reads back as itself exactly when it fits the width. */
  lemma PrintedValue(n: nat, width: nat)
    requires 1 <= width
    ensures var v := Strtol(GlyphsOfBytes(Printed(n, width)));
            0 <= v && (v == n <==> n < Pow10(width))
  {
    var ds := DigitsOf(n);
    var p := Padded(ds, width);
    GlyphsOfAscii(p[..width]);
    StrtolOfDigits(p[..width]);
    ValueOfDigits(n);
    ValueOfPadded(ds, width);
    DigitsFit(n, width);
    if |ds| <= width {
      assert p[..width] == p;
    } else {
      ProperPrefixIsSmaller(p, width);
    }
  }

  lemma FrameFields(m: Message)
    requires FieldSizes(m)
    ensures var f := FrameOf(m);
            && |f| == HEADER + |m.ciphertext|
            && f[..16] == m.iv && f[16..36] == Printed(m.timestamp, UINT64_LEN)
            && f[36..68] == m.hmac && f[68..78] == Printed(|m.ciphertext|, UINT32_LEN)
            && f[78..] == m.ciphertext
  {
  }

  lemma Pow10Values()
    ensures Pow10(10) == 10_000_000_000 && Pow10(20) == 100_000_000_000_000_000_000
  {
  }

  lemma TimestampReadsBack(t: nat)
    requires t < UINT64_LIMIT
    ensures ReadTimestamp(Printed(t, UINT64_LEN)) == if t < LONG_LIMIT then Some(t) else None
  {
    Pow10Values();
    PrintedValue(t, UINT64_LEN);
  }

  lemma LengthReadsBack(n: nat)
    ensures ReadLength(Printed(n, UINT32_LEN)) == Some(n) <==> n < INT_LIMIT
  {
    Pow10Values();
    PrintedValue(n, UINT32_LEN);
  }

  /** Every frame of a timestamp below 2^63 and a ciphertext shorter than 2^31 is parsed back to
      exactly its fields, and no other frame is. */
  lemma FrameRoundTripExactly(m: Message)
    requires FieldSizes(m)
    ensures (Readable(FrameOf(m)) && Parse(FrameOf(m)) == Some(m))
       <==> (m.timestamp < 0x8000_0000_0000_0000 && |m.ciphertext| < 0x8000_0000)
  {
    FrameFields(m);
    TimestampReadsBack(m.timestamp);
    LengthReadsBack(|m.ciphertext|);
    ParseOfFields(FrameOf(m), m);
  }

  lemma ParseOfFields(f: Bytes, m: Message)
    requires |f| == HEADER + |m.ciphertext| && f[..16] == m.iv && f[36..68] == m.hmac && f[78..] == m.ciphertext
    requires ReadTimestamp(f[16..36]) == if m.timestamp < LONG_LIMIT then Some(m.timestamp) else None
    requires ReadLength(f[68..78]) == Some(|m.ciphertext|) <==> |m.ciphertext| < INT_LIMIT
    ensures (Readable(f) && Parse(f) == Some(m)) <==> (m.timestamp < LONG_LIMIT && |m.ciphertext| < INT_LIMIT)
  {
    var length := ReadLength(f[68..78]);
    if length.Some? && HEADER + length.value <= |f| {
      assert |f[78..78 + length.value]| == length.value;
      assert f[78..|f|] == f[78..];
    }
  }

  /** Encrypt, serialize, deserialize, decrypt: the plaintext comes back with its zero padding. */
  lemma EndpointRoundTrip(c: Crypto, key: Bytes, device: Bytes, timestamp: nat, plain: Bytes)
    requires Sized(c) && Inverse(c, key)
    requires timestamp < 0x8000_0000_0000_0000 && CipherLen(|plain|) < 0x8000_0000
    ensures var s := Encrypt(c, key, device, timestamp, plain);
            var f := FrameOf(Message(s.iv, timestamp, s.hmac, s.ciphertext));
            && Readable(f) && Parse(f).Some?
            && var m := Parse(f).value;
            && |m.iv| == BLOCK
            && Decrypt(c, key, device, m.timestamp, Sealed(m.iv, m.hmac, m.ciphertext)) ==
                 Some(plain + Zeros(CipherLen(|plain|) - |plain|))
  {
    CipherRoundTrip(c, key, device, timestamp, plain);
    var s := Encrypt(c, key, device, timestamp, plain);
    FrameRoundTripExactly(Message(s.iv, timestamp, s.hmac, s.ciphertext));
  }
}
