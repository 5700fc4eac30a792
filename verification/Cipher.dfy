/**
  Message encryption on the endpoint (endpoint/cipher.c): AES-256 in cipher block chaining
  mode (section 6.2 of NIST SP 800-38A) with an HMAC (section 2 of RFC 2104) over the
  ciphertext, both keyed from the device key, the device id and a timestamp.

  The block cipher, the hash and the HMAC are parameters; all that is asked of them is that
  decryption inverts encryption block by block and that outputs have their sizes.  The
  streaming interfaces are taken to hash the concatenation of what they are fed.
 */
module Cipher {
  import opened Common
  import opened Decimal

  type Byte = bv8
  type Bytes = seq<bv8>

  const BLOCK: nat := 16
  const HMAC_SIZE: nat := 32
  const NONCE_SIZE: nat := 36

  datatype Crypto = Crypto(
    encBlock: (Bytes, Bytes) -> Bytes,
    decBlock: (Bytes, Bytes) -> Bytes,
    sha: Bytes -> Bytes,
    hmac: (Bytes, Bytes) -> Bytes)

  ghost predicate Sized(c: Crypto) {
    && (forall k: Bytes, b: Bytes :: |b| == BLOCK ==> |c.encBlock(k, b)| == BLOCK)
    && (forall k: Bytes, b: Bytes :: |b| == BLOCK ==> |c.decBlock(k, b)| == BLOCK)
    && (forall x: Bytes :: |c.sha(x)| == HMAC_SIZE)
    && (forall k: Bytes, x: Bytes :: |c.hmac(k, x)| == HMAC_SIZE)
  }

  ghost predicate Inverse(c: Crypto, key: Bytes) {
    forall b: Bytes :: |b| == BLOCK ==> c.decBlock(key, c.encBlock(key, b)) == b
  }

  function Zeros(n: nat): (z: Bytes)
    ensures |z| == n && forall i :: 0 <= i < n ==> z[i] == 0
  {
    seq(n, _ => 0)
  }

  function Xor(a: Bytes, b: Bytes): (r: Bytes)
    requires |a| == |b|
    ensures |r| == |a|
  {
    seq(|a|, i requires 0 <= i < |a| => a[i] ^ b[i])
  }

  lemma XorTwice(a: Bytes, b: Bytes)
    requires |a| == |b|
    ensures Xor(a, Xor(a, b)) == b
  {
  }

  // ----- lengths -----

  /** The ciphertext length: always room for at least one byte of padding. */
  function CipherLen(n: nat): nat {
    n + (BLOCK - n % 16)
  }

  lemma CipherLenIsLeast(n: nat, m: nat)
    ensures CipherLen(n) % BLOCK == 0 && n < CipherLen(n)
    ensures m % BLOCK == 0 && n < m ==> CipherLen(n) <= m
  {
  }

  /** Blocks are zero-filled at the end; a length that is a multiple of 16 is left alone. */
  function Fill(data: Bytes): (r: Bytes)
    ensures |r| % BLOCK == 0 && data <= r
  {
    data + Zeros((BLOCK - |data| % BLOCK) % BLOCK)
  }

  // ----- cipher block chaining -----

  /** Block n of a message. */
  function Block(data: Bytes, n: nat): (r: Bytes)
    requires BLOCK * (n + 1) <= |data|
    ensures |r| == BLOCK
  {
    data[BLOCK * n..BLOCK * (n + 1)]
  }

  /** The chaining vector for block n: the ciphertext block before it, or the initial vector. */
  function VectorAt(iv: Bytes, text: Bytes, n: nat): (r: Bytes)
    requires |iv| == BLOCK && BLOCK * n <= |text|
    ensures |r| == BLOCK
  {
    if n == 0 then iv else Block(text, n - 1)
  }

  /** What is done to one block under a chaining vector. */
  type Step = (Bytes, Bytes) -> Bytes

  ghost predicate BlockSized(f: Step) {
    forall v, b :: |v| == BLOCK == |b| ==> |f(v, b)| == BLOCK
  }

  /** The first n blocks encrypted: each is chained to the ciphertext block before it. */
  ghost function EncBlocks(enc: Step, iv: Bytes, data: Bytes, n: nat): (r: Bytes)
    requires BlockSized(enc) && |iv| == BLOCK && BLOCK * n <= |data|
    ensures |r| == BLOCK * n
    decreases n
  {
    if n == 0 then []
    else
      var e := EncBlocks(enc, iv, data, n - 1);
      e + enc(VectorAt(iv, e, n - 1), Block(data, n - 1))
  }

  /** The first n blocks decrypted, each under the ciphertext block before it. */
  ghost function DecBlocks(dec: Step, iv: Bytes, text: Bytes, n: nat): (r: Bytes)
    requires BlockSized(dec) && |iv| == BLOCK && BLOCK * n <= |text|
    ensures |r| == BLOCK * n
    decreases n
  {
    if n == 0 then []
    else DecBlocks(dec, iv, text, n - 1) + dec(VectorAt(iv, text, n - 1), Block(text, n - 1))
  }

  lemma {:induction false} EncPrefix(enc: Step, iv: Bytes, data: Bytes, n: nat, m: nat)
    requires BlockSized(enc) && |iv| == BLOCK && n <= m && BLOCK * m <= |data|
    ensures EncBlocks(enc, iv, data, m)[..BLOCK * n] == EncBlocks(enc, iv, data, n)
    decreases m
  {
    if n < m {
      EncPrefix(enc, iv, data, n, m - 1);
    }
  }

  lemma BlockOfPrefix(text: Bytes, prefix: Bytes, n: nat)
    requires BLOCK * (n + 1) <= |prefix| <= |text| && text[..|prefix|] == prefix
    ensures Block(text, n) == Block(prefix, n)
  {
    assert text[..|prefix|][BLOCK * n..BLOCK * (n + 1)] == text[BLOCK * n..BLOCK * (n + 1)];
  }

  lemma LastOfEncBlocks(enc: Step, iv: Bytes, data: Bytes, n: nat)
    requires BlockSized(enc) && |iv| == BLOCK && BLOCK * (n + 1) <= |data|
    ensures var e := EncBlocks(enc, iv, data, n);
            Block(EncBlocks(enc, iv, data, n + 1), n) == enc(VectorAt(iv, e, n), Block(data, n))
  {
  }

  lemma VectorNext(iv: Bytes, text: Bytes, block: Bytes, n: nat)
    requires |iv| == BLOCK == |block| && |text| == BLOCK * n
    ensures VectorAt(iv, text + block, n + 1) == block
  {
  }

  /** Block n of a ciphertext in terms of the ciphertext itself. */
  lemma CipherBlock(enc: Step, iv: Bytes, data: Bytes, n: nat, m: nat)
    requires BlockSized(enc) && |iv| == BLOCK && n < m && BLOCK * m <= |data|
    ensures var text := EncBlocks(enc, iv, data, m);
            Block(text, n) == enc(VectorAt(iv, text, n), Block(data, n))
  {
    var text := EncBlocks(enc, iv, data, m);
    EncPrefix(enc, iv, data, n, m);
    EncPrefix(enc, iv, data, n + 1, m);
    BlockOfPrefix(text, EncBlocks(enc, iv, data, n + 1), n);
    if n > 0 {
      BlockOfPrefix(text, EncBlocks(enc, iv, data, n), n - 1);
    }
    LastOfEncBlocks(enc, iv, data, n);
  }

  /** Under the same vector, dec undoes enc. */
  ghost predicate Inverts(dec: Step, enc: Step) {
    forall v, b {:trigger InvertsAt(dec, enc, v, b)} :: InvertsAt(dec, enc, v, b)
  }

  ghost predicate InvertsAt(dec: Step, enc: Step, v: Bytes, b: Bytes) {
    |v| == BLOCK == |b| ==> dec(v, enc(v, b)) == b
  }

  lemma {:induction false} DecryptInvertsPrefix(enc: Step, dec: Step, iv: Bytes, data: Bytes, n: nat, m: nat)
    requires BlockSized(enc) && BlockSized(dec) && Inverts(dec, enc)
    requires |iv| == BLOCK && n <= m && BLOCK * m <= |data|
    ensures DecBlocks(dec, iv, EncBlocks(enc, iv, data, m), n) == data[..BLOCK * n]
    decreases n
  {
    if n > 0 {
      var text := EncBlocks(enc, iv, data, m);
      DecryptInvertsPrefix(enc, dec, iv, data, n - 1, m);
      CipherBlock(enc, iv, data, n - 1, m);
      assert InvertsAt(dec, enc, VectorAt(iv, text, n - 1), Block(data, n - 1));
      assert data[..BLOCK * n] == data[..BLOCK * (n - 1)] + Block(data, n - 1);
    }
  }

  /** The two steps of the cipher: combine and encrypt; decrypt and combine. */
  ghost function EncStep(c: Crypto, key: Bytes): Step {
    (v: Bytes, b: Bytes) => if |v| == |b| then c.encBlock(key, Xor(v, b)) else []
  }

  ghost function DecStep(c: Crypto, key: Bytes): Step {
    (v: Bytes, b: Bytes) => if |v| == |c.decBlock(key, b)| then Xor(v, c.decBlock(key, b)) else []
  }

  /** What the loops know of the steps. */
  ghost predicate IsEncStep(enc: Step, c: Crypto, key: Bytes) {
    BlockSized(enc) && forall v, b {:trigger EncStepAt(enc, c, key, v, b)} :: EncStepAt(enc, c, key, v, b)
  }

  ghost predicate EncStepAt(enc: Step, c: Crypto, key: Bytes, v: Bytes, b: Bytes) {
    |v| == BLOCK == |b| ==> enc(v, b) == c.encBlock(key, Xor(v, b))
  }

  ghost predicate IsDecStep(dec: Step, c: Crypto, key: Bytes) {
    BlockSized(dec) && forall v, b {:trigger DecStepAt(dec, c, key, v, b)} :: DecStepAt(dec, c, key, v, b)
  }

  ghost predicate DecStepAt(dec: Step, c: Crypto, key: Bytes, v: Bytes, b: Bytes) {
    |v| == BLOCK == |b| ==> |c.decBlock(key, b)| == BLOCK && dec(v, b) == Xor(v, c.decBlock(key, b))
  }

  lemma EncStepIs(c: Crypto, key: Bytes)
    requires Sized(c)
    ensures IsEncStep(EncStep(c, key), c, key)
  {
    forall v, b | |v| == BLOCK == |b|
      ensures |EncStep(c, key)(v, b)| == BLOCK
    {
      assert |Xor(v, b)| == BLOCK;
    }
  }

  lemma DecStepIs(c: Crypto, key: Bytes)
    requires Sized(c)
    ensures IsDecStep(DecStep(c, key), c, key)
  {
  }

  lemma StepsInvert(c: Crypto, key: Bytes)
    requires Sized(c) && Inverse(c, key)
    ensures Inverts(DecStep(c, key), EncStep(c, key))
  {
    forall v, b
      ensures InvertsAt(DecStep(c, key), EncStep(c, key), v, b)
    {
      if |v| == BLOCK == |b| {
        XorTwice(v, b);
      }
    }
  }

  ghost function EncAll(c: Crypto, key: Bytes, iv: Bytes, data: Bytes): (r: Bytes)
    requires Sized(c) && |iv| == BLOCK && |data| % BLOCK == 0
    ensures |r| == |data|
  {
    EncStepIs(c, key);
    EncBlocks(EncStep(c, key), iv, data, |data| / BLOCK)
  }

  ghost function DecAll(c: Crypto, key: Bytes, iv: Bytes, data: Bytes): (r: Bytes)
    requires Sized(c) && |iv| == BLOCK && |data| % BLOCK == 0
    ensures |r| == |data|
  {
    DecStepIs(c, key);
    DecBlocks(DecStep(c, key), iv, data, |data| / BLOCK)
  }

  lemma DecryptInvertsEncrypt(c: Crypto, key: Bytes, iv: Bytes, data: Bytes)
    requires Sized(c) && Inverse(c, key) && |iv| == BLOCK && |data| % BLOCK == 0
    ensures DecAll(c, key, iv, EncAll(c, key, iv, data)) == data
  {
    var m := |data| / BLOCK;
    EncStepIs(c, key);
    DecStepIs(c, key);
    StepsInvert(c, key);
    DecryptInvertsPrefix(EncStep(c, key), DecStep(c, key), iv, data, m, m);
    assert data[..BLOCK * m] == data;
  }

  // ----- keys -----

  function AsciiDigits(ds: seq<nat>): (r: Bytes)
    requires AllDigits(ds)
    ensures |r| == |ds|
  {
    seq(|ds|, i requires 0 <= i < |ds| => DigitByte(ds[i]))
  }

  function DigitByte(d: nat): Byte
    requires d < 10
  {
    [48, 49, 50, 51, 52, 53, 54, 55, 56, 57][d]
  }

  const HYPHEN: Byte := 45

  /** "<device>-<timestamp>", cut or zero-filled to 36 bytes. */
  function Nonce(device: Bytes, timestamp: nat): (r: Bytes)
    ensures |r| == NONCE_SIZE
  {
    var text := NonceText(device, timestamp);
    if |text| >= NONCE_SIZE then text[..NONCE_SIZE] else text + Zeros(NONCE_SIZE - |text|)
  }

  function Base(c: Crypto, key: Bytes, device: Bytes, timestamp: nat): Bytes {
    c.sha(BaseInput(key, device, timestamp))
  }

  function FoldIv(digest: Bytes): (r: Bytes)
    requires |digest| == HMAC_SIZE
    ensures |r| == BLOCK
  {
    Xor(digest[..BLOCK], digest[BLOCK..])
  }

  // ----- what the keys tell apart -----

  /** The bytes of a number have no hyphen among them and are not zero. */
  lemma DigitByteIsAscii(d: nat)
    requires d < 10
    ensures DigitByte(d) as int == 48 + d && DigitByte(d) != HYPHEN && DigitByte(d) != 0
  {
  }

  lemma DigitByteInjective(d: nat, e: nat)
    requires d < 10 && e < 10 && DigitByte(d) == DigitByte(e)
    ensures d == e
  {
    DigitByteIsAscii(d);
    DigitByteIsAscii(e);
  }

  lemma AsciiDigitsInjective(ds: seq<nat>, es: seq<nat>)
    requires AllDigits(ds) && AllDigits(es) && AsciiDigits(ds) == AsciiDigits(es)
    ensures ds == es
  {
    forall i | 0 <= i < |ds|
      ensures ds[i] == es[i]
    {
      assert AsciiDigits(ds)[i] == AsciiDigits(es)[i];
      DigitByteInjective(ds[i], es[i]);
    }
  }

  /** The text that the nonce is cut from. */
  function NonceText(device: Bytes, timestamp: nat): Bytes {
    device + [HYPHEN] + AsciiDigits(DigitsOf(timestamp))
  }

  predicate Fits(device: Bytes, timestamp: nat) {
    |device| + 1 + |DigitsOf(timestamp)| <= NONCE_SIZE
  }

  /** Where the text ends: it ends with a digit, and only zeros follow. */
  lemma NonceEnd(device: Bytes, timestamp: nat)
    requires Fits(device, timestamp)
    ensures var r, n := Nonce(device, timestamp), |NonceText(device, timestamp)|;
            && r[..n] == NonceText(device, timestamp) && r[n - 1] != 0 && forall i :: n <= i < NONCE_SIZE ==> r[i] == 0
  {
    var text, ds := NonceText(device, timestamp), DigitsOf(timestamp);
    assert text[|text| - 1] == AsciiDigits(ds)[|ds| - 1];
    DigitByteIsAscii(ds[|ds| - 1]);
  }

  lemma SameNonceSameText(d: Bytes, t: nat, d': Bytes, t': nat)
    requires Fits(d, t) && Fits(d', t') && Nonce(d, t) == Nonce(d', t')
    ensures NonceText(d, t) == NonceText(d', t')
  {
    NonceEnd(d, t);
    NonceEnd(d', t');
    assert |NonceText(d, t)| == |NonceText(d', t')|;
  }

  lemma NoHyphenAfter(d: Bytes, t: nat)
    ensures forall i :: |d| < i < |NonceText(d, t)| ==> NonceText(d, t)[i] != HYPHEN
  {
    forall i | |d| < i < |NonceText(d, t)|
      ensures NonceText(d, t)[i] != HYPHEN
    {
      assert NonceText(d, t)[i] == AsciiDigits(DigitsOf(t))[i - |d| - 1];
      DigitByteIsAscii(DigitsOf(t)[i - |d| - 1]);
    }
  }

  /** The last hyphen separates device and timestamp. */
  lemma SameTextSameParts(d: Bytes, t: nat, d': Bytes, t': nat)
    requires NonceText(d, t) == NonceText(d', t') && |d| <= |d'|
    ensures d == d' && t == t'
  {
    var x, ds, es := NonceText(d, t), DigitsOf(t), DigitsOf(t');
    NoHyphenAfter(d, t);
    assert x[|d'|] == HYPHEN;
    assert |d| == |d'|;
    assert d == x[..|d|] && d' == x[..|d'|];
    assert AsciiDigits(ds) == x[|d| + 1..] && AsciiDigits(es) == x[|d'| + 1..];
    AsciiDigitsInjective(ds, es);
    ValueOfDigits(t);
    ValueOfDigits(t');
  }

  /** As long as the text fits, the nonce tells devices and timestamps apart. */
  lemma NonceInjective(d: Bytes, t: nat, d': Bytes, t': nat)
    requires Fits(d, t) && Fits(d', t') && Nonce(d, t) == Nonce(d', t')
    ensures d == d' && t == t'
  {
    SameNonceSameText(d, t, d', t');
    if |d| <= |d'| {
      SameTextSameParts(d, t, d', t');
    } else {
      SameTextSameParts(d', t', d, t);
    }
  }

  const UINT64_RANGE: nat := 0x1_0000_0000_0000_0000

  ghost predicate SeparatesTimestamps(device: Bytes) {
    forall t: nat, t': nat {:trigger Nonce(device, t), Nonce(device, t')} ::
      t < UINT64_RANGE && t' < UINT64_RANGE && Nonce(device, t) == Nonce(device, t') ==> t == t'
  }

  lemma DigitsOfNext(n: nat, d: nat)
    requires 1 <= n && d < 10
    ensures DigitsOf(10 * n + d) == DigitsOf(n) + [d]
  {
    assert (10 * n + d) / 10 == n && (10 * n + d) % 10 == d;
  }

  /** Two timestamps of 20 digits that differ in the last one. */
  lemma CutTimestamps(device: Bytes)
    requires |device| >= 16
    ensures Nonce(device, 10_000_000_000_000_000_000) == Nonce(device, 10_000_000_000_000_000_001)
  {
    var n := 1_000_000_000_000_000_000;
    DigitsOfNext(n, 0);
    DigitsOfNext(n, 1);
    assert |DigitsOf(n)| >= 19 by {
      Pow10At18();
      DigitsFit(n, 18);
    }
    CutAlike(device, DigitsOf(n));
  }

  lemma CutAlike(device: Bytes, ds: seq<nat>)
    requires AllDigits(ds) && |device| + 1 + |ds| >= NONCE_SIZE
    ensures (device + [HYPHEN] + AsciiDigits(ds + [0]))[..NONCE_SIZE] ==
            (device + [HYPHEN] + AsciiDigits(ds + [1]))[..NONCE_SIZE]
  {
    var x, y := AsciiDigits(ds + [0]), AsciiDigits(ds + [1]);
    assert forall i :: 0 <= i < |ds| ==> x[i] == y[i];
  }

  lemma Pow10At18()
    ensures Pow10(18) == 1_000_000_000_000_000_000 && Pow10(20) == 100_000_000_000_000_000_000
  {
    assert Pow10(6) == 1_000_000;
    assert Pow10(12) == 1_000_000_000_000;
  }

  /** Which is so for every timestamp of 64 bits if and only if the device id has at most 15 bytes:
      at 16 the last digit of the longest timestamps is cut off. */
  lemma NonceSeparatesExactly(device: Bytes)
    ensures SeparatesTimestamps(device) <==> |device| <= 15
  {
    if |device| <= 15 {
      forall t: nat, t': nat | t < UINT64_RANGE && t' < UINT64_RANGE && Nonce(device, t) == Nonce(device, t')
        ensures t == t'
      {
        Pow10At18();
        DigitsFit(t, 20);
        DigitsFit(t', 20);
        NonceInjective(device, t, device, t');
      }
    } else {
      CutTimestamps(device);
      assert Nonce(device, 10_000_000_000_000_000_000) == Nonce(device, 10_000_000_000_000_000_001);
    }
  }

  /** What is hashed into the base: 32 zeros, the device id, a hyphen and the decimal timestamp in
      36 bytes filled with zeros, and the key. */
  ghost predicate LaidOut(x: Bytes, key: Bytes, device: Bytes, timestamp: nat) {
    |x| == 68 + |key| && forall i :: 0 <= i < |x| ==> x[i] == LayoutAt(key, device, timestamp, i)
  }

  function LayoutAt(key: Bytes, device: Bytes, timestamp: nat, i: nat): Byte
    requires i < 68 + |key|
  {
    var ds, n := DigitsOf(timestamp), |device|;
    if i < 32 then 0
    else if i < 32 + n then device[i - 32]
    else if i == 32 + n then 45
    else if i < 33 + n + |ds| then DigitByte(ds[i - 33 - n])
    else if i < 68 then 0
    else key[i - 68]
  }

  function BaseInput(key: Bytes, device: Bytes, timestamp: nat): Bytes {
    Zeros(HMAC_SIZE) + Nonce(device, timestamp) + key
  }

  // ----- the two operations on values -----

  datatype Sealed = Sealed(iv: Bytes, hmac: Bytes, ciphertext: Bytes)

  ghost function Encrypt(c: Crypto, key: Bytes, device: Bytes, timestamp: nat, plain: Bytes): Sealed
    requires Sized(c)
  {
    var base := Base(c, key, device, timestamp);
    var iv := FoldIv(base);
    var out := EncAll(c, key, iv, plain + Zeros(CipherLen(|plain|) - |plain|));
    Sealed(iv, c.hmac(base, out), out)
  }

  /** None when the HMAC does not match. */
  ghost function Decrypt(c: Crypto, key: Bytes, device: Bytes, timestamp: nat, s: Sealed): Option<Bytes>
    requires Sized(c) && |s.iv| == BLOCK
  {
    var data := Fill(s.ciphertext);
    if c.hmac(Base(c, key, device, timestamp), data) == s.hmac then Some(DecAll(c, key, s.iv, data)) else None
  }

  /** The round trip, for every length: the HMAC check passes and the plaintext comes back
      followed only by zero bytes. */
  lemma CipherRoundTrip(c: Crypto, key: Bytes, device: Bytes, timestamp: nat, plain: Bytes)
    requires Sized(c) && Inverse(c, key)
    ensures var s := Encrypt(c, key, device, timestamp, plain);
            && |s.iv| == BLOCK && |s.ciphertext| == CipherLen(|plain|)
            && Decrypt(c, key, device, timestamp, s) == Some(plain + Zeros(CipherLen(|plain|) - |plain|))
  {
    var s := Encrypt(c, key, device, timestamp, plain);
    var data := plain + Zeros(CipherLen(|plain|) - |plain|);
    assert |data| % BLOCK == 0 && s.ciphertext == EncAll(c, key, s.iv, data);
    FillAligned(s.ciphertext);
    DecryptInvertsEncrypt(c, key, s.iv, data);
  }

  /** A hash or an HMAC that differs on two inputs, unless they are the same. */
  ghost predicate ShaTellsApart(c: Crypto, x: Bytes, y: Bytes) {
    c.sha(x) == c.sha(y) ==> x == y
  }

  ghost predicate HmacTellsApart(c: Crypto, k: Bytes, x: Bytes, k': Bytes, y: Bytes) {
    c.hmac(k, x) == c.hmac(k', y) ==> k == k' && x == y
  }

  lemma BaseInputInjective(key: Bytes, d: Bytes, t: nat, key': Bytes, d': Bytes, t': nat)
    requires Fits(d, t) && Fits(d', t') && BaseInput(key, d, t) == BaseInput(key', d', t')
    ensures key == key' && d == d' && t == t'
  {
    var x, y := BaseInput(key, d, t), BaseInput(key', d', t');
    assert x[32..68] == Nonce(d, t) && y[32..68] == Nonce(d', t');
    assert x[68..] == key && y[68..] == key';
    NonceInjective(d, t, d', t');
  }

  /** What is hashed is exactly what was laid out. */
  lemma BaseHashes(c: Crypto, key: Bytes, device: Bytes, timestamp: nat, x: Bytes)
    requires Fits(device, timestamp) && LaidOut(x, key, device, timestamp)
    ensures Base(c, key, device, timestamp) == c.sha(x)
  {
    var y := BaseInput(key, device, timestamp);
    forall i | 0 <= i < |y|
      ensures y[i] == x[i]
    {
      BaseInputAt(key, device, timestamp, i);
    }
    assert x == y;
  }

  lemma BaseInputAt(key: Bytes, device: Bytes, timestamp: nat, i: nat)
    requires Fits(device, timestamp) && i < 68 + |key|
    ensures |BaseInput(key, device, timestamp)| == 68 + |key|
    ensures BaseInput(key, device, timestamp)[i] == LayoutAt(key, device, timestamp, i)
  {
    if 32 <= i < 68 {
      NonceAt(device, timestamp, i - 32);
      assert BaseInput(key, device, timestamp)[i] == Nonce(device, timestamp)[i - 32];
    }
  }

  lemma NonceAt(device: Bytes, timestamp: nat, j: nat)
    requires Fits(device, timestamp) && j < 36
    ensures var ds, n := DigitsOf(timestamp), |device|;
            Nonce(device, timestamp)[j] ==
              if j < n then device[j] else if j == n then 45
              else if j < n + 1 + |ds| then DigitByte(ds[j - n - 1]) else 0
  {
    var ds, n := DigitsOf(timestamp), |device|;
    if n < j < n + 1 + |ds| {
      assert NonceText(device, timestamp)[j] == AsciiDigits(ds)[j - n - 1];
    }
  }

  /** The vector is the exclusive or of the two halves of the base: with one half it gives the other. */
  lemma VectorOfHalves(c: Crypto, key: Bytes, device: Bytes, timestamp: nat, plain: Bytes)
    requires Sized(c)
    ensures var base, iv := Base(c, key, device, timestamp), Encrypt(c, key, device, timestamp, plain).iv;
            && |iv| == 16 && |base| == 32
            && Xor(base[..16], iv) == base[16..]
            && forall i :: 0 <= i < 16 ==> iv[i] == base[i] ^ base[i + 16]
  {
    var base := Base(c, key, device, timestamp);
    XorTwice(base[..16], base[16..]);
  }

  /** Cipher block chaining: the first block is combined with the vector, every other one with the
      ciphertext block before it, and what is encrypted is the combination. */
  lemma EncryptsByChaining(c: Crypto, key: Bytes, iv: Bytes, data: Bytes, n: nat)
    requires Sized(c) && |iv| == BLOCK && |data| % BLOCK == 0 && 16 * (n + 1) <= |data|
    ensures var text := EncAll(c, key, iv, data);
            var prev := if n == 0 then iv else text[16 * (n - 1)..16 * n];
            text[16 * n..16 * (n + 1)] ==
              c.encBlock(key, seq(16, i requires 0 <= i < 16 => prev[i] ^ data[16 * n + i]))
  {
    var text := EncAll(c, key, iv, data);
    EncStepIs(c, key);
    CipherBlock(EncStep(c, key), iv, data, n, |data| / BLOCK);
    var prev := VectorAt(iv, text, n);
    assert EncStepAt(EncStep(c, key), c, key, prev, Block(data, n));
    assert Xor(prev, Block(data, n)) == seq(16, i requires 0 <= i < 16 => prev[i] ^ data[16 * n + i]);
  }

  lemma LastOfDecBlocks(dec: Step, iv: Bytes, text: Bytes, n: nat)
    requires BlockSized(dec) && |iv| == BLOCK && BLOCK * (n + 1) <= |text|
    ensures Block(DecBlocks(dec, iv, text, n + 1), n) == dec(VectorAt(iv, text, n), Block(text, n))
  {
  }

  /** Decryption of any ciphertext, block by block. */
  lemma DecryptsByChaining(c: Crypto, key: Bytes, iv: Bytes, text: Bytes, n: nat)
    requires Sized(c) && |iv| == BLOCK && |text| % BLOCK == 0 && 16 * (n + 1) <= |text|
    ensures var prev := if n == 0 then iv else text[16 * (n - 1)..16 * n];
            var d := c.decBlock(key, text[16 * n..16 * (n + 1)]);
            |d| == 16 &&
            DecAll(c, key, iv, text)[16 * n..16 * (n + 1)] == seq(16, i requires 0 <= i < 16 => prev[i] ^ d[i])
  {
    DecStepIs(c, key);
    var dec, m := DecStep(c, key), |text| / BLOCK;
    DecPrefix(dec, iv, text, n + 1, m);
    BlockOfPrefix(DecBlocks(dec, iv, text, m), DecBlocks(dec, iv, text, n + 1), n);
    LastOfDecBlocks(dec, iv, text, n);
    var prev, d := VectorAt(iv, text, n), c.decBlock(key, Block(text, n));
    assert DecStepAt(dec, c, key, prev, Block(text, n));
    assert Xor(prev, d) == seq(16, i requires 0 <= i < 16 => prev[i] ^ d[i]);
  }

  lemma {:induction false} DecPrefix(dec: Step, iv: Bytes, text: Bytes, n: nat, m: nat)
    requires BlockSized(dec) && |iv| == BLOCK && n <= m && BLOCK * m <= |text|
    ensures DecBlocks(dec, iv, text, m)[..BLOCK * n] == DecBlocks(dec, iv, text, n)
    decreases m
  {
    if n < m {
      DecPrefix(dec, iv, text, n, m - 1);
    }
  }

  /** A sealed message opens under exactly the key, device and timestamp it was sealed under, as far
      as the hash and the HMAC tell the inputs at hand apart. */
  lemma OpensExactlyUnderItsOwn(
      c: Crypto, key: Bytes, d: Bytes, t: nat, plain: Bytes, key': Bytes, d': Bytes, t': nat)
    requires Sized(c) && Inverse(c, key) && Fits(d, t) && Fits(d', t')
    requires ShaTellsApart(c, BaseInput(key, d, t), BaseInput(key', d', t'))
    requires var text := Encrypt(c, key, d, t, plain).ciphertext;
             HmacTellsApart(c, Base(c, key, d, t), text, Base(c, key', d', t'), text)
    ensures var s := Encrypt(c, key, d, t, plain);
            |s.iv| == BLOCK && (Decrypt(c, key', d', t', s).Some? <==> key == key' && d == d' && t == t')
  {
    var s := Encrypt(c, key, d, t, plain);
    CipherRoundTrip(c, key, d, t, plain);
    assert |s.ciphertext| % BLOCK == 0;
    FillAligned(s.ciphertext);
    if Decrypt(c, key', d', t', s).Some? {
      BaseInputInjective(key, d, t, key', d', t');
    }
  }

  /** And with another ciphertext exactly if that is filled with zeros to the same one. */
  lemma OpensExactlyItsOwn(c: Crypto, key: Bytes, d: Bytes, t: nat, plain: Bytes, other: Bytes)
    requires Sized(c)
    requires var base, text := Base(c, key, d, t), Encrypt(c, key, d, t, plain).ciphertext;
             HmacTellsApart(c, base, text, base, Fill(other))
    ensures var s := Encrypt(c, key, d, t, plain);
            |s.iv| == BLOCK &&
            (Decrypt(c, key, d, t, s.(ciphertext := other)).Some? <==> Fill(other) == s.ciphertext)
  {
  }

  lemma FillAligned(data: Bytes)
    requires |data| % BLOCK == 0
    ensures Fill(data) == data
  {
  }

  // ----- the two operations in place -----

  class CipherCtx {
    const plaintext: array<Byte>
    var plaintextLen: nat
    const ciphertext: array<Byte>
    var ciphertextLen: nat
    var iv: Bytes
    const key: Bytes
    const device: Bytes
    var hmac: Bytes
    var timestamp: nat

    ghost predicate Valid()
      reads this
    {
      plaintext != ciphertext && |key| == 32 && |iv| == BLOCK && |hmac| == HMAC_SIZE
    }

    constructor (plaintext: array<Byte>, plaintextLen: nat, ciphertext: array<Byte>, ciphertextLen: nat,
                 key: Bytes, device: Bytes, timestamp: nat)
      requires plaintext != ciphertext && |key| == 32
      ensures Valid()
      ensures this.plaintext == plaintext && this.plaintextLen == plaintextLen
      ensures this.ciphertext == ciphertext && this.ciphertextLen == ciphertextLen
      ensures this.key == key && this.device == device && this.timestamp == timestamp
    {
      this.plaintext, this.plaintextLen := plaintext, plaintextLen;
      this.ciphertext, this.ciphertextLen := ciphertext, ciphertextLen;
      this.key, this.device, this.timestamp := key, device, timestamp;
      iv, hmac := Zeros(BLOCK), Zeros(HMAC_SIZE);
    }
  }

  method CopyTo(dst: array<Byte>, at: nat, src: Bytes)
    requires at + |src| <= dst.Length
    modifies dst
    ensures dst[at..at + |src|] == src
    ensures dst[..at] == old(dst[..at]) && dst[at + |src|..] == old(dst[at + |src|..])
  {
    forall i | 0 <= i < |src| {
      dst[at + i] := src[i];
    }
  }

  /** Writing one block behind the i bytes already there. */
  method AppendBlock(dst: array<Byte>, i: nat, block: Bytes)
    requires i + BLOCK <= dst.Length && |block| == BLOCK
    modifies dst
    ensures dst[..i + BLOCK] == old(dst[..i]) + block
    ensures dst[i + BLOCK..] == old(dst[i + BLOCK..])
  {
    CopyTo(dst, i, block);
    assert dst[..i + BLOCK] == dst[..i] + dst[i..i + BLOCK];
  }

  /** The part of a zero-filled block loop that the in-place buffers see: block i of the input. */
  function BlockAt(data: Bytes, i: nat): (r: Bytes)
    requires i <= |data|
    ensures |r| == BLOCK
  {
    if |data| - i > BLOCK then data[i..i + BLOCK] else data[i..] + Zeros(BLOCK - (|data| - i))
  }

  /** Clearing a block buffer and copying up to 16 bytes into it.  Both loops call it with i at
      most len, so the unsigned difference len - i does not wrap around. */
  method ReadBlock(src: array<Byte>, len: nat, i: nat) returns (buf: Bytes)
    requires i <= len <= src.Length
    ensures buf == BlockAt(src[..len], i)
  {
    var n := if len - i > BLOCK then BLOCK else len - i;
    buf := src[i..i + n] + Zeros(BLOCK - n);
  }

  lemma BlockOfPadded(data: Bytes, pad: nat, n: nat)
    requires pad <= BLOCK && BLOCK * n <= |data| && BLOCK * (n + 1) <= |data| + pad && (|data| + pad) % BLOCK == 0
    ensures Block(data + Zeros(pad), n) == BlockAt(data, BLOCK * n)
  {
  }

  /** aes_encrypt. */
  method AesEncrypt(c: Crypto, ctx: CipherCtx) returns (status: Status)
    requires Sized(c) && ctx.Valid()
    requires ctx.plaintextLen <= ctx.plaintext.Length && ctx.ciphertextLen <= ctx.ciphertext.Length
    modifies ctx, ctx.ciphertext
    ensures ctx.Valid() && ctx.plaintextLen == old(ctx.plaintextLen) && ctx.timestamp == old(ctx.timestamp)
    ensures status == if CipherLen(ctx.plaintextLen) <= old(ctx.ciphertextLen) then Ok else CipherError
    ensures status != Ok ==> unchanged(ctx) && unchanged(ctx.ciphertext)
    ensures status == Ok ==>
              && ctx.ciphertextLen == CipherLen(ctx.plaintextLen)
              && ctx.ciphertextLen <= ctx.ciphertext.Length
              && Sealed(ctx.iv, ctx.hmac, ctx.ciphertext[..ctx.ciphertextLen]) ==
                   Encrypt(c, ctx.key, ctx.device, ctx.timestamp, ctx.plaintext[..ctx.plaintextLen])
              && ctx.ciphertext[ctx.ciphertextLen..] == old(ctx.ciphertext[CipherLen(ctx.plaintextLen)..])
  {
    var len := ctx.plaintextLen;
    var newLen := len + (BLOCK - len % 16);
    if newLen > ctx.ciphertextLen {
      return CipherError;
    }
    ctx.ciphertextLen := newLen;
    var base := Base(c, ctx.key, ctx.device, ctx.timestamp);
    var tmp := FoldIv(base);
    ctx.iv := tmp;
    EncStepIs(c, ctx.key);
    ghost var plain := ctx.plaintext[..len];
    PaddedBlocks(plain, newLen - len);
    var mac := EncryptBlocks(c, ctx, len, newLen, tmp, EncStep(c, ctx.key), plain + Zeros(newLen - len));
    ctx.hmac := c.hmac(base, mac);
    status := Ok;
  }

  /** One round of the encryption loop: read and zero-fill a block, combine, encrypt, write. */
  method EncryptOne(c: Crypto, ctx: CipherCtx, len: nat, newLen: nat, i: nat, tmp: Bytes, ghost enc: Step)
      returns (buf: Bytes)
    requires Sized(c) && ctx.Valid() && |tmp| == BLOCK && IsEncStep(enc, c, ctx.key)
    requires i <= len <= ctx.plaintext.Length && i + BLOCK <= newLen <= ctx.ciphertext.Length
    modifies ctx.ciphertext
    ensures |buf| == BLOCK && buf == enc(tmp, BlockAt(old(ctx.plaintext[..len]), i))
    ensures ctx.ciphertext[..i + BLOCK] == old(ctx.ciphertext[..i]) + buf
    ensures ctx.ciphertext[newLen..] == old(ctx.ciphertext[newLen..])
  {
    buf := ReadBlock(ctx.plaintext, len, i);
    assert EncStepAt(enc, c, ctx.key, tmp, buf);
    buf := c.encBlock(ctx.key, Xor(tmp, buf));
    AppendBlock(ctx.ciphertext, i, buf);
    ghost var k := newLen - (i + BLOCK);
    assert ctx.ciphertext[newLen..] == ctx.ciphertext[i + BLOCK..][k..];
    assert old(ctx.ciphertext[newLen..]) == old(ctx.ciphertext[i + BLOCK..])[k..];
  }

  /** The whole blocks of data are those the loops read from a buffer that holds text. */
  ghost predicate BlocksOf(data: Bytes, text: Bytes) {
    && |data| % BLOCK == 0 && |text| <= |data| <= |text| + BLOCK
    && forall n: nat {:trigger BlocksOfAt(data, text, n)} :: BlocksOfAt(data, text, n)
  }

  ghost predicate BlocksOfAt(data: Bytes, text: Bytes, n: nat) {
    BLOCK * (n + 1) <= |data| && BLOCK * n <= |text| ==> Block(data, n) == BlockAt(text, BLOCK * n)
  }

  lemma PaddedBlocks(text: Bytes, pad: nat)
    requires pad <= BLOCK && (|text| + pad) % BLOCK == 0
    ensures BlocksOf(text + Zeros(pad), text)
  {
    forall n: nat
      ensures BlocksOfAt(text + Zeros(pad), text, n)
    {
      if BLOCK * (n + 1) <= |text| + pad && BLOCK * n <= |text| {
        BlockOfPadded(text, pad, n);
      }
    }
  }

  /** The encryption loop: buf, the chaining vector and the output position move together. */
  method EncryptBlocks(
      c: Crypto, ctx: CipherCtx, len: nat, newLen: nat, iv: Bytes, ghost enc: Step, ghost data: Bytes)
      returns (mac: Bytes)
    requires Sized(c) && ctx.Valid() && |iv| == BLOCK && IsEncStep(enc, c, ctx.key)
    requires len <= ctx.plaintext.Length && newLen == CipherLen(len) <= ctx.ciphertext.Length
    requires |data| == newLen && BlocksOf(data, ctx.plaintext[..len])
    modifies ctx.ciphertext
    ensures mac == ctx.ciphertext[..newLen]
    ensures mac == EncBlocks(enc, iv, data, newLen / BLOCK)
    ensures ctx.ciphertext[newLen..] == old(ctx.ciphertext[newLen..])
  {
    ghost var plain := ctx.plaintext[..len];
    ghost var n := 0;
    var tmp := iv;
    var i := 0;
    mac := [];
    while i < newLen
      invariant i == BLOCK * n <= newLen
      invariant ctx.plaintext[..len] == plain
      invariant mac == ctx.ciphertext[..i]
      invariant mac == EncBlocks(enc, iv, data, n)
      invariant tmp == VectorAt(iv, mac, n)
      invariant ctx.ciphertext[newLen..] == old(ctx.ciphertext[newLen..])
    {
      assert BlocksOfAt(data, plain, n);
      var buf := EncryptOne(c, ctx, len, newLen, i, tmp, enc);
      VectorNext(iv, mac, buf, n);
      tmp := buf;
      mac := mac + buf;
      i := i + BLOCK;
      n := n + 1;
    }
  }

  /** aes_decrypt.  The plaintext buffer must take whole blocks, and is written before the HMAC
      is compared. */
  method AesDecrypt(c: Crypto, ctx: CipherCtx) returns (status: Status)
    requires Sized(c) && ctx.Valid()
    requires ctx.ciphertextLen <= ctx.ciphertext.Length
    requires |Fill(ctx.ciphertext[..ctx.ciphertextLen])| <= ctx.plaintext.Length
    modifies ctx`iv, ctx.plaintext
    ensures var s := old(Sealed(ctx.iv, ctx.hmac, ctx.ciphertext[..ctx.ciphertextLen]));
            var n := |Fill(s.ciphertext)|;
            var r := Decrypt(c, ctx.key, ctx.device, ctx.timestamp, s);
            && status == (if r.Some? then Ok else CipherError)
            && ctx.plaintext[..n] == DecAll(c, ctx.key, s.iv, Fill(s.ciphertext))
            && (r.Some? ==> ctx.plaintext[..n] == r.value)
            && ctx.iv == if n == 0 then s.iv else Fill(s.ciphertext)[n - 16..]
  {
    var base := Base(c, ctx.key, ctx.device, ctx.timestamp);
    var len := ctx.ciphertextLen;
    DecStepIs(c, ctx.key);
    ghost var text := ctx.ciphertext[..len];
    PaddedBlocks(text, |Fill(text)| - len);
    var mac, vec := DecryptBlocks(c, ctx, len, ctx.iv, DecStep(c, ctx.key), Fill(text));
    ctx.iv := vec;
    var digest := c.hmac(base, mac);
    status := if digest != ctx.hmac then CipherError else Ok;
  }

  /** One round of the decryption loop; the block read is returned, its plaintext written. */
  method DecryptOne(c: Crypto, ctx: CipherCtx, len: nat, i: nat, vec: Bytes, ghost dec: Step) returns (buf: Bytes)
    requires Sized(c) && ctx.Valid() && |vec| == BLOCK && IsDecStep(dec, c, ctx.key)
    requires i <= len <= ctx.ciphertext.Length && i + BLOCK <= ctx.plaintext.Length
    modifies ctx.plaintext
    ensures buf == BlockAt(old(ctx.ciphertext[..len]), i)
    ensures ctx.plaintext[..i + BLOCK] == old(ctx.plaintext[..i]) + dec(vec, buf)
  {
    buf := ReadBlock(ctx.ciphertext, len, i);
    assert DecStepAt(dec, c, ctx.key, vec, buf);
    AppendBlock(ctx.plaintext, i, Xor(vec, c.decBlock(ctx.key, buf)));
  }

  /** The decryption loop; vec is the chaining vector that ends up in the context. */
  method DecryptBlocks(c: Crypto, ctx: CipherCtx, len: nat, iv: Bytes, ghost dec: Step, ghost data: Bytes)
      returns (mac: Bytes, vec: Bytes)
    requires Sized(c) && ctx.Valid() && |iv| == BLOCK && IsDecStep(dec, c, ctx.key)
    requires len <= ctx.ciphertext.Length && |data| <= ctx.plaintext.Length
    requires |data| < len + BLOCK && BlocksOf(data, ctx.ciphertext[..len])
    modifies ctx.plaintext
    ensures mac == data
    ensures ctx.plaintext[..|data|] == DecBlocks(dec, iv, data, |data| / BLOCK)
    ensures vec == VectorAt(iv, data, |data| / BLOCK)
  {
    ghost var text := ctx.ciphertext[..len];
    ghost var n := 0;
    vec := iv;
    mac := [];
    var i := 0;
    while i < len
      invariant i == BLOCK * n <= |data|
      invariant ctx.ciphertext[..len] == text
      invariant mac == data[..i]
      invariant ctx.plaintext[..i] == DecBlocks(dec, iv, data, n)
      invariant vec == VectorAt(iv, data, n)
      decreases |data| - i
    {
      assert BlocksOfAt(data, text, n);
      var buf := DecryptOne(c, ctx, len, i, vec, dec);
      vec := buf;
      mac := mac + buf;
      i := i + BLOCK;
      n := n + 1;
    }
  }
}
