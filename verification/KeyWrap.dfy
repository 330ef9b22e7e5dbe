/** AES key wrap with padding (RFC 5649), as written in src/crypto/mbedtls.cc.
    AES itself is an arbitrary permutation of 16-octet blocks. */
module KeyWrap {

  type Byte = x: int | 0 <= x < 256

  const TWO_31: nat := 0x8000_0000
  const TWO_32: nat := 0x1_0000_0000
  const TWO_63: nat := 0x8000_0000_0000_0000
  const TWO_64: nat := 0x1_0000_0000_0000_0000

  datatype AesId = AES128 | AES192 | AES256 | UnknownId
  datatype Error = InvalidInputData | UnspecifiedError
  datatype Result<T> = Ok(value: T) | Err(error: Error)

  /** One AES key schedule: encryption and decryption of a block. */
  datatype BlockCipher = BlockCipher(encrypt: seq<Byte> -> seq<Byte>, decrypt: seq<Byte> -> seq<Byte>) {
    ghost predicate Permutes() {
      && (forall b :: |b| == 16 ==> |encrypt(b)| == 16)
      && (forall b :: |b| == 16 ==> |decrypt(b)| == 16)
      && (forall b {:trigger decrypt(encrypt(b))} :: |b| == 16 ==> decrypt(encrypt(b)) == b)
      && (forall b {:trigger encrypt(decrypt(b))} :: |b| == 16 ==> encrypt(decrypt(b)) == b)
    }
  }

  // ----- octets of a counter -----

  /** Octet number e of t, counted from the least significant one: (t >> 8e) & 0xFF. */
  function Octet(t: nat, e: nat): Byte {
    if e == 0 then t % 256 else Octet(t / 256, e - 1)
  }

  function Pow2(w: nat): (p: nat)
    ensures p > 0
  {
    if w == 0 then 1 else 2 * Pow2(w - 1)
  }

  /** Exclusive or of the w low bits. */
  function XorBits(w: nat, x: nat, y: nat): (z: nat)
    ensures z < Pow2(w)
  {
    if w == 0 then 0 else 2 * XorBits(w - 1, x / 2, y / 2) + (x + y) % 2
  }

  lemma ParityCancels(x: nat, y: nat, z: nat)
    requires z % 2 == (x + y) % 2
    ensures (z + y) % 2 == x % 2
  {
  }

  lemma {:induction false} XorBitsCancels(w: nat, x: nat, y: nat)
    requires x < Pow2(w)
    ensures XorBits(w, XorBits(w, x, y), y) == x
  {
    if w > 0 {
      var z := XorBits(w, x, y);
      assert z / 2 == XorBits(w - 1, x / 2, y / 2) && z % 2 == (x + y) % 2;
      ParityCancels(x, y, z);
      XorBitsCancels(w - 1, x / 2, y / 2);
    }
  }

  lemma Pow2Of8()
    ensures Pow2(8) == 256
  {
    assert Pow2(2) == 4 && Pow2(4) == 16 && Pow2(6) == 64;
  }

  function Xor(x: Byte, y: Byte): Byte {
    Pow2Of8();
    XorBits(8, x, y)
  }

  function XorCounter(a: seq<Byte>, t: nat): (x: seq<Byte>)
    requires |a| == 8
    ensures |x| == 8
  {
    seq(8, k requires 0 <= k < 8 => Xor(a[k], Octet(t, 7 - k)))
  }

  lemma XorCancels(x: Byte, y: Byte)
    ensures Xor(Xor(x, y), y) == x
  {
    Pow2Of8();
    XorBitsCancels(8, x, y);
  }

  lemma XorCounterInvolutive(a: seq<Byte>, t: nat)
    requires |a| == 8
    ensures XorCounter(XorCounter(a, t), t) == a
  {
    forall k | 0 <= k < 8 ensures XorCounter(XorCounter(a, t), t)[k] == a[k] {
      XorCancels(a[k], Octet(t, 7 - k));
    }
  }

  // ----- the network of section 2.2.1 of RFC 3394, one step per block encryption -----

  /** The integrity register A and the registers R[0..n), eight octets each. */
  datatype Registers = Registers(a: seq<Byte>, r: seq<Byte>)

  predicate Shaped(st: Registers, n: nat) {
    |st.a| == 8 && |st.r| == 8 * n
  }

  function Block(r: seq<Byte>, i: nat): (b: seq<Byte>)
    requires 8 * i + 8 <= |r|
    ensures |b| == 8
  {
    r[8 * i..8 * i + 8]
  }

  function SetBlock(r: seq<Byte>, i: nat, b: seq<Byte>): (r': seq<Byte>)
    requires 8 * i + 8 <= |r| && |b| == 8
    ensures |r'| == |r| && Block(r', i) == b
  {
    r[..8 * i] + b + r[8 * i + 8..]
  }

  lemma SetBlockRestores(r: seq<Byte>, i: nat, b: seq<Byte>)
    requires 8 * i + 8 <= |r| && |b| == 8
    ensures SetBlock(SetBlock(r, i, b), i, Block(r, i)) == r
  {
  }

  /** One step of wrapping on block i, with counter t. */
  function WrapStep(c: BlockCipher, n: nat, i: nat, t: nat, st: Registers): (st': Registers)
    requires c.Permutes() && i < n && Shaped(st, n)
    ensures Shaped(st', n)
  {
    var b := c.encrypt(st.a + Block(st.r, i));
    Registers(XorCounter(b[..8], t), SetBlock(st.r, i, b[8..]))
  }

  function UnwrapStep(c: BlockCipher, n: nat, i: nat, t: nat, st: Registers): (st': Registers)
    requires c.Permutes() && i < n && Shaped(st, n)
    ensures Shaped(st', n)
  {
    var b := c.decrypt(XorCounter(st.a, t) + Block(st.r, i));
    Registers(b[..8], SetBlock(st.r, i, b[8..]))
  }

  lemma UnwrapStepInvertsWrapStep(c: BlockCipher, n: nat, i: nat, t: nat, st: Registers)
    requires c.Permutes() && i < n && Shaped(st, n)
    ensures UnwrapStep(c, n, i, t, WrapStep(c, n, i, t, st)) == st
  {
    var b := c.encrypt(st.a + Block(st.r, i));
    XorCounterInvolutive(b[..8], t);
    assert b[..8] + b[8..] == b;
    assert c.decrypt(b)[..8] == st.a && c.decrypt(b)[8..] == Block(st.r, i);
    SetBlockRestores(st.r, i, b[8..]);
  }

  lemma WrapStepInvertsUnwrapStep(c: BlockCipher, n: nat, i: nat, t: nat, st: Registers)
    requires c.Permutes() && i < n && Shaped(st, n)
    ensures WrapStep(c, n, i, t, UnwrapStep(c, n, i, t, st)) == st
  {
    var x := XorCounter(st.a, t);
    var b := c.decrypt(x + Block(st.r, i));
    assert b[..8] + b[8..] == b;
    assert c.encrypt(b)[..8] == x && c.encrypt(b)[8..] == Block(st.r, i);
    XorCounterInvolutive(st.a, t);
    SetBlockRestores(st.r, i, b[8..]);
  }

  /** The counter of block i (from 1) in round j (from 0). */
  function Counter(n: nat, j: nat, i: nat): nat {
    n * j + i
  }

  /** The steps of the six rounds count 1, 2, ..., 6n. */
  lemma CountersAreConsecutive(n: nat, j: nat, i: nat)
    ensures Counter(n, 0, 1) == 1 && Counter(n, 5, n) == 6 * n
    ensures Counter(n, j, i + 1) == Counter(n, j, i) + 1 && Counter(n, j, n) == Counter(n, j + 1, 0)
  {
  }

  /** j whole rounds over the n blocks, then i blocks of the next round. */
  function Forward(c: BlockCipher, n: nat, j: nat, i: nat, st: Registers): (st': Registers)
    requires c.Permutes() && i <= n && Shaped(st, n)
    ensures Shaped(st', n)
    decreases j, i
  {
    if i > 0 then WrapStep(c, n, i - 1, Counter(n, j, i), Forward(c, n, j, i - 1, st))
    else if j > 0 then Forward(c, n, j - 1, n, st)
    else st
  }

  /** The same steps undone, last one first. */
  function Backward(c: BlockCipher, n: nat, j: nat, i: nat, st: Registers): (st': Registers)
    requires c.Permutes() && i <= n && Shaped(st, n)
    ensures Shaped(st', n)
    decreases j, i
  {
    if i > 0 then Backward(c, n, j, i - 1, UnwrapStep(c, n, i - 1, Counter(n, j, i), st))
    else if j > 0 then Backward(c, n, j - 1, n, st)
    else st
  }

  /** The reversed network undoes the network, for every number of blocks and of rounds. */
  lemma {:induction false} BackwardInvertsForward(c: BlockCipher, n: nat, j: nat, i: nat, st: Registers)
    requires c.Permutes() && i <= n && Shaped(st, n)
    ensures Backward(c, n, j, i, Forward(c, n, j, i, st)) == st
    decreases j, i
  {
    hide WrapStep, UnwrapStep;
    if i > 0 {
      UnwrapStepInvertsWrapStep(c, n, i - 1, Counter(n, j, i), Forward(c, n, j, i - 1, st));
      BackwardInvertsForward(c, n, j, i - 1, st);
    } else if j > 0 {
      BackwardInvertsForward(c, n, j - 1, n, st);
    }
  }

  /** And the network undoes the reversed network. */
  lemma {:induction false} ForwardInvertsBackward(c: BlockCipher, n: nat, j: nat, i: nat, st: Registers)
    requires c.Permutes() && i <= n && Shaped(st, n)
    ensures Forward(c, n, j, i, Backward(c, n, j, i, st)) == st
    decreases j, i
  {
    hide WrapStep, UnwrapStep;
    if i > 0 {
      ForwardInvertsBackward(c, n, j, i - 1, UnwrapStep(c, n, i - 1, Counter(n, j, i), st));
      WrapStepInvertsUnwrapStep(c, n, i - 1, Counter(n, j, i), st);
    } else if j > 0 {
      ForwardInvertsBackward(c, n, j - 1, n, st);
    }
  }

  // ----- the alternative initial value of section 3 of RFC 5649 -----

  const MAGIC: seq<Byte> := [0xA6, 0x59, 0x59, 0xA6]

  function InitialValue(m: nat): (a: seq<Byte>)
    ensures |a| == 8
  {
    MAGIC + [Octet(m, 3), Octet(m, 2), Octet(m, 1), Octet(m, 0)]
  }

  /** What `A[4 + i] << ((3 - i) * 8)`, computed in `int` and stored in a size_t, amounts to:
      bit 31 is the sign, so it is extended over the upper half. */
  function SignExtend(v: nat): (w: nat)
    requires v < TWO_32
  {
    if v < TWO_31 then v else v + (TWO_64 - TWO_32)
  }

  function FromDigits(d3: nat, d2: nat, d1: nat, d0: nat): nat {
    d3 * 0x100_0000 + d2 * 0x1_0000 + d1 * 0x100 + d0
  }

  function BigEndian32(a: seq<Byte>): (v: nat)
    requires |a| == 8
    ensures v < TWO_32
  {
    FromDigits(a[4], a[5], a[6], a[7])
  }

  function DecodedLength(a: seq<Byte>): nat
    requires |a| == 8
  {
    SignExtend(BigEndian32(a))
  }

  /** The only remainder of m modulo 2^32 is the one in range. */
  lemma RemainderIs(m: nat, q: nat, r: nat)
    requires m == TWO_32 * q + r && r < TWO_32
    ensures m % TWO_32 == r
  {
    assert m - TWO_32 * (m / TWO_32) == m % TWO_32;
  }

  lemma DigitsOf(m: nat, a: nat, b: nat, c: nat, q: nat, d0: Byte, d1: Byte, d2: Byte, d3: Byte)
    requires m == 256 * a + d0 && a == 256 * b + d1 && b == 256 * c + d2 && c == 256 * q + d3
    ensures FromDigits(d3, d2, d1, d0) == m % TWO_32
  {
    RemainderIs(m, q, FromDigits(d3, d2, d1, d0));
  }

  lemma Digits32(m: nat)
    ensures FromDigits(m / 256 / 256 / 256 % 256, m / 256 / 256 % 256, m / 256 % 256, m % 256) == m % TWO_32
  {
    var a := m / 256;
    var b := a / 256;
    var c := b / 256;
    hide FromDigits;
    DigitsOf(m, a, b, c, c / 256, m % 256, a % 256, b % 256, c % 256);
  }

  lemma InitialValueDecodes(m: nat)
    ensures BigEndian32(InitialValue(m)) == m % TWO_32
  {
    Digits32(m);
    assert Octet(m, 0) == m % 256 && Octet(m, 1) == m / 256 % 256;
    assert Octet(m, 2) == Octet(m / 256, 1) == m / 256 / 256 % 256;
    assert Octet(m, 3) == Octet(m / 256, 2) == Octet(m / 256 / 256, 1);
  }

  // ----- wrapping and unwrapping -----

  function Padded(p: seq<Byte>): (r: seq<Byte>)
    ensures |r| % 8 == 0 && p <= r && |r| < |p| + 8
    ensures forall k :: |p| <= k < |r| ==> r[k] == 0
  {
    p + seq((8 - |p| % 8) % 8, _ => 0)
  }

  /** The registers once the network has run; a single register is encrypted in one go. */
  function Seal(c: BlockCipher, st: Registers): (text: seq<Byte>)
    requires c.Permutes() && |st.r| % 8 == 0 && |st.a| == 8
    ensures |text| == 8 + |st.r|
  {
    if |st.r| == 8 then c.encrypt(st.a + st.r)
    else
      var n := |st.r| / 8;
      var end := Forward(c, n, 6, 0, st);
      end.a + end.r
  }

  /** Octets beyond the last whole block of the ciphertext play no part. */
  function Open(c: BlockCipher, text: seq<Byte>): (st: Registers)
    requires c.Permutes() && |text| >= 8
    ensures Shaped(st, (|text| - 8) / 8)
  {
    var n := (|text| - 8) / 8;
    if n == 1 then
      var b := c.decrypt(text[..16]);
      Registers(b[..8], b[8..])
    else
      Backward(c, n, 6, 0, Registers(text[..8], text[8..8 + 8 * n]))
  }

  function Wrap(c: BlockCipher, p: seq<Byte>): (text: seq<Byte>)
    requires c.Permutes()
  {
    Seal(c, Registers(InitialValue(|p|), Padded(p)))
  }

  /** `8 * (n - 1)` in size_t arithmetic. */
  function LengthFloor(n: nat): nat {
    if n == 0 then TWO_64 - 8 else 8 * (n - 1)
  }

  predicate Accepts(st: Registers, n: nat)
    requires Shaped(st, n)
  {
    && st.a[..4] == MAGIC
    && LengthFloor(n) < DecodedLength(st.a) < 8 * n
  }

  function Unwrap(c: BlockCipher, text: seq<Byte>): (res: Result<seq<Byte>>)
    requires c.Permutes() && |text| >= 8
  {
    var st := Open(c, text);
    if Accepts(st, (|text| - 8) / 8) then Ok(st.r[..DecodedLength(st.a)]) else Err(UnspecifiedError)
  }

  lemma OneBlockInverts(c: BlockCipher, st: Registers, text: seq<Byte>)
    requires c.Permutes() && Shaped(st, 1) && |text| == 16
    ensures Open(c, Seal(c, st)) == st
    ensures Seal(c, Open(c, text)) == text
  {
    var out := Seal(c, st);
    assert out[..16] == out;
    var b := c.decrypt(text[..16]);
    assert b[..8] + b[8..] == b && text[..16] == text;
  }

  lemma OpenInvertsSeal(c: BlockCipher, st: Registers)
    requires c.Permutes() && |st.r| % 8 == 0 && |st.a| == 8
    ensures Open(c, Seal(c, st)) == st
  {
    hide Forward, Backward;
    var n := |st.r| / 8;
    if n == 1 {
      OneBlockInverts(c, st, seq(16, _ => 0));
    } else {
      hide BlockCipher.Permutes;
      var text := Seal(c, st);
      var end := Forward(c, n, 6, 0, st);
      assert text[..8] == end.a && text[8..8 + 8 * n] == end.r;
      BackwardInvertsForward(c, n, 6, 0, st);
    }
  }

  lemma SealInvertsOpen(c: BlockCipher, text: seq<Byte>)
    requires c.Permutes() && |text| >= 8 && |text| % 8 == 0
    ensures Seal(c, Open(c, text)) == text
  {
    hide Forward, Backward;
    var n := (|text| - 8) / 8;
    if n == 1 {
      OneBlockInverts(c, Open(c, text), text);
    } else {
      hide BlockCipher.Permutes;
      ForwardInvertsBackward(c, n, 6, 0, Registers(text[..8], text[8..8 + 8 * n]));
      assert text[..8] + text[8..8 + 8 * n] == text;
    }
  }

  /** The value m that unwrapping reads back lies in its window exactly for the lengths it supports. */
  lemma LengthAccepted(m: nat, n: nat)
    requires m < TWO_63 && 8 * n - 8 < m <= 8 * n
    ensures LengthFloor(n) < SignExtend(m % TWO_32) < 8 * n <==> m % 8 != 0 && m < TWO_31
    ensures m < TWO_31 ==> SignExtend(m % TWO_32) == m
  {
    if m < TWO_32 {
      assert m % TWO_32 == m;
    }
  }

  /** Whatever the pad octets are, unwrapping returns the text when its length is below 2^31 and not a
      multiple of 8, and the error otherwise: the padding is never looked at. */
  lemma AnyPaddingUnwraps(c: BlockCipher, p: seq<Byte>, pad: seq<Byte>)
    requires c.Permutes() && |p| < TWO_63 && |pad| < 8 && |p + pad| % 8 == 0
    ensures Unwrap(c, Seal(c, Registers(InitialValue(|p|), p + pad)))
         == if |p| % 8 != 0 && |p| < TWO_31 then Ok(p) else Err(UnspecifiedError)
  {
    var st := Registers(InitialValue(|p|), p + pad);
    OpenInvertsSeal(c, st);
    InitialValueDecodes(|p|);
    LengthAccepted(|p|, |p + pad| / 8);
    assert st.a[..4] == MAGIC;
    assert (p + pad)[..|p|] == p;
  }

  /** Round trip: exactly the lengths below 2^31 that are not multiples of 8 survive; section 3 of
      RFC 5649 also allows the multiples. */
  lemma UnwrapOfWrap(c: BlockCipher, p: seq<Byte>)
    requires c.Permutes() && |p| < TWO_63
    ensures Unwrap(c, Wrap(c, p)) == if |p| % 8 != 0 && |p| < TWO_31 then Ok(p) else Err(UnspecifiedError)
  {
    AnyPaddingUnwraps(c, p, Padded(p)[|p|..]);
    assert p + Padded(p)[|p|..] == Padded(p);
  }

  lemma DigitsUnique(a: nat, b: nat, c: nat, d: nat, a': nat, b': nat, c': nat, d': nat)
    requires a < 256 && b < 256 && c < 256 && d < 256 && a' < 256 && b' < 256 && c' < 256 && d' < 256
    requires FromDigits(a, b, c, d) == FromDigits(a', b', c', d')
    ensures a == a' && b == b' && c == c' && d == d'
  {
  }

  lemma BigEndian32Injective(x: seq<Byte>, y: seq<Byte>)
    requires |x| == |y| == 8 && BigEndian32(x) == BigEndian32(y)
    ensures x[4..] == y[4..]
  {
    DigitsUnique(x[4], x[5], x[6], x[7], y[4], y[5], y[6], y[7]);
  }

  lemma InitialValueUnique(a: seq<Byte>)
    requires |a| == 8 && a[..4] == MAGIC
    ensures InitialValue(BigEndian32(a)) == a
  {
    hide BigEndian32, InitialValue;
    var a' := InitialValue(BigEndian32(a));
    InitialValueDecodes(BigEndian32(a));
    BigEndian32Injective(a, a');
    InitialValueMagic(BigEndian32(a));
    assert a == a[..4] + a[4..] && a' == a'[..4] + a'[4..];
  }

  lemma InitialValueMagic(m: nat)
    ensures InitialValue(m)[..4] == MAGIC
  {
    hide Octet;
  }

  lemma AcceptedLength(st: Registers, n: nat)
    requires Shaped(st, n) && n < TWO_63 / 8 && Accepts(st, n)
    ensures var m := DecodedLength(st.a);
            m < TWO_31 && InitialValue(m) == st.a && m < 8 * n && |Padded(st.r[..m])| == 8 * n
  {
    hide BigEndian32, InitialValue;
    assert DecodedLength(st.a) == BigEndian32(st.a);
    InitialValueUnique(st.a);
  }

  ghost predicate ZeroPadded(st: Registers)
    requires |st.a| == 8
  {
    forall k :: DecodedLength(st.a) <= k < |st.r| ==> st.r[k] == 0
  }

  /** Converse: an accepted ciphertext is the wrapping of what it yields exactly when it is whole blocks
      and its recovered pad octets are zero. */
  lemma WrapOfUnwrap(c: BlockCipher, text: seq<Byte>)
    requires c.Permutes() && 8 <= |text| < TWO_63 && Unwrap(c, text).Ok?
    ensures Wrap(c, Unwrap(c, text).value) == text <==> |text| % 8 == 0 && ZeroPadded(Open(c, text))
  {
    hide Open, Seal, InitialValue, DecodedLength, Padded, BlockCipher.Permutes;
    var st := Open(c, text);
    AcceptedLength(st, (|text| - 8) / 8);
    var m := DecodedLength(st.a);
    var r := Padded(st.r[..m]);
    OpenInvertsSeal(c, Registers(st.a, r));
    if |text| % 8 == 0 {
      SealInvertsOpen(c, text);
      assert ZeroPadded(st) ==> r == st.r;
    }
  }

  /** Octets behind the last whole block are not looked at: such a ciphertext unwraps like its whole blocks. */
  lemma TrailingOctetsIgnored(c: BlockCipher, text: seq<Byte>, extra: seq<Byte>)
    requires c.Permutes() && |text| >= 8 && |text| % 8 == 0 && |extra| < 8
    ensures Unwrap(c, text + extra) == Unwrap(c, text)
  {
    OpenIgnores(c, text, extra);
    hide Open;
    assert (|text + extra| - 8) / 8 == (|text| - 8) / 8;
  }

  lemma OpenIgnores(c: BlockCipher, text: seq<Byte>, extra: seq<Byte>)
    requires c.Permutes() && |text| >= 8 && |text| % 8 == 0 && |extra| < 8
    ensures Open(c, text + extra) == Open(c, text)
  {
    hide Backward;
    var n := (|text| - 8) / 8;
    assert (text + extra)[..8] == text[..8] && (text + extra)[8..8 + 8 * n] == text[8..8 + 8 * n];
    if n == 1 {
      assert (text + extra)[..16] == text[..16];
    }
  }

  // ----- the code: buffers updated in place -----

  /** memcpy(dst + d, src, |src|) */
  method CopyInto(dst: array<Byte>, d: nat, src: seq<Byte>)
    requires d + |src| <= dst.Length
    modifies dst
    ensures dst[..] == old(dst[..d]) + src + old(dst[d + |src|..])
  {
    forall k | 0 <= k < |src| { dst[d + k] := src[k]; }
  }

  /** dst[k] = src[k] ^ ((t >> (7 - k) * 8) & 0xFF) for the eight octets. */
  method XorInto(dst: array<Byte>, src: array<Byte>, t: nat)
    requires dst.Length >= 8 && src.Length >= 8 && dst != src
    modifies dst
    ensures dst[..] == XorCounter(src[..8], t) + old(dst[8..])
  {
    hide Octet, Xor;
    for k := 0 to 8
      invariant forall l :: 0 <= l < k ==> dst[l] == XorCounter(src[..8], t)[l]
      invariant dst[8..] == old(dst[8..])
    {
      dst[k] := Xor(src[k], Octet(t, 7 - k));
    }
    assert dst[..8] == XorCounter(src[..8], t);
  }

  ghost predicate Buffers(A: array<Byte>, R: array<Byte>, input: array<Byte>, B: array<Byte>, n: nat) {
    && A.Length == 8 && input.Length == 16 && B.Length == 16 && 8 * n <= R.Length
    && A != R && A != input && A != B && R != input && R != B && input != B
  }

  lemma SetBlockInBuffer(r: seq<Byte>, r': seq<Byte>, n: nat, i: nat, b: seq<Byte>)
    requires 8 * n <= |r| && i < n && |b| == 8
    requires r' == r[..8 * i] + b + r[8 * i + 8..]
    ensures r'[..8 * n] == SetBlock(r[..8 * n], i, b)
  {
  }

  /** input = concat(a, r); B = AES(input) */
  method EncryptBlock(c: BlockCipher, input: array<Byte>, B: array<Byte>, a: seq<Byte>, r: seq<Byte>)
    requires c.Permutes() && |a| == |r| == 8 && input.Length == B.Length == 16 && input != B
    modifies input, B
    ensures B[..] == c.encrypt(a + r)
  {
    CopyInto(input, 0, a);
    CopyInto(input, 8, r);
    assert input[..] == a + r;
    CopyInto(B, 0, c.encrypt(input[..]));
  }

  method WrapBlock(c: BlockCipher, A: array<Byte>, R: array<Byte>, input: array<Byte>, B: array<Byte>,
                   n: nat, i: nat, t: nat)
    requires c.Permutes() && i < n && Buffers(A, R, input, B, n)
    modifies A, R, input, B
    ensures Registers(A[..], R[..8 * n]) == WrapStep(c, n, i, t, old(Registers(A[..], R[..8 * n])))
  {
    hide XorCounter, SetBlock;
    ghost var r := R[..];
    ghost var st := Registers(A[..], R[..8 * n]);
    EncryptBlock(c, input, B, A[..], R[8 * i..8 * i + 8]);
    ghost var b := B[..];
    assert R[8 * i..8 * i + 8] == Block(st.r, i);
    XorInto(A, B, t);
    CopyInto(R, 8 * i, B[8..]);
    SetBlockInBuffer(r, R[..], n, i, b[8..]);
  }

  /** B = AES-1(input); A = MSB(64, B); R[i] = LSB(64, B) */
  method DecryptBlock(c: BlockCipher, A: array<Byte>, R: array<Byte>, input: array<Byte>, B: array<Byte>,
                      n: nat, i: nat)
    requires c.Permutes() && i < n && Buffers(A, R, input, B, n)
    modifies A, R, B
    ensures var b := c.decrypt(old(input[..]));
            A[..] == b[..8] && R[..8 * n] == SetBlock(old(R[..8 * n]), i, b[8..])
  {
    hide SetBlock;
    ghost var r := R[..];
    var b := c.decrypt(input[..]);
    CopyInto(B, 0, b);
    assert B[..] == b;
    CopyInto(A, 0, B[..8]);
    CopyInto(R, 8 * i, B[8..]);
    SetBlockInBuffer(r, R[..], n, i, b[8..]);
  }

  /** input = concat(A ^ t, r) */
  method LoadXored(input: array<Byte>, A: array<Byte>, r: seq<Byte>, t: nat)
    requires input.Length == 16 && A.Length == 8 && |r| == 8 && input != A
    modifies input
    ensures input[..] == XorCounter(A[..], t) + r
  {
    hide XorCounter;
    XorInto(input, A, t);
    CopyInto(input, 8, r);
    assert A[..8] == A[..];
  }

  method UnwrapBlock(c: BlockCipher, A: array<Byte>, R: array<Byte>, input: array<Byte>, B: array<Byte>,
                     n: nat, i: nat, t: nat)
    requires c.Permutes() && 0 < i <= n && Buffers(A, R, input, B, n)
    modifies A, R, input, B
    ensures Registers(A[..], R[..8 * n]) == UnwrapStep(c, n, i - 1, t, old(Registers(A[..], R[..8 * n])))
  {
    hide XorCounter, SetBlock, BlockCipher.Permutes;
    ghost var st := Registers(A[..], R[..8 * n]);
    LoadXored(input, A, R[8 * (i - 1)..8 * (i - 1) + 8], t);
    assert R[8 * (i - 1)..8 * (i - 1) + 8] == Block(st.r, i - 1);
    DecryptBlock(c, A, R, input, B, n, i - 1);
  }

  method WrapRounds(c: BlockCipher, A: array<Byte>, R: array<Byte>, input: array<Byte>, B: array<Byte>, n: nat)
    requires c.Permutes() && Buffers(A, R, input, B, n)
    modifies A, R, input, B
    ensures Registers(A[..], R[..8 * n]) == Forward(c, n, 6, 0, old(Registers(A[..], R[..8 * n])))
  {
    hide WrapStep, Counter, BlockCipher.Permutes;
    ghost var st := Registers(A[..], R[..8 * n]);
    var j := 0;
    while j <= 5
      invariant 0 <= j <= 6
      invariant Registers(A[..], R[..8 * n]) == Forward(c, n, j, 0, st)
    {
      var i := 0;
      while i < n
        invariant 0 <= i <= n
        invariant Registers(A[..], R[..8 * n]) == Forward(c, n, j, i, st)
      {
        WrapBlock(c, A, R, input, B, n, i, Counter(n, j, i + 1));
        i := i + 1;
      }
      j := j + 1;
    }
  }

  method UnwrapRounds(c: BlockCipher, A: array<Byte>, R: array<Byte>, input: array<Byte>, B: array<Byte>, n: nat)
    requires c.Permutes() && Buffers(A, R, input, B, n)
    modifies A, R, input, B
    ensures Registers(A[..], R[..8 * n]) == Backward(c, n, 6, 0, old(Registers(A[..], R[..8 * n])))
  {
    hide UnwrapStep, Counter, BlockCipher.Permutes;
    ghost var st := Registers(A[..], R[..8 * n]);
    var j := 5;
    while j >= 0
      invariant -1 <= j <= 5
      invariant Backward(c, n, j + 1, 0, Registers(A[..], R[..8 * n])) == Backward(c, n, 6, 0, st)
    {
      var i := n;
      while i > 0
        invariant 0 <= i <= n
        invariant Backward(c, n, j, i, Registers(A[..], R[..8 * n])) == Backward(c, n, 6, 0, st)
      {
        UnwrapBlock(c, A, R, input, B, n, i, Counter(n, j, i));
        i := i - 1;
      }
      j := j - 1;
    }
  }

  method AppendPadding(R: array<Byte>, p: seq<Byte>) returns (r: nat)
    requires R.Length == |p| + 8
    modifies R
    ensures r == |Padded(p)| && R[..r] == Padded(p)
  {
    r := |p|;
    CopyInto(R, 0, p);
    while r % 8 != 0
      invariant |p| <= r <= |Padded(p)| && R[..r] == Padded(p)[..r]
      decreases |p| + 8 - r
    {
      R[r] := 0;
      r := r + 1;
    }
  }

  method InitialRegister(m: nat) returns (A: array<Byte>)
    ensures fresh(A) && A.Length == 8 && A[..] == InitialValue(m)
  {
    hide Octet;
    A := new Byte[8];
    A[0], A[1], A[2], A[3] := 0xA6, 0x59, 0x59, 0xA6;
    for i := 0 to 4
      invariant A[..4 + i] == InitialValue(m)[..4 + i]
    {
      A[4 + i] := Octet(m, 3 - i);
    }
    assert A[..] == InitialValue(m);
  }

  method AesKeyWrap(plaintext: seq<Byte>, c: BlockCipher, id: AesId) returns (res: Result<seq<Byte>>)
    requires c.Permutes()
    ensures res == if id.UnknownId? then Err(InvalidInputData) else Ok(Wrap(c, plaintext))
  {
    hide Forward, InitialValue, Padded;
    var m := |plaintext|;
    var R := new Byte[m + 8];
    var r := AppendPadding(R, plaintext);
    var n := r / 8;
    var A := InitialRegister(m);
    if id.UnknownId? {
      return Err(InvalidInputData);
    }

    var input := new Byte[16];
    var B := new Byte[16];
    ghost var st := Registers(InitialValue(m), Padded(plaintext));
    assert A[..] == st.a && R[..r] == st.r && r == 8 * n;
    if r == 8 {
      EncryptBlock(c, input, B, A[..], R[..8]);
      return Ok(B[..]);
    }
    WrapRounds(c, A, R, input, B, n);
    res := Ok(A[..] + R[..r]);
  }

  method OpenRegisters(c: BlockCipher, ciphertext: seq<Byte>) returns (A: array<Byte>, R: array<Byte>)
    requires c.Permutes() && |ciphertext| >= 8
    ensures A.Length == 8 && R.Length == |ciphertext| - 8
    ensures Registers(A[..], R[..8 * (R.Length / 8)]) == Open(c, ciphertext)
  {
    hide Backward, BlockCipher.Permutes;
    var n := (|ciphertext| - 8) / 8;
    var r := |ciphertext| - 8;
    R := new Byte[r];
    A := new Byte[8];
    CopyInto(A, 0, ciphertext[..8]);
    CopyInto(R, 0, ciphertext[8..]);
    ghost var st := Registers(ciphertext[..8], ciphertext[8..8 + 8 * n]);
    assert A[..] == st.a && R[..8 * n] == st.r && 8 * (r / 8) == 8 * n;
    var input := new Byte[16];
    var B := new Byte[16];
    if n == 1 {
      CopyInto(input, 0, ciphertext[..16]);
      assert input[..] == ciphertext[..16];
      DecryptBlock(c, A, R, input, B, n, 0);
    } else {
      UnwrapRounds(c, A, R, input, B, n);
    }
  }

  method AesKeyUnwrap(ciphertext: seq<Byte>, c: BlockCipher, id: AesId) returns (res: Result<seq<Byte>>)
    requires c.Permutes() && |ciphertext| >= 8
    ensures res == if id.UnknownId? then Err(InvalidInputData) else Unwrap(c, ciphertext)
  {
    hide Open, BlockCipher.Permutes;
    if id.UnknownId? {
      return Err(InvalidInputData);
    }
    var n := (|ciphertext| - 8) / 8;
    var A, R := OpenRegisters(c, ciphertext);
    ghost var end := Open(c, ciphertext);
    assert A[..] == end.a && R[..8 * n] == end.r;
    if !(A[0] == 0xA6 && A[1] == 0x59 && A[2] == 0x59 && A[3] == 0xA6) {
      assert end.a[..4] != MAGIC;
      return Err(UnspecifiedError);
    }
    assert end.a[..4] == MAGIC;
    var m := SignExtend(FromDigits(A[4], A[5], A[6], A[7]));
    if m <= LengthFloor(n) || 8 * n <= m {
      return Err(UnspecifiedError);
    }
    assert R[..m] == end.r[..m];
    res := Ok(R[..m]);
  }
}
