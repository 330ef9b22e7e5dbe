/** Where the octets go in AES key wrap (src/crypto/mbedtls.cc), said bit by bit and for ciphers that treat the two
    halves of a block apart. */
module KeyWrapLayout {
  import opened KeyWrap

  // ----- the exclusive or -----

  function Bit(x: nat, j: nat): bool {
    if j == 0 then x % 2 == 1 else Bit(x / 2, j - 1)
  }

  lemma Parity(x: nat, y: nat)
    ensures (x + y) % 2 == 1 <==> (x % 2 == 1) != (y % 2 == 1)
  {
  }

  lemma {:induction false} XorBitsUnrolls(w: nat, x: nat, y: nat)
    requires w > 0
    ensures XorBits(w, x, y) % 2 == (x + y) % 2 && XorBits(w, x, y) / 2 == XorBits(w - 1, x / 2, y / 2)
  {
    HalfAndParity(XorBits(w - 1, x / 2, y / 2), (x + y) % 2);
  }

  lemma HalfAndParity(h: nat, b: nat)
    requires b < 2
    ensures (2 * h + b) / 2 == h && (2 * h + b) % 2 == b
  {
  }

  lemma {:induction false} BitUnrolls(x: nat, j: nat)
    ensures Bit(x, 0) <==> x % 2 == 1
    ensures j > 0 ==> (Bit(x, j) <==> Bit(x / 2, j - 1))
  {
  }

  lemma {:induction false} XorBitsAt(w: nat, x: nat, y: nat, j: nat)
    requires j < w
    ensures Bit(XorBits(w, x, y), j) <==> Bit(x, j) != Bit(y, j)
  {
    hide *;
    XorBitsUnrolls(w, x, y);
    BitUnrolls(XorBits(w, x, y), j);
    BitUnrolls(x, j);
    BitUnrolls(y, j);
    if j > 0 {
      XorBitsAt(w - 1, x / 2, y / 2, j - 1);
    } else {
      Parity(x, y);
    }
  }

  /** A bit of the result is set if and only if exactly one of the two is. */
  lemma XorIsExclusive(x: Byte, y: Byte, j: nat)
    requires j < 8
    ensures Bit(Xor(x, y), j) <==> Bit(x, j) != Bit(y, j)
  {
    XorBitsAt(8, x, y, j);
  }

  lemma {:induction false} XorBitsZero(w: nat, y: nat)
    requires y < Pow2(w)
    ensures XorBits(w, 0, y) == y
  {
    if w > 0 {
      XorBitsZero(w - 1, y / 2);
    }
  }

  // ----- the counter -----

  /** The number that octets stand for, most significant first. */
  function BigEndian(a: seq<Byte>): nat {
    if a == [] then 0 else 256 * BigEndian(a[..|a| - 1]) + a[|a| - 1]
  }

  lemma {:induction false} BigEndianSnoc(a: seq<Byte>, k: nat)
    requires k < |a|
    ensures BigEndian(a[..k + 1]) == 256 * BigEndian(a[..k]) + a[k]
  {
    assert a[..k + 1][..k] == a[..k];
  }

  lemma {:induction false} BigEndianJoin(a: seq<Byte>, b: seq<Byte>)
    requires |b| == 4
    ensures BigEndian(a + b) == TWO_32 * BigEndian(a) + FromDigits(b[0], b[1], b[2], b[3])
  {
    var s, n := a + b, |a|;
    BigEndianSnoc(s, n);
    BigEndianSnoc(s, n + 1);
    BigEndianSnoc(s, n + 2);
    BigEndianSnoc(s, n + 3);
    hide BigEndian;
    assert s[..n] == a && s[..n + 4] == s;
  }

  lemma BigEndianOf4(b: seq<Byte>)
    requires |b| == 4
    ensures BigEndian(b) == FromDigits(b[0], b[1], b[2], b[3])
  {
    BigEndianJoin([], b);
    assert [] + b == b;
  }

  /** Four octets of t, from octet e up. */
  lemma {:induction false} FourOctets(t: nat, e: nat)
    ensures Octet(t, e) == Shifted(t, e) % 256 && Octet(t, e + 1) == Shifted(t, e) / 256 % 256
    ensures Octet(t, e + 2) == Shifted(t, e) / 256 / 256 % 256
    ensures Octet(t, e + 3) == Shifted(t, e) / 256 / 256 / 256 % 256
  {
    if e > 0 {
      FourOctets(t / 256, e - 1);
    } else {
      assert Octet(t, 1) == Octet(t / 256, 0);
      assert Octet(t, 2) == Octet(t / 256, 1) == Octet(t / 256 / 256, 0);
      assert Octet(t, 3) == Octet(t / 256, 2) == Octet(t / 256 / 256, 1) == Octet(t / 256 / 256 / 256, 0);
    }
  }

  function Shifted(t: nat, e: nat): nat {
    if e == 0 then t else Shifted(t / 256, e - 1)
  }

  lemma LowWord(m: nat, low: nat, q: nat, high: nat)
    requires low == m % TWO_32 && q == m / TWO_32 && high == q % TWO_32
    ensures TWO_32 * high + low == m % TWO_64
  {
    assert q == TWO_32 * (q / TWO_32) + high && m == TWO_32 * q + low;
    assert m == TWO_64 * (q / TWO_32) + (TWO_32 * high + low);
    assert TWO_32 * high + low < TWO_64;
  }

  lemma ShiftedByFour(t: nat)
    ensures Shifted(t, 4) == t / TWO_32
  {
    assert Shifted(t, 4) == Shifted(t / 256, 3) == Shifted(t / 256 / 256, 2);
    assert Shifted(t, 4) == Shifted(t / 256 / 256 / 256, 1) == t / 256 / 256 / 256 / 256;
    var a := t / 256;
    var b := a / 256;
    var c := b / 256;
    var q := c / 256;
    QuotientIs(t, q, t - TWO_32 * q);
  }

  lemma QuotientIs(m: nat, q: nat, r: int)
    requires m == TWO_32 * q + r && 0 <= r < TWO_32
    ensures m / TWO_32 == q
  {
    assert m - TWO_32 * (m / TWO_32) == m % TWO_32;
  }

  const ZEROS: seq<Byte> := [0, 0, 0, 0, 0, 0, 0, 0]

  lemma ZeroXorCounter(t: nat, k: nat)
    requires k < 8
    ensures XorCounter(ZEROS, t)[k] == Octet(t, 7 - k)
  {
    Pow2Of8();
    XorBitsZero(8, Octet(t, 7 - k));
    assert ZEROS[k] == 0;
  }

  lemma Words(t: nat)
    ensures FromDigits(Octet(t, 3), Octet(t, 2), Octet(t, 1), Octet(t, 0)) == t % TWO_32
    ensures FromDigits(Octet(t, 7), Octet(t, 6), Octet(t, 5), Octet(t, 4)) == t / TWO_32 % TWO_32
  {
    FourOctets(t, 0);
    FourOctets(t, 4);
    ShiftedByFour(t);
    Digits32(t);
    Digits32(t / TWO_32);
    hide Octet, Shifted, FromDigits;
    assert Shifted(t, 0) == t by { ShiftedByNone(t); }
  }

  lemma ShiftedByNone(t: nat)
    ensures Shifted(t, 0) == t
  {
  }

  /** Xored into a zero register, the counter can be read off it, big endian, modulo 2^64. */
  lemma {:induction false} CounterBigEndian(t: nat)
    ensures BigEndian(XorCounter(ZEROS, t)) == t % 0x1_0000_0000_0000_0000
  {
    var x := XorCounter(ZEROS, t);
    forall k | 0 <= k < 8 ensures x[k] == Octet(t, 7 - k) {
      ZeroXorCounter(t, k);
    }
    hide XorCounter, Octet, BigEndian, FromDigits;
    Words(t);
    BigEndianJoin(x[..4], x[4..]);
    BigEndianOf4(x[..4]);
    assert x == x[..4] + x[4..];
    LowWord(t, t % TWO_32, t / TWO_32, t / TWO_32 % TWO_32);
  }

  /** And the octets of any register meet the counter's octets in that order. */
  lemma CounterOctets(a: seq<Byte>, t: nat, k: nat)
    requires |a| == 8 && k < 8
    ensures XorCounter(a, t)[k] == Xor(a[k], XorCounter(ZEROS, t)[k])
  {
    ZeroXorCounter(t, k);
    hide Xor, Octet;
  }

  /** The initial value: the constant of section 3 of RFC 5649, then the length in 32 bits. */
  lemma InitialValueOctets(m: nat)
    ensures InitialValue(m)[..4] == [0xA6, 0x59, 0x59, 0xA6]
    ensures BigEndian(InitialValue(m)[4..]) == m % 0x1_0000_0000
  {
    InitialValueDecodes(m);
    InitialValueMagic(m);
    BigEndianOf4(InitialValue(m)[4..]);
  }

  // ----- the network under a cipher that treats the halves of a block apart -----

  /** Half a block. */
  type Word = w: seq<Byte> | |w| == 8 witness [0, 0, 0, 0, 0, 0, 0, 0]

  ghost predicate Halfwise(c: BlockCipher, f: Word -> Word, g: Word -> Word) {
    c.Permutes() && forall a: Word, b: Word :: c.encrypt(a + b) == f(a) + g(b)
  }

  lemma HalfwisePermutes(c: BlockCipher, f: Word -> Word, g: Word -> Word)
    requires Halfwise(c, f, g)
    ensures c.Permutes()
  {
  }

  /** A after k steps: what the first half of the cipher makes of it, and the step's number, every time. */
  function Chain(f: Word -> Word, a: Word, k: nat): Word {
    if k == 0 then a else XorCounter(f(Chain(f, a, k - 1)), k)
  }

  function Iterate(g: Word -> Word, b: Word, k: nat): Word {
    if k == 0 then b else g(Iterate(g, b, k - 1))
  }

  lemma {:induction false} BlockOfSet(r: seq<Byte>, i: nat, b: seq<Byte>, k: nat)
    requires 8 * i + 8 <= |r| && |b| == 8 && 8 * k + 8 <= |r|
    ensures Block(SetBlock(r, i, b), k) == if k == i then b else Block(r, k)
  {
    var s := SetBlock(r, i, b);
    if k < i {
      assert 8 * k + 8 <= 8 * i;
      assert s[8 * k..8 * k + 8] == r[8 * k..8 * k + 8];
    } else if k > i {
      assert 8 * k >= 8 * i + 8;
      assert s[8 * k..8 * k + 8] == r[8 * k..8 * k + 8];
    }
  }

  lemma {:induction false} HalfwiseStep(c: BlockCipher, f: Word -> Word, g: Word -> Word,
                                        n: nat, i: nat, t: nat, st: Registers, k: nat)
    requires Halfwise(c, f, g) && i < n && Shaped(st, n) && k < n
    ensures var st' := WrapStep(c, n, i, t, st);
            && st'.a == XorCounter(f(st.a), t)
            && Block(st'.r, k) == if k == i then g(Block(st.r, k)) else Block(st.r, k)
  {
    var a: Word, x: Word := st.a, Block(st.r, i);
    var b := c.encrypt(a + x);
    assert b == f(a) + g(x);
    assert b[..8] == f(a) && b[8..] == g(x);
    hide Halfwise, BlockCipher.Permutes, XorCounter, SetBlock, Block;
    BlockOfSet(st.r, i, b[8..], k);
  }

  lemma {:induction false} ForwardUnrolls(c: BlockCipher, n: nat, j: nat, i: nat, st: Registers)
    requires c.Permutes() && i <= n && Shaped(st, n)
    ensures i > 0 ==>
              Forward(c, n, j, i, st) == WrapStep(c, n, i - 1, Counter(n, j, i), Forward(c, n, j, i - 1, st))
    ensures i == 0 && j > 0 ==> Forward(c, n, j, i, st) == Forward(c, n, j - 1, n, st)
    ensures i == 0 && j == 0 ==> Forward(c, n, j, i, st) == st
  {
    hide WrapStep, BlockCipher.Permutes, Counter;
  }

  lemma {:induction false} ChainUnrolls(f: Word -> Word, a: Word, k: nat)
    ensures Chain(f, a, 0) == a && Chain(f, a, k + 1) == XorCounter(f(Chain(f, a, k)), k + 1)
  {
    hide XorCounter;
  }

  lemma {:induction false} IterateUnrolls(g: Word -> Word, b: Word, k: nat)
    ensures Iterate(g, b, 0) == b && Iterate(g, b, k + 1) == g(Iterate(g, b, k))
  {
  }

  lemma NextCounter(n: nat, j: nat, i: nat)
    ensures Counter(n, j, i + 1) == Counter(n, j, i) + 1 && Counter(n, j, n) == Counter(n, j + 1, 0)
  {
    CountersAreConsecutive(n, j, i);
  }

  /** A after any part of the network. */
  lemma {:induction false} ForwardChain(c: BlockCipher, f: Word -> Word, g: Word -> Word,
                                        n: nat, j: nat, i: nat, st: Registers)
    requires Halfwise(c, f, g) && i <= n && Shaped(st, n)
    ensures c.Permutes() && Forward(c, n, j, i, st).a == Chain(f, st.a, Counter(n, j, i))
    decreases j, i
  {
    hide Halfwise, XorCounter, WrapStep, BlockCipher.Permutes, Counter, Forward, Chain;
    HalfwisePermutes(c, f, g);
    ForwardUnrolls(c, n, j, i, st);
    if i > 0 {
      ForwardChain(c, f, g, n, j, i - 1, st);
      HalfwiseStep(c, f, g, n, i - 1, Counter(n, j, i), Forward(c, n, j, i - 1, st), i - 1);
      NextCounter(n, j, i - 1);
      ChainUnrolls(f, st.a, Counter(n, j, i - 1));
    } else if j > 0 {
      ForwardChain(c, f, g, n, j - 1, n, st);
      NextCounter(n, j - 1, 0);
    } else {
      NoCounter(n);
      ChainUnrolls(f, st.a, 0);
    }
  }

  lemma NoCounter(n: nat)
    ensures Counter(n, 0, 0) == 0
  {
  }

  /** Block k after any part of the network. */
  lemma {:induction false} ForwardBlock(c: BlockCipher, f: Word -> Word, g: Word -> Word,
                                        n: nat, j: nat, i: nat, st: Registers, k: nat)
    requires Halfwise(c, f, g) && i <= n && Shaped(st, n) && k < n
    ensures c.Permutes() && Shaped(Forward(c, n, j, i, st), n)
    ensures Block(Forward(c, n, j, i, st).r, k) == Iterate(g, Block(st.r, k), if k < i then j + 1 else j)
    decreases j, i
  {
    hide Halfwise, XorCounter, Block, WrapStep, BlockCipher.Permutes, Counter, Forward, Iterate;
    HalfwisePermutes(c, f, g);
    ForwardUnrolls(c, n, j, i, st);
    IterateUnrolls(g, Block(st.r, k), j);
    if i > 0 {
      ForwardBlock(c, f, g, n, j, i - 1, st, k);
      HalfwiseStep(c, f, g, n, i - 1, Counter(n, j, i), Forward(c, n, j, i - 1, st), k);
    } else if j > 0 {
      ForwardBlock(c, f, g, n, j - 1, n, st, k);
    }
  }

  /** Wrapping more than one block: the second half of the cipher has been applied six times to every block k of the
      padded text; the first half, and the numbers 1 to 6n, to the initial value, which stands in front. */
  lemma {:induction false} WrapHalfwise(c: BlockCipher, f: Word -> Word, g: Word -> Word, p: seq<Byte>, k: nat)
    requires Halfwise(c, f, g) && |p| > 8 && 8 * k < |p|
    ensures c.Permutes() && |Wrap(c, p)| == 8 + |Padded(p)| && 8 * k + 8 <= |Padded(p)|
    ensures Wrap(c, p)[..8] == Chain(f, InitialValue(|p|), 6 * (|Padded(p)| / 8))
    ensures Block(Wrap(c, p)[8..], k) == Iterate(g, Block(Padded(p), k), 6)
  {
    assert c.Permutes();
    hide Halfwise, BlockCipher.Permutes, Forward, InitialValue, Block, Chain, Iterate;
    var n := |Padded(p)| / 8;
    var st := Registers(InitialValue(|p|), Padded(p));
    ForwardChain(c, f, g, n, 6, 0, st);
    ForwardBlock(c, f, g, n, 6, 0, st, k);
    assert Counter(n, 6, 0) == 6 * n;
    var end := Forward(c, n, 6, 0, st);
    assert Wrap(c, p) == end.a + end.r;
    assert Wrap(c, p)[..8] == end.a && Wrap(c, p)[8..] == end.r;
  }

  function Identity(): BlockCipher {
    BlockCipher(b => b, b => b)
  }

  lemma IdentityHalfwise()
    ensures Halfwise(Identity(), (b: Word) => b, (b: Word) => b)
  {
  }

  /** Under the identity the padded text stays as it is behind the initial value with 1, ..., 6n xored into it. */
  lemma {:induction false} WrapByIdentity(p: seq<Byte>)
    requires |p| > 8
    ensures Identity().Permutes()
    ensures Wrap(Identity(), p) == Chain((b: Word) => b, InitialValue(|p|), 6 * (|Padded(p)| / 8)) + Padded(p)
  {
    var c, same, n := Identity(), (b: Word) => b, |Padded(p)| / 8;
    IdentityHalfwise();
    assert c.Permutes();
    hide Wrap, Chain, InitialValue, Halfwise, BlockCipher.Permutes, Block, Identity;
    WrapHalfwise(c, same, same, p, 0);
    var text := Wrap(c, p);
    forall k | 0 <= k < n ensures Block(text[8..], k) == Block(Padded(p), k) {
      WrapHalfwise(c, same, same, p, k);
      IterateSame(same, Block(Padded(p), k), 6);
    }
    SameBlocks(text[8..], Padded(p), n);
    assert text == text[..8] + text[8..];
  }

  lemma {:induction false} IterateSame(same: Word -> Word, b: Word, k: nat)
    requires forall x: Word :: same(x) == x
    ensures Iterate(same, b, k) == b
  {
    if k > 0 {
      IterateSame(same, b, k - 1);
    }
  }

  lemma {:induction false} SameBlocks(r: seq<Byte>, s: seq<Byte>, n: nat)
    requires |r| == |s| == 8 * n
    requires forall k {:trigger Block(s, k)} :: 0 <= k < n ==> Block(r, k) == Block(s, k)
    ensures r == s
  {
    forall p | 0 <= p < 8 * n ensures r[p] == s[p] {
      var k := p / 8;
      assert r[p] == Block(r, k)[p - 8 * k] && s[p] == Block(s, k)[p - 8 * k];
    }
  }

  /** Up to eight octets are one block, encrypted in one go behind the initial value; none leaves that alone. */
  lemma {:induction false} WrapOfShort(c: BlockCipher, p: seq<Byte>)
    requires c.Permutes() && |p| <= 8
    ensures Wrap(c, p) == if p == [] then InitialValue(0)
                          else c.encrypt(InitialValue(|p|) + p + seq(8 - |p|, _ => 0))
  {
    hide InitialValue;
    if p == [] {
      assert Padded(p) == [];
      assert Forward(c, 0, 6, 0, Registers(InitialValue(0), [])) == Registers(InitialValue(0), []) by {
        NoBlocks(c, 6, Registers(InitialValue(0), []));
      }
    } else {
      assert Padded(p) == p + seq(8 - |p|, _ => 0);
      assert InitialValue(|p|) + (p + seq(8 - |p|, _ => 0)) == InitialValue(|p|) + p + seq(8 - |p|, _ => 0);
    }
  }

  lemma {:induction false} NoBlocks(c: BlockCipher, j: nat, st: Registers)
    requires c.Permutes() && Shaped(st, 0)
    ensures Forward(c, 0, j, 0, st) == st
  {
    if j > 0 {
      NoBlocks(c, j - 1, st);
    }
  }

  // ----- what unwrapping accepts -----

  /** text wraps p, with some pad octets in place of zeros; lengths that unwrapping supports only. */
  ghost predicate Wraps(c: BlockCipher, text: seq<Byte>, p: seq<Byte>, pad: seq<Byte>)
    requires c.Permutes()
  {
    && |p| % 8 != 0 && |p| < TWO_31 && |pad| < 8 && |p + pad| % 8 == 0
    && text == Seal(c, Registers(InitialValue(|p|), p + pad))
  }

  /** Of whole-block ciphertexts, exactly those that wrap something in this sense are accepted, and that is
      what they yield. */
  lemma AcceptedExactly(c: BlockCipher, text: seq<Byte>)
    requires c.Permutes() && 8 <= |text| < TWO_63 && |text| % 8 == 0
    ensures Unwrap(c, text).Ok? <==> exists p, pad :: Wraps(c, text, p, pad)
    ensures forall p, pad :: Wraps(c, text, p, pad) ==> Unwrap(c, text) == Ok(p)
  {
    hide Open, Seal, InitialValue, DecodedLength, Padded, BlockCipher.Permutes;
    forall p, pad | Wraps(c, text, p, pad) ensures Unwrap(c, text) == Ok(p) {
      AnyPaddingUnwraps(c, p, pad);
    }
    if Unwrap(c, text).Ok? {
      var st, n := Open(c, text), (|text| - 8) / 8;
      AcceptedLength(st, n);
      SealInvertsOpen(c, text);
      var m := DecodedLength(st.a);
      var p, pad := st.r[..m], st.r[m..];
      assert p + pad == st.r;
      assert Wraps(c, text, p, pad);
    }
  }
}
