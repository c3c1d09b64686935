/** 32-bit words: bitwise conjunction, network masks and byte order. */
module Words {
  const WORD_RANGE: nat := 0x1_0000_0000

  type Word = w: nat | w < WORD_RANGE

  function Pow2(n: nat): (p: nat)
    ensures p > 0
  {
    if n == 0 then 1 else 2 * Pow2(n - 1)
  }

  /** The conjunction of the lowest bits. */
  function Bit(a: nat, b: nat): nat {
    if a % 2 == 1 && b % 2 == 1 then 1 else 0
  }

  /** Bitwise conjunction. */
  function And(a: nat, b: nat): (c: nat)
    ensures c <= a && c <= b
  {
    if a == 0 || b == 0 then 0 else 2 * And(a / 2, b / 2) + Bit(a, b)
  }

  /** Bitwise complement of a word. */
  function Not(a: Word): Word {
    WORD_RANGE - 1 - a
  }

  lemma AndDouble(x: nat, y: nat, b: nat, c: nat)
    requires b < 2 && c < 2
    ensures And(2 * x + b, 2 * y + c) == 2 * And(x, y) + Bit(b, c)
  {
    assert (2 * x + b) / 2 == x && (2 * x + b) % 2 == b;
    assert (2 * y + c) / 2 == y && (2 * y + c) % 2 == c;
  }

  lemma Halves(x: nat)
    ensures x == 2 * (x / 2) + x % 2
  {
  }

  lemma AndZero()
    ensures And(0, 0) == 0
  {
  }

  lemma AndJoinStep(p: nat, q: nat, a: nat, r: nat, s: nat)
    requires And(p + r / 2, q + s / 2) == a + And(r / 2, s / 2)
    ensures And(2 * p + r, 2 * q + s) == 2 * a + And(r, s)
  {
    hide And, Bit;
    AndDouble(p + r / 2, q + s / 2, r % 2, s % 2);
    AndDouble(r / 2, s / 2, r % 2, s % 2);
    Halves(r);
    Halves(s);
  }

  /** p << k. */
  function Shl(p: nat, k: nat): nat
    decreases k
  {
    if k == 0 then p else 2 * Shl(p, k - 1)
  }

  /** p >> k. */
  function Shr(p: nat, k: nat): nat
    decreases k
  {
    if k == 0 then p else Shr(p / 2, k - 1)
  }

  /** The k lowest bits. */
  function Low(p: nat, k: nat): (r: nat)
    ensures r < Pow2(k)
    decreases k
  {
    if k == 0 then 0 else 2 * Low(p / 2, k - 1) + p % 2
  }

  lemma {:induction false} HighAndLow(p: nat, k: nat)
    ensures p == Shl(Shr(p, k), k) + Low(p, k)
    decreases k
  {
    if k > 0 {
      HighAndLow(p / 2, k - 1);
      Halves(p);
    }
  }

  lemma {:induction false} ShlInjective(p: nat, q: nat, k: nat)
    requires Shl(p, k) == Shl(q, k)
    ensures p == q
    decreases k
  {
    if k > 0 {
      ShlInjective(p, q, k - 1);
    }
  }

  lemma {:induction false} ShrBound(p: nat, n: nat, k: nat)
    requires p < Pow2(n + k)
    ensures Shr(p, k) < Pow2(n)
    decreases k
  {
    if k > 0 {
      ShrBound(p / 2, n, k - 1);
    }
  }

  lemma {:induction false} ShrTwice(p: nat, k: nat, n: nat)
    ensures Shr(Shr(p, k), n) == Shr(p, k + n)
    decreases k
  {
    if k > 0 {
      ShrTwice(p / 2, k - 1, n);
    }
  }

  lemma QuotientUnique(p: nat, h: nat, q: nat, r: nat)
    requires p == q * h + r && r < h
    ensures p / h == q
  {
    var d := p / h - q;
    assert d * h == r - p % h;
    assert (d >= 1 ==> d * h >= h) && (d <= -1 ==> d * h <= 0 - h);
  }

  /** Shifting right is division by the power of two. */
  lemma ShrIsQuotient(p: nat, k: nat)
    ensures Shr(p, k) == p / Pow2(k)
  {
    HighAndLow(p, k);
    ShlIsProduct(Shr(p, k), k);
    QuotientUnique(p, Pow2(k), Shr(p, k), Low(p, k));
  }

  lemma {:induction false} ShlIsProduct(p: nat, k: nat)
    ensures Shl(p, k) == p * Pow2(k)
    decreases k
  {
    if k > 0 {
      ShlIsProduct(p, k - 1);
      var half := Pow2(k - 1);
      assert Pow2(k) == 2 * half && Shl(p, k) == 2 * (p * half);
      hide Pow2, Shl;
      DoubledFactor(p, half);
    }
  }

  lemma DoubledFactor(p: nat, q: nat)
    ensures p * (2 * q) == 2 * (p * q)
  {
  }

  /** Conjunction works on high and low parts separately. */
  lemma {:induction false} AndJoin(k: nat, p: nat, q: nat, r: nat, s: nat)
    requires r < Pow2(k) && s < Pow2(k)
    ensures And(Shl(p, k) + r, Shl(q, k) + s) == Shl(And(p, q), k) + And(r, s)
    decreases k
  {
    AndZero();
    hide And;
    if k > 0 {
      var a := And(p, q);
      AndJoin(k - 1, p, q, r / 2, s / 2);
      AndJoinStep(Shl(p, k - 1), Shl(q, k - 1), Shl(a, k - 1), r, s);
      assert Shl(p, k) == 2 * Shl(p, k - 1);
      assert Shl(q, k) == 2 * Shl(q, k - 1);
      assert Shl(a, k) == 2 * Shl(a, k - 1);
    }
  }

  /** Bit k of the conjunction is set exactly when it is set in both words. */
  lemma {:induction false} AndBits(a: nat, b: nat, k: nat)
    ensures Shr(And(a, b), k) % 2 == 1 <==> Shr(a, k) % 2 == 1 && Shr(b, k) % 2 == 1
    decreases k
  {
    Halves(a);
    Halves(b);
    AndDouble(a / 2, b / 2, a % 2, b % 2);
    hide And;
    if k > 0 {
      AndBits(a / 2, b / 2, k - 1);
    }
  }

  lemma {:induction false} AndOnes(a: nat, n: nat)
    requires a < Pow2(n)
    ensures And(a, Pow2(n) - 1) == a
  {
    hide And;
    if n == 0 {
      AndZero();
    } else {
      Halves(a);
      AndOnes(a / 2, n - 1);
      AndDouble(a / 2, Pow2(n - 1) - 1, a % 2, 1);
      assert Pow2(n) - 1 == 2 * (Pow2(n - 1) - 1) + 1;
    }
  }

  lemma {:induction false} Pow2Sum(m: nat, n: nat)
    ensures Pow2(m + n) == Pow2(m) * Pow2(n)
  {
    if m > 0 {
      Pow2Sum(m - 1, n);
    }
  }

  lemma AndBelow(a: nat, b: nat, k: nat)
    requires b < Pow2(k)
    ensures And(a, b) < Pow2(k)
  {
  }

  lemma Pow2Values()
    ensures Pow2(8) == 0x100 && Pow2(32) == WORD_RANGE
  {
    assert Pow2(4) == 0x10;
    assert Pow2(8) == 0x100;
    Pow2Sum(8, 8);
    Pow2Sum(16, 16);
  }

  // ---- Byte order. ----

  type Byte = b: nat | b < 0x100

  function Append(high: nat, low: Byte): nat {
    high * 0x100 + low
  }

  /** The word with the given bytes, most significant first. */
  function Join(b3: Byte, b2: Byte, b1: Byte, b0: Byte): Word {
    Append(Append(Append(b3, b2), b1), b0)
  }

  /** Byte i of the word, counted from the least significant. */
  function ByteOf(w: Word, i: nat): Byte
    requires i < 4
  {
    if i == 0 then w % 0x100
    else if i == 1 then w / 0x100 % 0x100
    else if i == 2 then w / 0x100 / 0x100 % 0x100
    else w / 0x100 / 0x100 / 0x100
  }

  lemma JoinBytes(w: Word)
    ensures Join(ByteOf(w, 3), ByteOf(w, 2), ByteOf(w, 1), ByteOf(w, 0)) == w
  {
    var v := w / 0x100;
    var u := v / 0x100;
    assert w == v * 0x100 + w % 0x100;
    assert v == u * 0x100 + v % 0x100;
    assert u == u / 0x100 * 0x100 + u % 0x100;
  }

  lemma BytesOfJoin(b3: Byte, b2: Byte, b1: Byte, b0: Byte)
    ensures var w := Join(b3, b2, b1, b0);
            ByteOf(w, 3) == b3 && ByteOf(w, 2) == b2 && ByteOf(w, 1) == b1 && ByteOf(w, 0) == b0
  {
  }

  /** ACE_SWAP_LONG. */
  function Swap(w: Word): Word {
    Join(ByteOf(w, 0), ByteOf(w, 1), ByteOf(w, 2), ByteOf(w, 3))
  }

  /** ACE_HTONL and ACE_NTOHL for the given byte order. */
  function Reorder(littleEndian: bool, w: Word): Word {
    if littleEndian then Swap(w) else w
  }

  /** The word a host reads from the four octets a.b.c.d in memory. */
  function InMemory(littleEndian: bool, a: Byte, b: Byte, c: Byte, d: Byte): Word {
    if littleEndian then a + 0x100 * b + 0x10000 * c + 0x1000000 * d
    else 0x1000000 * a + 0x10000 * b + 0x100 * c + d
  }

  /** Brought to host byte order, the first octet in memory is the most significant, on either host. */
  lemma OctetsInOrder(littleEndian: bool, a: Byte, b: Byte, c: Byte, d: Byte)
    ensures Join(a, b, c, d) == 0x1000000 * a + 0x10000 * b + 0x100 * c + d
    ensures Reorder(littleEndian, InMemory(littleEndian, a, b, c, d)) == Join(a, b, c, d)
  {
    if littleEndian {
      assert InMemory(true, a, b, c, d) == Join(d, c, b, a);
      BytesOfJoin(d, c, b, a);
    }
  }

  /** Every word is read from some octets. */
  lemma OctetsOf(littleEndian: bool, w: Word) returns (a: Byte, b: Byte, c: Byte, d: Byte)
    ensures w == InMemory(littleEndian, a, b, c, d)
  {
    JoinBytes(w);
    a, b, c, d := ByteOf(w, 3), ByteOf(w, 2), ByteOf(w, 1), ByteOf(w, 0);
    if littleEndian {
      a, b, c, d := d, c, b, a;
    }
  }

  lemma SwapTwice(w: Word)
    ensures Swap(Swap(w)) == w
  {
    hide Join, ByteOf;
    BytesOfJoin(ByteOf(w, 0), ByteOf(w, 1), ByteOf(w, 2), ByteOf(w, 3));
    JoinBytes(w);
  }

  lemma AndShifted(p: nat, q: nat, r: Byte, s: Byte)
    ensures And(r, s) < 0x100
    ensures And(Append(p, r), Append(q, s)) == Append(And(p, q), And(r, s))
  {
    hide And, Pow2, Shl;
    Pow2Values();
    AndJoin(8, p, q, r, s);
    ShlIsProduct(p, 8);
    ShlIsProduct(q, 8);
    ShlIsProduct(And(p, q), 8);
    AndBelow(r, s, 8);
  }

  /** Conjunction works byte by byte, so it commutes with the swap. */
  lemma SwapAnd(a: Word, b: Word)
    ensures And(a, b) < WORD_RANGE
    ensures Swap(And(a, b)) == And(Swap(a), Swap(b))
  {
    JoinBytes(a);
    JoinBytes(b);
    AndOfJoins(ByteOf(a, 3), ByteOf(a, 2), ByteOf(a, 1), ByteOf(a, 0),
               ByteOf(b, 3), ByteOf(b, 2), ByteOf(b, 1), ByteOf(b, 0));
    AndOfJoins(ByteOf(a, 0), ByteOf(a, 1), ByteOf(a, 2), ByteOf(a, 3),
               ByteOf(b, 0), ByteOf(b, 1), ByteOf(b, 2), ByteOf(b, 3));
    hide And, Join, ByteOf;
    BytesOfJoin(And(ByteOf(a, 3), ByteOf(b, 3)), And(ByteOf(a, 2), ByteOf(b, 2)),
                And(ByteOf(a, 1), ByteOf(b, 1)), And(ByteOf(a, 0), ByteOf(b, 0)));
  }

  lemma AndOfJoins(a3: Byte, a2: Byte, a1: Byte, a0: Byte, b3: Byte, b2: Byte, b1: Byte, b0: Byte)
    ensures And(Join(a3, a2, a1, a0), Join(b3, b2, b1, b0))
         == Join(And(a3, b3), And(a2, b2), And(a1, b1), And(a0, b0))
  {
    hide And, Append;
    AndShifted(a3, b3, a2, b2);
    AndShifted(Append(a3, a2), Append(b3, b2), a1, b1);
    AndShifted(Append(Append(a3, a2), a1), Append(Append(b3, b2), b1), a0, b0);
  }
}
