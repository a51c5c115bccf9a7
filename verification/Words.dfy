/** Machine words: the bits of a 32-bit word and its four little-endian bytes. */
module Words {
  const U16: nat := 0x1_0000
  const U32: nat := 0x1_0000_0000

  type Word = w: nat | w < 0x1_0000_0000
  type Byte = b: nat | b < 256

  function Pow2(n: nat): (r: nat)
    ensures r >= 1
  {
    if n == 0 then 1 else 2 * Pow2(n - 1)
  }

  /** `w & (1 << b)`, as a truth value. */
  predicate TestBit(w: nat, b: nat) {
    if b == 0 then w % 2 == 1 else TestBit(w / 2, b - 1)
  }

  /** `w | (1 << b)`. */
  function SetBit(w: nat, b: nat): nat {
    if b == 0 then (if w % 2 == 1 then w else w + 1)
    else 2 * SetBit(w / 2, b - 1) + w % 2
  }

  /** `w & ~(1 << b)`. */
  function ClearBit(w: nat, b: nat): nat {
    if b == 0 then (if w % 2 == 1 then w - 1 else w)
    else 2 * ClearBit(w / 2, b - 1) + w % 2
  }

  lemma {:induction false} TestAfterSet(w: nat, b: nat, c: nat)
    ensures TestBit(SetBit(w, b), c) == (b == c || TestBit(w, c))
  {
    if b != 0 && c != 0 {
      TestAfterSet(w / 2, b - 1, c - 1);
    }
  }

  lemma {:induction false} TestAfterClear(w: nat, b: nat, c: nat)
    ensures TestBit(ClearBit(w, b), c) == (b != c && TestBit(w, c))
  {
    if b != 0 && c != 0 {
      TestAfterClear(w / 2, b - 1, c - 1);
    }
  }

  /** Setting or clearing bit b < n of an n-bit word gives an n-bit word. */
  lemma {:induction false} BitOpsStayInWidth(w: nat, b: nat, n: nat)
    requires b < n && w < Pow2(n)
    ensures SetBit(w, b) < Pow2(n) && ClearBit(w, b) < Pow2(n)
  {
    if b != 0 {
      BitOpsStayInWidth(w / 2, b - 1, n - 1);
    } else {
      assert Pow2(n) == 2 * Pow2(n - 1);
    }
  }

  /** Clearing a bit that was set to allocate it gives the old word back, and the other way round. */
  lemma {:induction false} SetThenClear(w: nat, b: nat)
    ensures !TestBit(w, b) ==> ClearBit(SetBit(w, b), b) == w
    ensures TestBit(w, b) ==> SetBit(ClearBit(w, b), b) == w
  {
    if b != 0 {
      SetThenClear(w / 2, b - 1);
    }
  }

  lemma {:induction false} AllOnesHasEveryBit(w: nat, b: nat, n: nat)
    requires b < n && w == Pow2(n) - 1
    ensures TestBit(w, b)
  {
    assert Pow2(n) == 2 * Pow2(n - 1);
    if b != 0 {
      AllOnesHasEveryBit(w / 2, b - 1, n - 1);
    }
  }

  lemma Pow2Of32()
    ensures Pow2(32) == 0x1_0000_0000
  {
    assert Pow2(8) == 256;
    assert Pow2(16) == 0x1_0000;
    assert Pow2(24) == 0x100_0000;
  }

  /** Byte j of a word stored least significant byte first. */
  function ByteOf(w: Word, j: nat): Byte
    requires j < 4
  {
    if j == 0 then w % 256
    else if j == 1 then w / 256 % 256
    else if j == 2 then w / 256 / 256 % 256
    else w / 256 / 256 / 256
  }

  function WordOf(b0: Byte, b1: Byte, b2: Byte, b3: Byte): Word {
    b0 + 256 * (b1 + 256 * (b2 + 256 * b3))
  }

  lemma ByteOfWordOf(b0: Byte, b1: Byte, b2: Byte, b3: Byte)
    ensures var w := WordOf(b0, b1, b2, b3);
            ByteOf(w, 0) == b0 && ByteOf(w, 1) == b1 && ByteOf(w, 2) == b2 && ByteOf(w, 3) == b3
  {
  }

  /** Little-endian. */
  lemma WordFromBytes(w: Word)
    ensures w == ByteOf(w, 0) + 0x100 * ByteOf(w, 1) + 0x1_0000 * ByteOf(w, 2) + 0x100_0000 * ByteOf(w, 3)
  {
  }

  lemma BytesWeigh(w: Word)
    ensures ByteOf(w, 0) == w % 256 && ByteOf(w, 1) == w / 0x100 % 256
    ensures ByteOf(w, 2) == w / 0x1_0000 % 256 && ByteOf(w, 3) == w / 0x100_0000 % 256
  {
    assert w / 256 / 256 == w / 0x1_0000;
    assert w / 256 / 256 / 256 == w / 0x100_0000;
  }

  /** Bit b of a word weighs 2 to the power of b. */
  lemma {:induction false} BitWeight(w: nat, b: nat)
    ensures TestBit(w, b) <==> w / Pow2(b) % 2 == 1
    ensures SetBit(w, b) == if TestBit(w, b) then w else w + Pow2(b)
    ensures ClearBit(w, b) == if TestBit(w, b) then w - Pow2(b) else w
  {
    if b != 0 {
      BitWeight(w / 2, b - 1);
      DivTwice(w, Pow2(b - 1));
    }
  }

  lemma DivTwice(w: nat, d: nat)
    requires d > 0
    ensures w / 2 / d == w / (2 * d)
  {
    var q, r := w / 2 / d, w / 2 % d;
    assert w / 2 == q * d + r && w == 2 * (w / 2) + w % 2;
    assert w == q * (2 * d) + (2 * r + w % 2);
    DivModOf(q, 2 * r + w % 2, 2 * d);
  }

  function Least(x: nat, y: nat): nat {
    if x <= y then x else y
  }

  lemma MulMono(x: nat, y: nat, d: nat)
    requires x <= y
    ensures x * d <= y * d
  {
  }

  lemma MulStep(x: nat, y: nat, d: nat)
    requires x < y
    ensures x * d + d <= y * d
  {
    MulMono(x + 1, y, d);
    assert (x + 1) * d == x * d + d;
  }

  /** A number has one quotient and one remainder. */
  lemma QuotUnique(d: nat, q1: nat, r1: nat, q2: nat, r2: nat)
    requires q1 * d + r1 == q2 * d + r2 && r1 < d && r2 < d
    ensures q1 == q2 && r1 == r2
  {
    if q1 < q2 {
      MulStep(q1, q2, d);
    } else if q2 < q1 {
      MulStep(q2, q1, d);
    }
  }

  lemma DivModOf(q: nat, r: nat, d: nat)
    requires r < d
    ensures (q * d + r) / d == q && (q * d + r) % d == r
  {
    var n := q * d + r;
    assert n == (n / d) * d + n % d;
    QuotUnique(d, q, r, n / d, n % d);
  }

  /** The wrap-around of a loop counter that runs up to and including n. */
  lemma SmallMod(i: nat, n: nat)
    requires 0 < n
    ensures i < n ==> i % n == i
    ensures i == n ==> i % n == 0
  {
    if i < n {
      DivModOf(0, i, n);
    } else if i == n {
      DivModOf(1, 0, n);
    }
  }

  lemma DivLess(n: nat, d: nat, m: nat)
    requires 0 < d && n < m * d
    ensures 0 <= n / d < m && 0 <= n % d < d && n == n / d * d + n % d
  {
    assert n == n / d * d + n % d;
    if n / d >= m {
      MulMono(m, n / d, d);
    }
  }
}
