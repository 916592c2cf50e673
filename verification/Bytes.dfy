/** Octets and the bitwise operators the C++ code applies to them, over unbounded naturals. */
module Bytes {
  type Byte = b: int | 0 <= b < 256

  // `&`, `|` and `^` on unsigned values, one binary digit at a time.

  function And(a: nat, m: nat): (r: nat)
    decreases a + m
  {
    if a == 0 && m == 0 then 0 else (if a % 2 == 1 && m % 2 == 1 then 1 else 0) + 2 * And(a / 2, m / 2)
  }

  function Or(a: nat, m: nat): (r: nat)
    decreases a + m
  {
    if a == 0 && m == 0 then 0 else (if a % 2 == 1 || m % 2 == 1 then 1 else 0) + 2 * Or(a / 2, m / 2)
  }

  function Xor(a: nat, m: nat): (r: nat)
    decreases a + m
  {
    if a == 0 && m == 0 then 0 else (if a % 2 != m % 2 then 1 else 0) + 2 * Xor(a / 2, m / 2)
  }

  function Pow2(k: nat): (r: nat)
    ensures r > 0
  {
    if k == 0 then 1 else 2 * Pow2(k - 1)
  }

  /** Binary digit k of a number. */
  predicate Bit(n: nat, k: nat)
  {
    n / Pow2(k) % 2 == 1
  }

  lemma {:induction false} HigherBit(n: nat, k: nat)
    requires k > 0
    ensures Bit(n, k) <==> Bit(n / 2, k - 1)
  {
    var d := Pow2(k - 1);
    var q, r := n / 2 / d, n / 2 % d;
    assert n == 2 * (q * d + r) + n % 2;
    assert n == q * (2 * d) + (2 * r + n % 2);
    DivModUnique(n, 2 * d, q, 2 * r + n % 2);
  }

  /** The three operators, digit by digit. */
  lemma {:induction false} OperatorBits(a: nat, m: nat, k: nat)
    ensures Bit(Xor(a, m), k) <==> Bit(a, k) != Bit(m, k)
    ensures Bit(And(a, m), k) <==> Bit(a, k) && Bit(m, k)
    ensures Bit(Or(a, m), k) <==> Bit(a, k) || Bit(m, k)
    decreases k
  {
    assert Pow2(0) == 1;
    assert Xor(a, m) / 2 == Xor(a / 2, m / 2) && And(a, m) / 2 == And(a / 2, m / 2) && Or(a, m) / 2 == Or(a / 2, m / 2);
    if k > 0 {
      OperatorBits(a / 2, m / 2, k - 1);
      HigherBit(a, k);
      HigherBit(m, k);
      HigherBit(Xor(a, m), k);
      HigherBit(And(a, m), k);
      HigherBit(Or(a, m), k);
    }
  }

  lemma {:induction false} XorBelow(a: nat, m: nat, k: nat)
    requires a < Pow2(k) && m < Pow2(k)
    ensures Xor(a, m) < Pow2(k)
  {
    if k != 0 { XorBelow(a / 2, m / 2, k - 1); }
  }

  /** XOR-ing twice with the same key gives the octet back: unmasking undoes masking. */
  lemma {:induction false} XorInvolutive(a: nat, m: nat)
    ensures Xor(Xor(a, m), m) == a
    decreases a + m
  {
    if a != 0 || m != 0 {
      XorInvolutive(a / 2, m / 2);
      assert Xor(a, m) / 2 == Xor(a / 2, m / 2);
    }
  }

  /** XOR of two octets. */
  function XorByte(a: Byte, m: Byte): (r: Byte)
    ensures Xor(r, m) == a
  {
    assert Pow2(8) == 256;
    XorBelow(a, m, 8);
    XorInvolutive(a, m);
    Xor(a, m)
  }

  lemma {:induction false} XorByteTwice(a: Byte, m: Byte)
    ensures XorByte(XorByte(a, m), m) == a
  {
    XorInvolutive(a, m);
  }

  lemma {:induction false} MulMonotone(x: nat, y: nat, d: nat)
    requires x <= y
    ensures x * d <= y * d
  {
    assert y * d == x * d + (y - x) * d;
  }

  lemma {:induction false} DivModUnique(b: nat, d: nat, q: nat, r: nat)
    requires d > 0 && b == q * d + r && r < d
    ensures b / d == q && b % d == r
  {
    var q' := b / d;
    assert b == q' * d + b % d;
    if q' > q { MulMonotone(q + 1, q', d); }
    if q' < q { MulMonotone(q' + 1, q, d); }
  }

  lemma {:induction false} ModDouble(b: nat, h: nat)
    requires h > 0
    ensures b % (2 * h) == b % 2 + 2 * (b / 2 % h)
  {
    var q, r := b / 2 / h, b / 2 % h;
    assert b == 2 * (q * h + r) + b % 2;
    assert b == q * (2 * h) + (2 * r + b % 2);
    DivModUnique(b, 2 * h, q, 2 * r + b % 2);
  }

  // What the masks of the frame header select.

  lemma {:induction false} AndZero(b: nat)
    ensures And(b, 0) == 0
  {
    if b != 0 { AndZero(b / 2); }
  }

  lemma {:induction false} OrZero(b: nat)
    ensures Or(b, 0) == b && Or(0, b) == b
  {
    if b != 0 { OrZero(b / 2); }
  }

  lemma {:induction false} AndLowBits(b: nat, k: nat)
    ensures And(b, Pow2(k) - 1) == b % Pow2(k)
  {
    if k == 0 {
      AndZero(b);
    } else {
      AndLowBits(b / 2, k - 1);
      ModDouble(b, Pow2(k - 1));
    }
  }

  lemma {:induction false} AndTopBit(b: nat, k: nat)
    requires b < 2 * Pow2(k)
    ensures And(b, Pow2(k)) == if b >= Pow2(k) then Pow2(k) else 0
  {
    if k == 0 {
      AndZero(b / 2);
    } else {
      AndTopBit(b / 2, k - 1);
    }
  }

  lemma {:induction false} OrTopBit(b: nat, k: nat)
    requires b < Pow2(k)
    ensures Or(Pow2(k), b) == Pow2(k) + b
  {
    if k == 0 {
      OrZero(1);
    } else {
      OrTopBit(b / 2, k - 1);
    }
  }

  /** The header masks 0x7f, 0x0f and 0x80 and the FIN bit, as arithmetic. */
  lemma {:induction false} HeaderMasks(b: Byte)
    ensures And(b, 0x7f) == b % 128
    ensures And(b, 0x0f) == b % 16
    ensures And(b, 0x80) == if b >= 128 then 0x80 else 0
    ensures Or(0, b) == b
    ensures b < 128 ==> Or(0x80, b) == 128 + b
  {
    assert Pow2(4) == 16;
    assert Pow2(7) == 8 * Pow2(4);
    AndLowBits(b, 7);
    AndLowBits(b, 4);
    AndTopBit(b, 7);
    OrZero(b);
    if b < 128 { OrTopBit(b, 7); }
  }
}

/** Sequences that end at their first delimiter: C strings, and paths in front of a query. */
module Delimited {
  /** What comes before the first delimiter; everything if there is none. */
  function UpTo<T(==)>(s: seq<T>, end: T): (r: seq<T>)
    ensures r <= s && end !in r
    ensures end !in s ==> r == s
    ensures |r| < |s| ==> s[|r|] == end
  {
    if s == [] || s[0] == end then [] else [s[0]] + UpTo(s[1..], end)
  }

  lemma {:induction false} UpToGrows<T>(a: seq<T>, b: seq<T>, end: T)
    ensures UpTo(a, end) <= UpTo(a + b, end)
    ensures end in a ==> UpTo(a + b, end) == UpTo(a, end)
  {
    if a != [] && a[0] != end {
      assert (a + b)[1..] == a[1..] + b;
      UpToGrows(a[1..], b, end);
    }
  }

  lemma {:induction false} UpToEnd<T>(a: seq<T>, end: T, rest: seq<T>)
    requires end !in a
    ensures UpTo(a + [end] + rest, end) == a
  {
    if a == [] {
      assert ([end] + rest)[0] == end;
    } else {
      assert (a + [end] + rest)[1..] == a[1..] + [end] + rest;
      UpToEnd(a[1..], end, rest);
    }
  }

  /** A delimiter in front of which nothing is cut off makes no difference. */
  lemma {:induction false} UpToTerminated<T>(a: seq<T>, end: T, rest: seq<T>)
    ensures UpTo(a + [end] + rest, end) == UpTo(a, end)
  {
    if end in a {
      UpToGrows(a, [end] + rest, end);
      assert a + ([end] + rest) == a + [end] + rest;
    } else {
      UpToEnd(a, end, rest);
    }
  }
}
