/**
 * Unbounded-integer bit operations, as Python performs them.
 *
 * On Python integers `x & (2^n - 1)` is `x % Pow2(n)` and `x >> n` is
 * `x / Pow2(n)` (Dafny's `%` and `/` agree with Python's for a positive
 * divisor, negative `x` included), and `x << n` is `x * Pow2(n)`. The
 * operators `|` and `^` are only ever applied to non-negative values in the
 * modelled code, so they are defined here on `nat`, one bit at a time.
 */
module Bits {

  function Pow2(n: nat): (p: nat)
    ensures p >= 1
  {
    if n == 0 then 1 else 2 * Pow2(n - 1)
  }

  /** Python's `x | y` on non-negative integers. */
  function Or(x: nat, y: nat): nat
  {
    if x == 0 then y
    else if y == 0 then x
    else (if x % 2 == 1 || y % 2 == 1 then 1 else 0) + 2 * Or(x / 2, y / 2)
  }

  /** Python's `x ^ y` on non-negative integers. */
  function Xor(x: nat, y: nat): nat
  {
    if x == 0 then y
    else if y == 0 then x
    else (x % 2 + y % 2) % 2 + 2 * Xor(x / 2, y / 2)
  }

  /** Python's `(x >> i) & 1`: bit `i` of `x` in two's complement. */
  function Bit(x: int, i: nat): int
    decreases i
  {
    if i == 0 then x % 2 else Bit(x / 2, i - 1)
  }

  /** The low `n` bits of `x`, least significant first. */
  function BitsOf(x: int, n: nat): (bs: seq<bool>)
    ensures |bs| == n
    decreases n
  {
    if n == 0 then [] else [x % 2 == 1] + BitsOf(x / 2, n - 1)
  }

  /** The number whose binary digits, least significant first, are `bs`. */
  function Word(bs: seq<bool>): nat
  {
    if bs == [] then 0 else (if bs[0] then 1 else 0) + 2 * Word(bs[1..])
  }

  lemma {:induction false} Pow2Add(a: nat, b: nat)
    ensures Pow2(a + b) == Pow2(a) * Pow2(b)
  {
    if a > 0 {
      Pow2Add(a - 1, b);
      assert Pow2(a + b) == 2 * Pow2(a - 1 + b);
    }
  }

  /** The powers of two that appear as constants in the source. */
  lemma Pow2Constants()
    ensures Pow2(1) == 2 && Pow2(5) == 0x20 && Pow2(8) == 0x100 && Pow2(13) == 0x2000
    ensures Pow2(15) == 0x8000 && Pow2(16) == 0x1_0000 && Pow2(31) == 0x8000_0000
  {
    assert Pow2(8) == 0x100;
    Pow2Add(8, 5);
    Pow2Add(8, 7);
    Pow2Add(8, 8);
    Pow2Add(16, 15);
  }

  lemma MulAtLeast(k: int, d: int)
    requires k >= 1 && d > 0
    ensures k * d >= d
  {
    assert k * d == (k - 1) * d + d;
  }

  /** Euclidean division is determined by its quotient/remainder equation. */
  lemma DivModUnique(x: int, d: int, q: int, r: int)
    requires d > 0 && x == q * d + r && 0 <= r < d
    ensures x / d == q && x % d == r
  {
    var q', r' := x / d, x % d;
    var k := q' - q;
    assert k * d == r - r' by {
      assert q' * d + r' == q * d + r;
      assert k * d == q' * d - q * d;
    }
    if k >= 1 {
      MulAtLeast(k, d);
    } else if k <= -1 {
      MulAtLeast(-k, d);
    }
  }

  /** Taking the low `n + 1` bits: the lowest bit, then the low `n` bits of the rest. */
  lemma ModPow2Step(x: int, n: nat)
    ensures x % Pow2(n + 1) == x % 2 + 2 * ((x / 2) % Pow2(n))
    ensures x / Pow2(n + 1) == (x / 2) / Pow2(n)
  {
    var p := Pow2(n);
    var q, b := x / 2, x % 2;
    var k, m := q / p, q % p;
    assert x == k * (2 * p) + (2 * m + b) by {
      assert x == 2 * q + b;
      assert q == k * p + m;
    }
    DivModUnique(x, 2 * p, k, 2 * m + b);
  }

  lemma ModIdempotent(x: int, d: int)
    requires d > 0
    ensures (x % d) % d == x % d
  {
    DivModUnique(x % d, d, 0, x % d);
  }

  /** The low bit and the rest of `x` mod `2^n`, as the mod of `x`'s own low bit and rest. */
  lemma ModPow2Half(x: int, n: nat)
    requires n > 0
    ensures (x % Pow2(n)) % 2 == x % 2 && (x % Pow2(n)) / 2 == (x / 2) % Pow2(n - 1)
  {
    ModPow2Step(x, n - 1);
    var m := (x / 2) % Pow2(n - 1);
    DivModUnique(x % Pow2(n), 2, m, x % 2);
  }

  lemma {:induction false} OrComm(x: nat, y: nat)
    ensures Or(x, y) == Or(y, x)
  {
    if x != 0 && y != 0 {
      OrComm(x / 2, y / 2);
    }
  }

  /** `(x << n) | y` adds the fields when `y` fits below bit `n`. */
  lemma {:induction false} OrDisjoint(x: nat, y: nat, n: nat)
    requires y < Pow2(n)
    ensures Or(x * Pow2(n), y) == x * Pow2(n) + y
  {
    if n > 0 && x != 0 && y != 0 {
      var h := x * Pow2(n - 1);
      assert x * Pow2(n) == 2 * h;
      OrDisjoint(x, y / 2, n - 1);
      assert Or(x * Pow2(n), y) == y % 2 + 2 * Or(h, y / 2);
    }
  }

  /** Flipping the low `n` bits of a value that fits in them. */
  lemma {:induction false} XorComplement(x: nat, n: nat)
    requires x < Pow2(n)
    ensures Xor(x, Pow2(n) - 1) == Pow2(n) - 1 - x
  {
    if n > 0 && x != 0 {
      var m, h := Pow2(n) - 1, Pow2(n - 1);
      DivModUnique(m, 2, h - 1, 1);
      DivModUnique(x, 2, x / 2, x % 2);
      XorStep(x, m);
      XorComplement(x / 2, n - 1);
    }
  }

  lemma MulPow2Step(q: int, n: nat)
    requires n > 0
    ensures q * Pow2(n) == 2 * (q * Pow2(n - 1))
  {
  }

  /** One step of `^`: the lowest bit, then the rest shifted down. */
  lemma {:induction false} XorStep(x: nat, y: nat)
    ensures Xor(x, y) == (x % 2 + y % 2) % 2 + 2 * Xor(x / 2, y / 2)
  {
    if x == 0 {
      assert Xor(x / 2, y / 2) == y / 2;
    } else if y == 0 {
      assert Xor(x / 2, y / 2) == x / 2;
    }
  }

  /** `^` with a value below bit `n` leaves the bits from `n` upwards alone. */
  lemma {:induction false} XorHigh(q: nat, r: nat, y: nat, n: nat)
    requires r < Pow2(n) && y < Pow2(n)
    ensures Xor(q * Pow2(n) + r, y) == q * Pow2(n) + Xor(r, y)
  {
    if n == 0 {
      assert r == 0 && y == 0;
    } else {
      var h := q * Pow2(n - 1);
      var x := q * Pow2(n) + r;
      assert q * Pow2(n) == 2 * h by { MulPow2Step(q, n); }
      assert x / 2 == h + r / 2 && x % 2 == r % 2;
      XorStep(x, y);
      XorStep(r, y);
      XorHigh(q, r / 2, y / 2, n - 1);
    }
  }

  /** `a ^ 0xff` complements a byte. */
  lemma XorByte(a: nat)
    requires a <= 0xff
    ensures Xor(a, 0xff) == 0xff - a
  {
    Pow2Constants();
    XorComplement(a, 8);
  }

  /** `a | (c << 8)` is a sum when `a` fits in a byte. */
  lemma OrAboveByte(c: nat, a: nat)
    requires a <= 0xff
    ensures Or(a, c * 0x100) == a + 0x100 * c
  {
    Pow2Constants();
    OrComm(a, c * 0x100);
    OrDisjoint(c, a, 8);
  }

  /** The low byte of `v ^ 0xff` is the complement of the low byte of `v`. */
  lemma XorLowByte(v: nat)
    ensures Xor(v, 0xff) % 0x100 == 0xff - v % 0x100
  {
    Pow2Constants();
    XorHigh(v / 0x100, v % 0x100, 0xff, 8);
    XorComplement(v % 0x100, 8);
    DivModUnique(Xor(v, 0xff), 0x100, v / 0x100, 0xff - v % 0x100);
  }

  /** The fields of `a | (c << 8) | (d << 16)` for bytes `a`, `c` and a 16-bit `d`. */
  lemma ByteFields(a: int, c: int, d: int)
    requires 0 <= a < 0x100 && 0 <= c < 0x100 && 0 <= d < 0x1_0000
    ensures var v := a + 0x100 * c + 0x1_0000 * d;
      && v % 0x100 == a
      && (v / 0x100) % 0x100 == c
      && (v / 0x1_0000) % 0x1_0000 == d
  {
    var v := a + 0x100 * c + 0x1_0000 * d;
    DivModUnique(v, 0x100, c + 0x100 * d, a);
    DivModUnique(v / 0x100, 0x100, d, c);
    DivModUnique(v, 0x1_0000, d, a + 0x100 * c);
    DivModUnique(d, 0x1_0000, 0, d);
  }

  lemma {:induction false} WordBound(bs: seq<bool>)
    ensures Word(bs) < Pow2(|bs|)
  {
    if bs != [] {
      WordBound(bs[1..]);
    }
  }

  /** The lowest digit of a word and the word above it. */
  lemma WordCons(bs: seq<bool>)
    requires bs != []
    ensures Word(bs) % 2 == (if bs[0] then 1 else 0) && Word(bs) / 2 == Word(bs[1..])
  {
    DivModUnique(Word(bs), 2, Word(bs[1..]), if bs[0] then 1 else 0);
  }

  lemma ShiftedSum(b: int, u: int, w: int, p: int)
    ensures b + 2 * (u + p * w) == (b + 2 * u) + (2 * p) * w
  {
  }

  /** Digits appended at the top are worth `Pow2(|s|)` each. */
  lemma {:induction false} WordAppend(s: seq<bool>, t: seq<bool>)
    ensures Word(s + t) == Word(s) + Pow2(|s|) * Word(t)
  {
    if s != [] {
      var b := if s[0] then 1 else 0;
      var s', w, p := s[1..], Word(t), Pow2(|s| - 1);
      assert (s + t)[0] == s[0] && (s + t)[1..] == s' + t;
      assert Word(s + t) == b + 2 * Word(s' + t);
      WordAppend(s', t);
      assert Word(s) == b + 2 * Word(s');
      ShiftedSum(b, Word(s'), w, p);
    } else {
      assert s + t == t;
    }
  }

  /** A word of digits `s + t` where `s` has 8 digits: the byte `s`, then `t` above it. */
  lemma WordAppendByte(s: seq<bool>, t: seq<bool>)
    requires |s| == 8
    ensures Word(s + t) == Word(s) + 0x100 * Word(t)
  {
    WordAppend(s, t);
    Pow2Constants();
  }

  /** A 32-digit word as its low byte, second byte and top 16 digits. */
  lemma WordSplit(bs: seq<bool>)
    requires |bs| == 32
    ensures Word(bs) == Word(bs[..8]) + 0x100 * Word(bs[8..16]) + 0x1_0000 * Word(bs[16..])
  {
    assert bs[..8] + bs[8..] == bs && bs[8..16] + bs[16..] == bs[8..];
    WordAppendByte(bs[..8], bs[8..]);
    WordAppendByte(bs[8..16], bs[16..]);
    var a, c, d := Word(bs[..8]), Word(bs[8..16]), Word(bs[16..]);
    var w := Word(bs[8..]);
    assert Word(bs) == a + 0x100 * w;
    assert w == c + 0x100 * d;
  }

  /** Reading back the low `n` bits of `x` gives `x & (2^n - 1)`. */
  lemma {:induction false} WordBitsOf(x: int, n: nat)
    ensures Word(BitsOf(x, n)) == x % Pow2(n)
    decreases n
  {
    if n > 0 {
      WordBitsOf(x / 2, n - 1);
      ModPow2Step(x, n - 1);
    }
  }

  /** Bit `i` of a word is its `i`-th digit. */
  lemma {:induction false} BitOfWord(bs: seq<bool>, i: nat)
    requires i < |bs|
    ensures Bit(Word(bs), i) == if bs[i] then 1 else 0
  {
    WordCons(bs);
    if i > 0 {
      BitOfWord(bs[1..], i - 1);
      assert bs[1..][i - 1] == bs[i];
    }
  }

  /** The `i`-th digit of `BitsOf(x, n)` is bit `i` of `x`. */
  lemma {:induction false} BitsOfAt(x: int, n: nat, i: nat)
    requires i < n
    ensures BitsOf(x, n)[i] == (Bit(x, i) == 1)
    decreases i
  {
    if i > 0 {
      BitsOfAt(x / 2, n - 1, i - 1);
    }
  }
}
