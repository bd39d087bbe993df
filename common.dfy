/** Shared vocabulary: machine integer ranges, powers of two and Option. */
module Common {

  /** An unsigned 8-bit value, as one byte on the wire. */
  type Byte = x: int | 0 <= x < 256

  /** An unsigned 32-bit value, as one FPGA register word. */
  type U32 = x: int | 0 <= x < 0x1_0000_0000

  const TWO32: nat := 0x1_0000_0000

  datatype Option<T> = None | Some(value: T)

  /** The Python exceptions the modelled code raises or catches. */
  datatype PyError = AttributeError | IndexError | ValueError | KeyError | TypeError | Exception

  /** A Python call that either returns a value or raises. */
  datatype Result<T> = Ok(value: T) | Fail(error: PyError)

  function Pow2(n: nat): (r: nat)
    ensures r >= 1
  {
    if n == 0 then 1 else 2 * Pow2(n - 1)
  }

  lemma {:induction false} Pow2Add(a: nat, b: nat)
    ensures Pow2(a + b) == Pow2(a) * Pow2(b)
  {
    if a > 0 {
      Pow2Add(a - 1, b);
      assert Pow2(a + b) == 2 * Pow2(a - 1 + b);
    }
  }

  lemma {:induction false} Pow2Monotone(a: nat, b: nat)
    requires a <= b
    ensures Pow2(a) <= Pow2(b)
  {
    if a < b {
      Pow2Monotone(a, b - 1);
    }
  }

  lemma Pow2At32()
    ensures Pow2(32) == TWO32
  {
    Pow2Add(16, 16);
    assert Pow2(16) == 65536 by {
      Pow2Add(8, 8);
      assert Pow2(8) == 256 by {
        Pow2Add(4, 4);
        assert Pow2(4) == 16;
      }
    }
  }

  lemma {:induction false} MulAtLeast(m: int, k: int)
    requires m > 0 && k >= 1
    ensures m * k >= m
  {
    if k > 1 {
      MulAtLeast(m, k - 1);
      assert m * k == m * (k - 1) + m;
    }
  }

  /** Division and remainder are determined by any decomposition `v == m * q + s` with `0 <= s < m`. */
  lemma DivModUnique(v: int, m: int, q: int, s: int)
    requires m > 0 && v == m * q + s && 0 <= s < m
    ensures v / m == q && v % m == s
  {
    var q', s' := v / m, v % m;
    if q > q' {
      assert m * (q - q') == m * q - m * q';
      MulAtLeast(m, q - q');
    } else if q < q' {
      assert m * (q' - q) == m * q' - m * q;
      MulAtLeast(m, q' - q);
    }
  }

  lemma ModBelow(w: int, m: int)
    requires m > 0
    ensures 0 <= w < m ==> w / m == 0 && w % m == w
  {
    if 0 <= w < m {
      DivModUnique(w, m, 0, w);
    }
  }

  /** For `u` below `2 * h`, the bit `u >> log2(h)` is set exactly when `u >= h`. */
  lemma TopBit(u: int, h: int)
    requires h > 0 && 0 <= u < 2 * h
    ensures u / h != 0 <==> u >= h
  {
    if u < h {
      DivModUnique(u, h, 0, u);
    } else {
      DivModUnique(u, h, 1, u - h);
    }
  }

  function Min(a: int, b: int): int { if a <= b then a else b }

  function Max(a: int, b: int): int { if a >= b then a else b }

  /** Saturates `v` into [lo, hi], as `max(min(v, hi), lo)` does in Python. */
  function Clamp(v: int, lo: int, hi: int): (r: int)
    ensures lo <= r
    ensures lo <= hi ==> r <= hi
    ensures lo <= v <= hi ==> r == v
    ensures v < lo ==> r == lo
    ensures lo <= hi < v ==> r == hi
  {
    Max(Min(v, hi), lo)
  }

  /** ASCII lower-casing of a string, as `str.lower()` does on ASCII text. */
  function Lower(s: string): (r: string)
    ensures |r| == |s|
    ensures forall i :: 0 <= i < |s| ==> r[i] == LowerChar(s[i])
  {
    if s == [] then [] else [LowerChar(s[0])] + Lower(s[1..])
  }

  function LowerChar(c: char): (d: char)
    ensures 'A' <= c <= 'Z' ==> d as int == c as int + 32
    ensures !('A' <= c <= 'Z') ==> d == c
  {
    if 'A' <= c <= 'Z' then (c as int + 32) as char else c
  }

  /** Floor division by a product is division by one factor, then by the other. */
  lemma DivDiv(v: int, a: int, b: int)
    requires a > 0 && b > 0
    ensures a * b > 0 && v / a / b == v / (a * b)
  {
    var q1, r1 := v / a, v % a;
    var q2, r2 := q1 / b, q1 % b;
    assert v == a * (b * q2 + r2) + r1;
    assert v == (a * b) * q2 + (a * r2 + r1);
    if r2 < b - 1 {
      MulAtLeast(a, b - 1 - r2);
      assert a * (b - 1) - a * r2 == a * (b - 1 - r2);
    }
    assert a * r2 <= a * (b - 1);
    MulAtLeast(a, b);
    DivModUnique(v, a * b, q2, a * r2 + r1);
  }

  // -------------------------------------------------------- positional digits

  /** The weight of digit `k` in base 2^w, that is 2^(w * k). */
  function Radix(w: nat, k: nat): (r: nat)
    ensures r >= 1
  {
    if k == 0 then 1 else Pow2(w) * Radix(w, k - 1)
  }

  lemma {:induction false} RadixIsPow2(w: nat, k: nat)
    ensures Radix(w, k) == Pow2(w * k)
  {
    if k > 0 {
      RadixIsPow2(w, k - 1);
      MulSucc(w, k);
      Pow2Sum(w, w * (k - 1), w * k);
    }
  }

  lemma MulSucc(w: nat, k: nat)
    requires k >= 1
    ensures w * (k - 1) >= 0 && w * k == w + w * (k - 1)
  {
  }

  lemma Pow2Sum(a: nat, b: nat, c: nat)
    requires c == a + b
    ensures Pow2(c) == Pow2(a) * Pow2(b)
  {
    Pow2Add(a, b);
  }

  /** The `n` lowest base-2^w digits of `v`, least significant first. */
  function Digits(v: int, n: nat, w: nat): (ds: seq<nat>)
    ensures |ds| == n
    ensures forall i :: 0 <= i < n ==> ds[i] < Pow2(w)
    decreases n
  {
    if n == 0 then [] else [v % Pow2(w)] + Digits(v / Pow2(w), n - 1, w)
  }

  /** The number whose base-2^w digits are `ds`, least significant first. */
  function FromDigits(ds: seq<nat>, w: nat): nat
  {
    if ds == [] then 0 else ds[0] + Pow2(w) * FromDigits(ds[1..], w)
  }

  /** Digit `i` is `(v >> (w * i)) & (2^w - 1)`. */
  lemma {:induction false} DigitsAt(v: int, n: nat, w: nat, i: nat)
    requires i < n
    ensures Digits(v, n, w)[i] == (v / Radix(w, i)) % Pow2(w)
    decreases n
  {
    if i > 0 {
      DigitsAt(v / Pow2(w), n - 1, w, i - 1);
      DivDiv(v, Pow2(w), Radix(w, i - 1));
    }
  }

  lemma ScaleSum(b: int, x: int, d: int, p: int)
    ensures b * (x + d * p) == b * x + d * (b * p)
  {
  }

  /** Appending a most significant digit adds it at weight 2^(w * |ds|). */
  lemma {:induction false} FromDigitsSnoc(ds: seq<nat>, d: nat, w: nat)
    ensures FromDigits(ds + [d], w) == FromDigits(ds, w) + d * Radix(w, |ds|)
  {
    if ds != [] {
      var t := ds[1..];
      assert (ds + [d])[1..] == t + [d];
      assert (ds + [d])[0] == ds[0];
      FromDigitsSnoc(t, d, w);
      ScaleSum(Pow2(w), FromDigits(t, w), d, Radix(w, |t|));
    }
  }

  /** Digits in range are read back from their number. */
  lemma {:induction false} DigitsOfFromDigits(ds: seq<nat>, w: nat)
    requires forall i :: 0 <= i < |ds| ==> ds[i] < Pow2(w)
    ensures Digits(FromDigits(ds, w), |ds|, w) == ds
  {
    if ds != [] {
      DivModUnique(FromDigits(ds, w), Pow2(w), FromDigits(ds[1..], w), ds[0]);
      DigitsOfFromDigits(ds[1..], w);
    }
  }

  /** With `0 <= lo < b` and `0 <= hi < r`, `lo + b * hi` lies in [0, b * r). */
  lemma MixedRadix(b: int, r: int, lo: int, hi: int)
    requires 0 <= lo < b && 0 <= hi < r
    ensures 0 <= lo + b * hi < b * r
  {
    if hi < r - 1 {
      assert b * (r - 1) - b * hi == b * (r - 1 - hi);
      MulAtLeast(b, r - 1 - hi);
    }
    assert b * (r - 1) + b == b * r;
  }

  /** The remainder by `b * r` from the remainders by `b` and then by `r`. */
  lemma ModProduct(v: int, b: int, r: int)
    requires b > 0 && r > 0
    ensures b * r > 0 && v % (b * r) == v % b + b * ((v / b) % r)
  {
    var u, lo := v / b, v % b;
    var q, hi := u / r, u % r;
    assert v == b * u + lo;
    assert u == r * q + hi;
    assert b * u + lo == (b * r) * q + (lo + b * hi);
    MixedRadix(b, r, lo, hi);
    DivModUnique(v, b * r, q, lo + b * hi);
  }

  /** The digits of `v` make up `v` modulo 2^(w * n). */
  lemma {:induction false} FromDigitsOfDigits(v: int, n: nat, w: nat)
    ensures FromDigits(Digits(v, n, w), w) == v % Radix(w, n)
    decreases n
  {
    if n == 0 {
      ModBelow(v % 1, 1);
    } else {
      var b := Pow2(w);
      var u := v / b;
      FromDigitsOfDigits(u, n - 1, w);
      var ds := Digits(v, n, w);
      assert ds[1..] == Digits(u, n - 1, w);
      ModProduct(v, b, Radix(w, n - 1));
    }
  }

  /** A number written with `n` digits in range is below 2^(w * n). */
  lemma FromDigitsBound(ds: seq<nat>, w: nat)
    requires forall i :: 0 <= i < |ds| ==> ds[i] < Pow2(w)
    ensures FromDigits(ds, w) < Radix(w, |ds|)
  {
    DigitsOfFromDigits(ds, w);
    FromDigitsOfDigits(FromDigits(ds, w), |ds|, w);
  }

  // ------------------------------------------------------------ binary words

  /** Bit `i` of `v`: `(v >> i) & 1`. */
  function BitOf(v: int, i: nat): (b: nat)
    ensures b < 2
  {
    (v / Pow2(i)) % 2
  }

  /** The 32 bits of a word, least significant first. */
  function Bits(v: int): (bs: seq<nat>)
    ensures |bs| == 32
    ensures forall i :: 0 <= i < 32 ==> bs[i] < 2
  {
    Digits(v, 32, 1)
  }

  lemma BitsAt(v: int, i: nat)
    requires i < 32
    ensures Bits(v)[i] == BitOf(v, i)
  {
    DigitsAt(v, 32, 1, i);
    RadixIsPow2(1, i);
  }

  /** The word with bits `bs`. */
  function FromBits(bs: seq<nat>): (r: U32)
    requires |bs| == 32 && forall i :: 0 <= i < 32 ==> bs[i] < 2
    ensures Bits(r) == bs
  {
    FromDigitsBound(bs, 1);
    RadixIsPow2(1, 32);
    Pow2At32();
    DigitsOfFromDigits(bs, 1);
    FromDigits(bs, 1)
  }

  /** A word is the number its bits make up. */
  lemma FromBitsOfBits(v: U32)
    ensures FromBits(Bits(v)) == v
  {
    FromDigitsOfDigits(v, 32, 1);
    RadixIsPow2(1, 32);
    Pow2At32();
    ModBelow(v, TWO32);
  }
}
