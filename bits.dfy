/**
  Python's arbitrary-precision integer bit operations on non-negative values, and the
  big-endian reading of a bit string. The decoder shifts wire bits into an unbounded
  integer and extracts card and facility fields with `&` and `>>`; these functions give
  those operators their meaning on `nat`, bit by bit, so that the source's literal masks
  can be used unchanged.
*/
module Bits {

  function Pow2(n: nat): (r: nat)
    ensures r >= 1
  {
    if n == 0 then 1 else 2 * Pow2(n - 1)
  }

  /** Python's `a & b` for non-negative `a` and `b`, from the least significant bit up. */
  function And(a: nat, b: nat): nat
    decreases a
  {
    if a == 0 || b == 0 then 0
    else 2 * And(a / 2, b / 2) + (if a % 2 == 1 && b % 2 == 1 then 1 else 0)
  }

  /** Python's `a | b` for non-negative `a` and `b`, from the least significant bit up. */
  function Or(a: nat, b: nat): nat
    decreases a
  {
    if a == 0 then b
    else if b == 0 then a
    else 2 * Or(a / 2, b / 2) + (if a % 2 == 1 || b % 2 == 1 then 1 else 0)
  }

  /** Python's `a >> k` for non-negative `a`: `k` halvings, each dropping the lowest bit. */
  function Shr(a: nat, k: nat): nat
  {
    if k == 0 then a else Shr(a / 2, k - 1)
  }

  /** The integer whose ones are exactly bits `low` .. `low + width - 1`. */
  function Mask(low: nat, width: nat): nat
  {
    if low == 0 then Pow2(width) - 1 else 2 * Mask(low - 1, width)
  }

  /** Bits `low` .. `low + width - 1` of `v`, read as an unsigned number. */
  function Field(v: nat, low: nat, width: nat): nat
  {
    Shr(v, low) % Pow2(width)
  }

  /** The value of a bit string whose first element is the most significant bit. */
  function BigEndian(s: seq<bool>): nat
  {
    if s == [] then 0 else 2 * BigEndian(s[..|s| - 1]) + (if s[|s| - 1] then 1 else 0)
  }

  lemma ModOfDouble(a: nat, p: nat)
    requires p >= 1
    ensures a % (2 * p) == 2 * ((a / 2) % p) + a % 2
  {
    var q, r := (a / 2) / p, (a / 2) % p;
    assert a / 2 == q * p + r;
    assert a == q * (2 * p) + (2 * r + a % 2);
    DivModUnique(a, 2 * p, q, 2 * r + a % 2);
  }

  lemma DivModUnique(a: int, d: int, q: int, r: int)
    requires d > 0 && 0 <= r < d && a == q * d + r
    ensures a / d == q && a % d == r
  {
    var q', r' := a / d, a % d;
    assert (q - q') * d == r' - r;
    if q > q' {
      MulAtLeast(q - q', d);
    } else if q < q' {
      MulAtLeast(q' - q, d);
    }
  }

  lemma {:induction false} MulAtLeast(k: nat, d: nat)
    requires k >= 1
    ensures k * d >= d
  {
    if k > 1 {
      MulAtLeast(k - 1, d);
      assert k * d == (k - 1) * d + d;
    }
  }

  lemma ShrZero(k: nat)
    ensures Shr(0, k) == 0
  {
    if k > 0 { ShrZero(k - 1); }
  }

  lemma {:induction false} MaskIsZero(low: nat, width: nat)
    ensures Mask(low, width) == 0 <==> width == 0
  {
    if low > 0 { MaskIsZero(low - 1, width); }
  }

  /** `a & (2^w - 1)` keeps the lowest `w` bits of `a`. */
  lemma {:induction false} AndLowOnes(a: nat, w: nat)
    ensures And(a, Pow2(w) - 1) == a % Pow2(w)
  {
    if w == 0 {
      assert Pow2(w) - 1 == 0;
      assert And(a, 0) == 0;
    } else if a == 0 {
      assert And(0, Pow2(w) - 1) == 0;
    } else {
      var p := Pow2(w - 1);
      var ones := Pow2(w) - 1;
      assert ones == 2 * (p - 1) + 1;
      assert And(a, ones) == 2 * And(a / 2, p - 1) + a % 2 by {
        AndOdd(a, p - 1);
      }
      assert And(a / 2, p - 1) == (a / 2) % p by {
        AndLowOnes(a / 2, w - 1);
      }
      assert 2 * ((a / 2) % p) + a % 2 == a % Pow2(w) by {
        ModOfDouble(a, p);
      }
    }
  }

  lemma AndOdd(a: nat, c: nat)
    requires a > 0
    ensures And(a, 2 * c + 1) == 2 * And(a / 2, c) + a % 2
  {
    assert (2 * c + 1) / 2 == c && (2 * c + 1) % 2 == 1;
  }

  /**
    Masking with `Mask(low, width)` and shifting right by `low` extracts exactly the
    field of bits `low` .. `low + width - 1`: the idiom `(v & MASK) >> OFFSET`.
  */
  lemma {:induction false} AndMaskShr(a: nat, low: nat, width: nat)
    ensures Shr(And(a, Mask(low, width)), low) == Field(a, low, width)
  {
    if low == 0 {
      AndLowOnes(a, width);
    } else {
      var m := Mask(low - 1, width);
      MaskIsZero(low - 1, width);
      if a == 0 || m == 0 {
        ShrZero(low);
        ShrZero(low - 1);
        if a != 0 {
          assert Pow2(width) == 1;
        }
      } else {
        assert And(a, 2 * m) == 2 * And(a / 2, m);
        AndMaskShr(a / 2, low - 1, width);
      }
    }
  }

  /** Setting the lowest bit of an even number adds one: `(2 * a) | 1 == 2 * a + 1`. */
  lemma OrOne(a: nat)
    ensures Or(2 * a, 1) == 2 * a + 1
  {
    if a > 0 {
      assert Or(2 * a, 1) == 2 * Or(a, 0) + 1;
    }
  }

  /** `n` bits hold a value below `2^n`. */
  lemma {:induction false} BigEndianBound(s: seq<bool>)
    ensures BigEndian(s) < Pow2(|s|)
  {
    if s != [] {
      BigEndianBound(s[..|s| - 1]);
    }
  }

  /** Shifting right by `k` drops the last `k` bits of the string. */
  lemma {:induction false} ShrBigEndian(s: seq<bool>, k: nat)
    requires k <= |s|
    ensures Shr(BigEndian(s), k) == BigEndian(s[..|s| - k])
  {
    if k == 0 {
      assert s[..|s|] == s;
    } else {
      var init := s[..|s| - 1];
      assert BigEndian(s) / 2 == BigEndian(init);
      ShrBigEndian(init, k - 1);
      assert init[..|init| - (k - 1)] == s[..|s| - k];
    }
  }

  /** Reducing modulo `2^w` keeps the last `w` bits of the string. */
  lemma {:induction false} ModBigEndian(t: seq<bool>, w: nat)
    requires w <= |t|
    ensures BigEndian(t) % Pow2(w) == BigEndian(t[|t| - w..])
  {
    if w == 0 {
      assert t[|t|..] == [];
    } else {
      var init := t[..|t| - 1];
      var u := t[|t| - w..];
      ModOfDouble(BigEndian(t), Pow2(w - 1));
      assert BigEndian(t) / 2 == BigEndian(init);
      ModBigEndian(init, w - 1);
      assert u[..|u| - 1] == init[|init| - (w - 1)..];
      assert u[|u| - 1] == t[|t| - 1];
    }
  }

  /**
    Bits `low` .. `low + width - 1` of a received bit string's value are the big-endian
    value of the `width` elements that end `low` places before its end.
  */
  lemma FieldOfBits(s: seq<bool>, low: nat, width: nat)
    requires low + width <= |s|
    ensures Field(BigEndian(s), low, width) == BigEndian(s[|s| - low - width..|s| - low])
  {
    var t := s[..|s| - low];
    ShrBigEndian(s, low);
    ModBigEndian(t, width);
    assert t[|t| - width..] == s[|s| - low - width..|s| - low];
  }
}
