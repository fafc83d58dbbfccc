/** Bytes, powers of two, and little-endian numerals whose digits are `w` bits wide.
    Base 256 (`w == 8`) and base 32 (`w == 5`) are the two instances the wire formats use. */
module Numerals {

  type byte = b: int | 0 <= b < 256

  /** One more than the largest `u64`. */
  const U64: nat := 0x1_0000_0000_0000_0000

  datatype Option<+T> = None | Some(value: T)

  function Pow2(n: nat): (p: nat)
    ensures p >= 1
  {
    if n == 0 then 1 else 2 * Pow2(n - 1)
  }

  lemma {:induction false} Pow2Add(m: nat, n: nat)
    ensures Pow2(m + n) == Pow2(m) * Pow2(n)
  {
    if m != 0 {
      Pow2Add(m - 1, n);
      assert Pow2(m + n) == 2 * Pow2((m - 1) + n);
      assert 2 * (Pow2(m - 1) * Pow2(n)) == (2 * Pow2(m - 1)) * Pow2(n);
    }
  }

  lemma Pow2Monotone(m: nat, n: nat)
    requires m <= n
    ensures Pow2(m) <= Pow2(n)
  {
    Pow2Add(m, n - m);
    assert Pow2(m) * 1 <= Pow2(m) * Pow2(n - m);
  }

  lemma Pow2Small()
    ensures Pow2(0) == 1 && Pow2(1) == 2 && Pow2(2) == 4 && Pow2(3) == 8 && Pow2(4) == 16
    ensures Pow2(5) == 32 && Pow2(6) == 64 && Pow2(7) == 128 && Pow2(8) == 256
  {
    assert Pow2(4) == 16;
    assert Pow2(8) == 16 * Pow2(4);
  }

  /** Every digit fits in `w` bits. */
  predicate Fits(w: nat, ds: seq<nat>) {
    forall i :: 0 <= i < |ds| ==> ds[i] < Pow2(w)
  }

  /** The integer a little-endian digit string denotes. */
  function Value(w: nat, ds: seq<nat>): nat {
    if |ds| == 0 then 0 else ds[0] + Pow2(w) * Value(w, ds[1..])
  }

  /** The low `n` digits of `v`, least significant first. */
  function Expand(w: nat, v: nat, n: nat): (ds: seq<nat>)
    ensures |ds| == n
  {
    if n == 0 then [] else
      var p := Pow2(w);
      DivModNat(v, p);
      [v % p] + Expand(w, v / p, n - 1)
  }

  lemma DivModNat(v: nat, p: nat)
    requires p >= 1
    ensures v / p >= 0 && 0 <= v % p < p && v == p * (v / p) + v % p
  {
  }

  lemma {:induction false} ExpandFits(w: nat, v: nat, n: nat)
    ensures Fits(w, Expand(w, v, n))
  {
    if n != 0 {
      var p := Pow2(w);
      DivModNat(v, p);
      ExpandFits(w, v / p, n - 1);
      var rest := Expand(w, v / p, n - 1);
      assert Expand(w, v, n) == [v % p] + rest;
    }
  }

  lemma {:induction false} ValueBound(w: nat, ds: seq<nat>)
    requires Fits(w, ds)
    ensures Value(w, ds) < Pow2(w * |ds|)
  {
    if |ds| == 0 {
    } else {
      ValueBound(w, ds[1..]);
      var n := |ds| - 1;
      var p, q, v := Pow2(w), Pow2(w * n), Value(w, ds[1..]);
      assert Pow2(w * |ds|) == p * q by {
        assert w * |ds| == w + w * n;
        Pow2Add(w, w * n);
      }
      MulMonotone(p, v, q - 1);
      MulPred(p, q);
    }
  }

  lemma MulPred(p: int, q: int)
    ensures p * (q - 1) == p * q - p
  {
  }

  lemma MulMonotone(p: nat, a: int, b: int)
    requires a <= b
    ensures p * a <= p * b
  {
  }

  /** Reading back the digits of a number that fits gives the number. */
  lemma {:induction false} ValueOfExpand(w: nat, v: nat, n: nat)
    requires v < Pow2(w * n)
    ensures Value(w, Expand(w, v, n)) == v
  {
    if n == 0 {
    } else {
      var p, q := Pow2(w), Pow2(w * (n - 1));
      assert v < p * q by {
        assert w * n == w + w * (n - 1);
        Pow2Add(w, w * (n - 1));
      }
      DivModNat(v, p);
      DivBound(v, p, q);
      ValueOfExpand(w, v / p, n - 1);
      ValueOfCons(w, v % p, Expand(w, v / p, n - 1));
    }
  }

  lemma ValueOfCons(w: nat, d: nat, ds: seq<nat>)
    ensures Value(w, [d] + ds) == d + Pow2(w) * Value(w, ds)
  {
    assert ([d] + ds)[1..] == ds;
  }

  lemma DivBound(v: nat, p: nat, q: nat)
    requires p > 0 && v < p * q
    ensures v / p < q
  {
    assert p * (v / p) <= v;
    if v / p >= q {
      MulMonotone(p, q, v / p);
    }
  }

  lemma DivModUnique(p: nat, q: int, r: int)
    requires 0 <= r < p
    ensures (r + p * q) % p == r && (r + p * q) / p == q
  {
    var v := r + p * q;
    var k, m := v / p, v % p;
    assert v == p * k + m;
    assert p * (k + 1) == p * k + p && p * (q + 1) == p * q + p;
    if k < q {
      MulMonotone(p, k + 1, q);
    } else if k > q {
      MulMonotone(p, q + 1, k);
    }
  }

  lemma DivAddMultiple(x: nat, p: nat, q: nat)
    requires p > 0
    ensures (x + p * q) / p == x / p + q && (x + p * q) % p == x % p
  {
    DivModNat(x, p);
    assert p * (x / p + q) == p * (x / p) + p * q;
    DivModUnique(p, x / p + q, x % p);
  }

  /** The digits of the number a digit string denotes are that digit string. */
  lemma {:induction false} ExpandOfValue(w: nat, ds: seq<nat>)
    requires Fits(w, ds)
    ensures Expand(w, Value(w, ds), |ds|) == ds
  {
    if |ds| == 0 {
    } else {
      DivModUnique(Pow2(w), Value(w, ds[1..]), ds[0]);
      ExpandOfValue(w, ds[1..]);
    }
  }

  /** Dropping the low `i` digits divides by the weight of digit `i`. */
  lemma {:induction false} ValueOfSuffix(w: nat, ds: seq<nat>, i: nat)
    requires i <= |ds| && Fits(w, ds)
    ensures Value(w, ds) / Pow2(w * i) == Value(w, ds[i..])
  {
    if i == 0 {
      assert ds[0..] == ds;
    } else {
      var p, rest := Pow2(w), ds[1..];
      ValueOfSuffix(w, rest, i - 1);
      assert rest[i - 1..] == ds[i..];
      DivModUnique(p, Value(w, rest), ds[0]);
      assert w * i == w + w * (i - 1);
      Pow2Add(w, w * (i - 1));
      DivDiv(Value(w, ds), p, Pow2(w * (i - 1)));
    }
  }

  lemma DivDiv(v: nat, p: nat, q: nat)
    requires p > 0 && q > 0
    ensures p * q > 0 && v / (p * q) == v / p / q
  {
    var a, r := v / p, v % p;
    var b, s := a / q, a % q;
    assert v == p * (q * b + s) + r;
    assert p * (q * b + s) == (p * q) * b + p * s;
    MulMonotone(p, s, q - 1);
    assert p * (q - 1) == p * q - p;
    DivModUnique(p * q, b, p * s + r);
  }

  /** Changing one digit changes the value by that digit's weight times the difference. */
  lemma {:induction false} ValueOfUpdate(w: nat, ds: seq<nat>, i: nat, d: nat)
    requires i < |ds|
    ensures Value(w, ds[i := d]) == Value(w, ds) + Pow2(w * i) * (d - ds[i])
  {
    var p := Pow2(w);
    if i == 0 {
      assert ds[0 := d][1..] == ds[1..];
    } else {
      var q, x, rest := Pow2(w * (i - 1)), d - ds[i], ds[1..];
      ValueOfUpdate(w, rest, i - 1, d);
      assert ds[i := d] == [ds[0]] + rest[i - 1 := d];
      ValueOfCons(w, ds[0], rest[i - 1 := d]);
      assert Pow2(w * i) == p * q by {
        assert w * i == w + w * (i - 1);
        Pow2Add(w, w * (i - 1));
      }
      MulDistributes(p, Value(w, rest), q, x);
    }
  }

  lemma MulDistributes(p: int, v: int, q: int, x: int)
    ensures p * (v + q * x) == p * v + (p * q) * x
  {
    assert p * (q * x) == (p * q) * x;
  }

  lemma {:induction false} ValueOfZeros(w: nat, ds: seq<nat>)
    requires forall i :: 0 <= i < |ds| ==> ds[i] == 0
    ensures Value(w, ds) == 0
  {
    if |ds| > 0 {
      ValueOfZeros(w, ds[1..]);
    }
  }
}
