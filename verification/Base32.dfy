/** Nix's base32: the digits of the little-endian base-256 number a byte string denotes,
    printed most significant first in a 32-letter alphabet of its own.
    `Encode` and `Decode` are the shift-and-mask loops of `crates/signing/src/base32.rs`;
    `Encoded` and `Decoded` say in arithmetic what they compute. */
module Base32 {
  import opened Numerals

  const ALPHABET := "0123456789abcdfghijklmnpqrsvwxyz"

  /** Digits needed for `n` bytes. */
  function DigitCount(n: nat): nat {
    if n == 0 then 0 else (n * 8 - 1) / 5 + 1
  }

  // ----- the alphabet -----

  /** Position of `c` in the alphabet, searching from `from`. */
  function PositionFrom(c: char, from: nat): (r: Option<nat>)
    requires from <= |ALPHABET|
    ensures r.Some? ==> from <= r.value < |ALPHABET| && ALPHABET[r.value] == c
    ensures r.None? ==> forall i :: from <= i < |ALPHABET| ==> ALPHABET[i] != c
    decreases |ALPHABET| - from
  {
    if from == |ALPHABET| then None
    else if ALPHABET[from] == c then Some(from)
    else PositionFrom(c, from + 1)
  }

  function Position(c: char): Option<nat> {
    PositionFrom(c, 0)
  }

  lemma AlphabetAscends(i: nat)
    requires i + 1 < 32
    ensures |ALPHABET| == 32 && ALPHABET[i] < ALPHABET[i + 1]
  {
  }

  lemma {:induction false} AlphabetSorted(i: nat, j: nat)
    requires i < j < 32
    ensures |ALPHABET| == 32 && ALPHABET[i] < ALPHABET[j]
    decreases j
  {
    AlphabetAscends(j - 1);
    if i < j - 1 {
      AlphabetSorted(i, j - 1);
    }
  }

  /** Every letter stands for one digit only. */
  lemma PositionOfLetter(d: nat)
    requires d < 32
    ensures |ALPHABET| == 32 && Position(ALPHABET[d]) == Some(d)
  {
    var r := Position(ALPHABET[d]);
    if r.Some? && r.value < d {
      AlphabetSorted(r.value, d);
    } else if r.Some? && r.value > d {
      AlphabetSorted(d, r.value);
    }
  }

  /** `is_valid`. */
  predicate IsValid(s: string) {
    s != "" && AllLetters(s)
  }

  predicate AllLetters(s: string) {
    forall i :: 0 <= i < |s| ==> Position(s[i]).Some?
  }

  // ----- what the two functions compute -----

  /** Little-endian digits, printed most significant first. */
  function Print(ds: seq<nat>): (s: string)
    requires Fits(5, ds)
    ensures |s| == |ds|
  {
    Pow2Small();
    seq(|ds|, p requires 0 <= p < |ds| => ALPHABET[ds[|ds| - 1 - p]])
  }

  /** The digits a string spells, least significant first; a foreign character counts as zero. */
  function DigitsOf(s: string): (ds: seq<nat>)
    ensures |ds| == |s| && Fits(5, ds)
  {
    Pow2Small();
    seq(|s|, n requires 0 <= n < |s| =>
      var r := Position(s[|s| - 1 - n]); if r.Some? then r.value else 0)
  }

  function Encoded(bytes: seq<byte>): string {
    var v := Value(8, bytes);
    ExpandFits(5, v, DigitCount(|bytes|));
    Print(Expand(5, v, DigitCount(|bytes|)))
  }

  ghost predicate Decodable(s: string, n: nat) {
    |s| == DigitCount(n) && AllLetters(s) && Value(5, DigitsOf(s)) < Pow2(8 * n)
  }

  lemma BytesFit(bytes: seq<byte>)
    ensures Fits(8, bytes)
  {
    Pow2Small();
  }

  /** The bytes of a number below `256^n`. */
  ghost function Bytes(v: nat, n: nat): (bs: seq<byte>)
    ensures |bs| == n
  {
    Pow2Small();
    ExpandFits(8, v, n);
    Expand(8, v, n)
  }

  ghost function Decoded(s: string, n: nat): Option<seq<byte>> {
    if Decodable(s, n) then Some(Bytes(Value(5, DigitsOf(s)), n)) else None
  }

  // ----- bitwise operations -----

  function BitOr(a: nat, b: nat): nat
    decreases a + b
  {
    if a == 0 && b == 0 then 0
    else (if a % 2 == 1 || b % 2 == 1 then 1 else 0) + 2 * BitOr(a / 2, b / 2)
  }

  /** `1 << j`, for the shifts within a byte. */
  function Bit(j: nat): nat
    requires j <= 8
  {
    if j == 0 then 1 else if j == 1 then 2 else if j == 2 then 4 else if j == 3 then 8
    else if j == 4 then 16 else if j == 5 then 32 else if j == 6 then 64 else if j == 7 then 128
    else 256
  }

  /** `x >> j`. */
  function Shr(x: nat, j: nat): nat
    requires j <= 8
  {
    if j == 0 then x else if j == 1 then x / 2 else if j == 2 then x / 4 else if j == 3 then x / 8
    else if j == 4 then x / 16 else if j == 5 then x / 32 else if j == 6 then x / 64
    else if j == 7 then x / 128 else x / 256
  }

  /** `x << j`. */
  function Shl(x: nat, j: nat): nat
    requires j <= 8
  {
    if j == 0 then x else if j == 1 then x * 2 else if j == 2 then x * 4 else if j == 3 then x * 8
    else if j == 4 then x * 16 else if j == 5 then x * 32 else if j == 6 then x * 64
    else if j == 7 then x * 128 else x * 256
  }

  /** The low `j` bits of `x`. */
  function Low(x: nat, j: nat): nat
    requires j <= 8
  {
    if j == 0 then 0 else if j == 1 then x % 2 else if j == 2 then x % 4 else if j == 3 then x % 8
    else if j == 4 then x % 16 else if j == 5 then x % 32 else if j == 6 then x % 64
    else if j == 7 then x % 128 else x % 256
  }

  lemma ShiftsAreArithmetic(x: nat, j: nat)
    requires j <= 8
    ensures Bit(j) == Pow2(j) && Shr(x, j) == x / Pow2(j) && Shl(x, j) == x * Pow2(j)
  {
    Pow2Small();
  }

  lemma {:induction false} OrZero(b: nat)
    ensures BitOr(0, b) == b && BitOr(b, 0) == b
  {
    if b != 0 {
      OrZero(b / 2);
    }
  }

  /** Numbers with no bit in common: or-ing is adding. */
  lemma {:induction false} OrMultiple(k: nat, a: nat, q: nat)
    requires k <= 8 && a < Bit(k)
    ensures BitOr(a, Bit(k) * q) == BitOr(Bit(k) * q, a) == a + Bit(k) * q
  {
    if k == 0 {
      OrZero(q);
    } else {
      var b, h := Bit(k) * q, Bit(k - 1) * q;
      assert a / 2 < Bit(k - 1) && b == 2 * h;
      OrMultiple(k - 1, a / 2, q);
      OrUnfold(a, b);
      OrUnfold(b, a);
    }
  }

  lemma OrUnfold(a: nat, b: nat)
    ensures BitOr(a, b) == (if a % 2 == 1 || b % 2 == 1 then 1 else 0) + 2 * BitOr(a / 2, b / 2)
  {
  }

  lemma OrDisjoint(k: nat, a: nat, b: nat)
    requires k <= 8 && a < Bit(k) && Low(b, k) == 0
    ensures BitOr(a, b) == BitOr(b, a) == a + b
  {
    assert b == Bit(k) * Shr(b, k);
    OrMultiple(k, a, Shr(b, k));
  }

  // ----- encoding -----

  lemma DigitAt(ds: seq<nat>, n: nat)
    requires Fits(5, ds) && n < |ds|
    ensures ds[n] == Value(5, ds) / Pow2(5 * n) % 32
  {
    hide Numerals.Value, Numerals.Pow2;
    var rest := Value(5, ds[n + 1..]);
    Pow2Small();
    var v := Value(5, ds[n..]);
    assert v == Value(5, ds) / Pow2(5 * n) by { ValueOfSuffix(5, ds, n); }
    assert v == ds[n] + 32 * rest by {
      assert ds[n..] == [ds[n]] + ds[n + 1..];
      ValueOfCons(5, ds[n], ds[n + 1..]);
    }
    assert v % 32 == ds[n] by { DivModUnique(32, rest, ds[n]); }
  }

  /** The byte above `i`, zero past the end. */
  function Above(bytes: seq<byte>, i: nat): byte {
    if i + 1 < |bytes| then bytes[i + 1] else 0
  }

  lemma LowTwoBytes(bytes: seq<byte>, i: nat) returns (w: nat)
    requires i < |bytes|
    ensures Value(8, bytes) / Pow2(8 * i) == bytes[i] + 256 * Above(bytes, i) + 65536 * w
  {
    BytesFit(bytes);
    Pow2Small();
    ValueOfSuffix(8, bytes, i);
    var t := bytes[i + 1..];
    assert bytes[i..] == [bytes[i]] + t;
    ValueOfCons(8, bytes[i], t);
    w := if |t| == 0 then 0 else Value(8, t[1..]);
  }

  /** Bits sixteen and up never reach a five-bit window that starts inside the low byte. */
  lemma ShiftWindow(x: byte, y: byte, w: nat, j: nat)
    requires j < 8
    ensures Shr(x + 256 * y + 65536 * w, j) % 32 == (Shr(x, j) + Shl(y, 8 - j)) % 32
  {
    var m, k := Bit(j), Bit(8 - j);
    var t := Bit(7 - j) * 16 * w;
    assert k * y + 32 * t >= 0 && x + 256 * y + 65536 * w == x + m * (k * y + 32 * t) by { SplitWord(x, y, w, j); }
    DivAddMultiple(x, m, k * y + 32 * t);
    ShrIsDiv(x, j);
    ShrIsDiv(x + 256 * y + 65536 * w, j);
    assert Shl(y, 8 - j) == k * y;
    DivAddMultiple(Shr(x, j) + k * y, 32, t);
  }

  lemma ShrIsDiv(x: nat, j: nat)
    requires j <= 8
    ensures Shr(x, j) == x / Bit(j)
  {
  }

  lemma SplitWord(x: byte, y: byte, w: nat, j: nat)
    requires j < 8
    ensures Bit(8 - j) * y + 32 * (Bit(7 - j) * 16 * w) >= 0
    ensures x + 256 * y + 65536 * w == x + Bit(j) * (Bit(8 - j) * y + 32 * (Bit(7 - j) * 16 * w))
  {
    if j == 0 { } else if j == 1 { } else if j == 2 { } else if j == 3 { }
    else if j == 4 { } else if j == 5 { } else if j == 6 { } else { }
  }

  /** The five bits at bit `5n`, fetched as the source fetches them: two neighbouring bytes, shifted and or-ed. */
  function Window(bytes: seq<byte>, n: nat): nat
    requires n * 5 / 8 < |bytes|
  {
    var b := n * 5;
    var i, j := b / 8, b % 8;
    BitOr(Shr(bytes[i], j), Shl(Above(bytes, i), 8 - j)) % 32
  }

  lemma WindowIsDigit(bytes: seq<byte>, n: nat)
    requires n * 5 / 8 < |bytes|
    ensures Window(bytes, n) == Value(8, bytes) / Pow2(5 * n) % 32
  {
    var i, j := n * 5 / 8, n * 5 % 8;
    var x: int, y: int := bytes[i], Above(bytes, i);
    var w := LowTwoBytes(bytes, i);
    ShiftWhole(Value(8, bytes), n, x + 256 * y + 65536 * w);
    ShiftWindow(x, y, w, j);
    ShiftedBytes(x, y, j);
    OrDisjoint(8 - j, Shr(x, j), Shl(y, 8 - j));
  }

  lemma ShiftWhole(v: nat, n: nat, u: nat)
    requires v / Pow2(8 * (n * 5 / 8)) == u
    ensures v / Pow2(5 * n) == Shr(u, n * 5 % 8)
  {
    var i, j := n * 5 / 8, n * 5 % 8;
    assert Pow2(5 * n) == Pow2(8 * i) * Pow2(j) by { Pow2Add(8 * i, j); }
    DivDiv(v, Pow2(8 * i), Pow2(j));
    ShiftsAreArithmetic(u, j);
  }

  lemma ShiftedBytes(x: byte, y: byte, j: nat)
    requires j < 8
    ensures Shr(x, j) < Bit(8 - j) && Low(Shl(y, 8 - j), 8 - j) == 0
  {
    if j < 4 {
      if j == 0 { } else if j == 1 { } else if j == 2 { } else { }
    } else {
      if j == 4 { } else if j == 5 { } else if j == 6 { } else { }
    }
  }

  /** The highest digit starts inside the last byte, so no window leaves the buffer. */
  lemma TopDigitInside(len: nat, n: nat)
    requires n < DigitCount(len)
    ensures n * 5 / 8 < len
  {
  }

  lemma EncodedFits(bytes: seq<byte>)
    ensures Value(8, bytes) < Pow2(8 * |bytes|) <= Pow2(5 * DigitCount(|bytes|))
  {
    BytesFit(bytes);
    ValueBound(8, bytes);
    Pow2Monotone(8 * |bytes|, 5 * DigitCount(|bytes|));
  }

  method Encode(bytes: seq<byte>) returns (s: string)
    ensures s == Encoded(bytes)
  {
    s := "";
    var len := DigitCount(|bytes|);
    ghost var v := Value(8, bytes);
    ghost var ds := Expand(5, v, len);
    ExpandFits(5, v, len);
    assert Value(5, ds) == v by { EncodedFits(bytes); ValueOfExpand(5, v, len); }
    Pow2Small();
    var n := len;
    while n > 0
      invariant 0 <= n <= len
      invariant |s| == len - n
      invariant forall p :: 0 <= p < len - n ==> s[p] == Print(ds)[p]
    {
      n := n - 1;
      TopDigitInside(|bytes|, n);
      WindowIsDigit(bytes, n);
      DigitAt(ds, n);
      s := s + [ALPHABET[Window(bytes, n)]];
    }
  }

  // ----- decoding -----

  /** What digit `d` at bit `j` of a byte adds to that byte and to the next one. */
  function Here(d: nat, j: nat): nat
    requires j < 8
  {
    Shl(d, j) % 256
  }

  function Carry(d: nat, j: nat): nat
    requires j < 8
  {
    Shr(d, 8 - j)
  }

  lemma SplitDigit(d: nat, j: nat)
    requires d < 32 && j < 8
    ensures Here(d, j) + 256 * Carry(d, j) == d * Pow2(j)
    ensures Carry(d, j) != 0 ==> d >= Pow2(8 - j)
  {
    SplitBits(d, j);
    assert Bit(j) == Pow2(j) && Bit(8 - j) == Pow2(8 - j) by { Pow2Small(); }
  }

  lemma SplitBits(d: nat, j: nat)
    requires d < 32 && j < 8
    ensures Here(d, j) + 256 * Carry(d, j) == d * Bit(j)
    ensures Carry(d, j) != 0 ==> d >= Bit(8 - j)
  {
    if j < 4 {
      assert Carry(d, j) == 0;
    } else {
      CarriedBits(d, j);
    }
  }

  lemma CarriedBits(d: nat, j: nat)
    requires d < 32 && 4 <= j < 8
    ensures Here(d, j) + 256 * Carry(d, j) == d * Bit(j)
    ensures Carry(d, j) != 0 ==> d >= Bit(8 - j)
  {
    if j == 4 {
      CarriedFour(d);
    } else if j == 5 {
      CarriedFive(d);
    } else if j == 6 {
      CarriedSix(d);
    } else {
      CarriedSeven(d);
    }
  }

  lemma CarriedFour(d: nat)
    requires d < 32
    ensures Here(d, 4) + 256 * Carry(d, 4) == d * 16 && (Carry(d, 4) != 0 ==> d >= 16)
  {
  }

  lemma CarriedFive(d: nat)
    requires d < 32
    ensures Here(d, 5) + 256 * Carry(d, 5) == d * 32 && (Carry(d, 5) != 0 ==> d >= 8)
  {
  }

  lemma CarriedSix(d: nat)
    requires d < 32
    ensures Here(d, 6) + 256 * Carry(d, 6) == d * 64 && (Carry(d, 6) != 0 ==> d >= 4)
  {
  }

  lemma CarriedSeven(d: nat)
    requires d < 32
    ensures Here(d, 7) + 256 * Carry(d, 7) == d * 128 && (Carry(d, 7) != 0 ==> d >= 2)
  {
  }

  lemma Or8Small(x: byte, y: nat)
    requires BitOr(x, y) == x + y < 256
    ensures Or8(x, y) == x + y
  {
  }

  lemma OrHere(j: nat, d: nat, x: byte)
    requires j < 8 && d < 32
    requires if j + 5 >= 8 then x == 0 else Low(x, j + 5) == 0
    ensures Or8(x, Here(d, j)) == x + Here(d, j)
  {
    var lo := Here(d, j);
    if j + 5 >= 8 {
      OrZero(lo);
    } else {
      assert lo < Bit(j + 5) && x + lo < 256 by { HereFits(j, d, x); }
      OrDisjoint(j + 5, lo, x);
    }
    Or8Small(x, lo);
  }

  lemma HereFits(j: nat, d: nat, x: byte)
    requires j < 3 && d < 32 && Low(x, j + 5) == 0
    ensures Here(d, j) < Bit(j + 5) && x + Here(d, j) < 256
  {
  }

  lemma OrCarry(j: nat, d: nat, y: byte)
    requires j < 8 && d < 32
    requires j + 5 > 8 ==> Low(y, j - 3) == 0
    ensures Or8(y, Carry(d, j)) == y + Carry(d, j)
  {
    var hi := Carry(d, j);
    if j + 5 > 8 {
      assert hi < Bit(j - 3) && y + hi < 256 by { CarryFits(j, d, y); }
      OrDisjoint(j - 3, hi, y);
    } else {
      OrZero(y);
    }
    Or8Small(y, hi);
  }

  lemma CarryFits(j: nat, d: nat, y: byte)
    requires 3 < j < 8 && d < 32 && Low(y, j - 3) == 0
    ensures Carry(d, j) < Bit(j - 3) && y + Carry(d, j) < 256
  {
  }

  /** A digit whose carry would leave the buffer makes the number too big for it. */
  lemma OverflowTooBig(ds: seq<nat>, n: nat, len: nat)
    requires Fits(5, ds) && n < |ds|
    requires n * 5 / 8 + 1 == len
    requires Carry(ds[n], n * 5 % 8) != 0
    ensures Value(5, ds) >= Pow2(8 * len)
  {
    Pow2Small();
    var i, j := n * 5 / 8, n * 5 % 8;
    var v, t := Value(5, ds), Value(5, ds[n..]);
    ValueOfSuffix(5, ds, n);
    DivModNat(v, Pow2(5 * n));
    SplitDigit(ds[n], j);
    MulMonotone(Pow2(5 * n), Pow2(8 - j), t);
    Pow2Add(5 * n, 8 - j);
    assert 5 * n + (8 - j) == 8 * len;
  }

  /** One decoding step adds the digit at its weight. */
  lemma StepValue(ds: seq<nat>, n: nat, before: nat, after: nat)
    requires Fits(5, ds) && n < |ds|
    requires before == Pow2(5 * (n + 1)) * Value(5, ds[n + 1..])
    requires after == before + Pow2(8 * (n * 5 / 8)) * (ds[n] * Pow2(n * 5 % 8))
    ensures after == Pow2(5 * n) * Value(5, ds[n..])
  {
    var i, j, x := n * 5 / 8, n * 5 % 8, Value(5, ds[n + 1..]);
    var p := Pow2(5 * n);
    assert Value(5, ds[n..]) == ds[n] + 32 * x by {
      Pow2Small();
      assert ds[n..] == [ds[n]] + ds[n + 1..];
      ValueOfCons(5, ds[n], ds[n + 1..]);
    }
    assert Pow2(5 * (n + 1)) == p * 32 by { Pow2Small(); Pow2Add(5 * n, 5); }
    assert p == Pow2(8 * i) * Pow2(j) by { Pow2Add(8 * i, j); }
    Regroup(Pow2(8 * i), Pow2(j), ds[n], x);
  }

  lemma Regroup(a: nat, b: nat, d: nat, x: nat)
    ensures (a * b * 32) * x + a * (d * b) == (a * b) * (d + 32 * x)
  {
    MulDistributes(a * b, d, 32, x);
    assert a * (d * b) == (a * b) * d;
  }

  lemma UpdateTwoBytes(out: seq<byte>, i: nat, lo: nat, hi: nat)
    requires i + 1 < |out| && out[i] + lo < 256 && out[i + 1] + hi < 256
    ensures Value(8, out[i := out[i] + lo][i + 1 := out[i + 1] + hi])
         == Value(8, out) + Pow2(8 * i) * (lo + 256 * hi)
  {
    var mid := out[i := out[i] + lo];
    ValueOfUpdate(8, out, i, out[i] + lo);
    ValueOfUpdate(8, mid, i + 1, out[i + 1] + hi);
    Pow2Small();
    Pow2Add(8 * i, 8);
    assert 8 * (i + 1) == 8 * i + 8;
    MulDistributes(Pow2(8 * i), lo, 256, hi);
  }

  /** The buffer after one digit has been or-ed in at byte `i`. */
  function OrIn(out: seq<byte>, i: nat, lo: nat, hi: nat): seq<byte>
    requires i < |out|
  {
    var mid := out[i := Or8(out[i], lo)];
    if i + 1 < |out| then mid[i + 1 := Or8(out[i + 1], hi)] else mid
  }

  /** `|=` on a byte. */
  function Or8(x: byte, y: nat): byte {
    var z := BitOr(x, y);
    if z < 256 then z else z % 256
  }

  /** A buffer whose value is a multiple of `2^(8i+m)` has its bits `8i .. 8i+m` free. */
  lemma FreeBits(out: seq<byte>, i: nat, m: nat, x: nat)
    requires i < |out| && 5 <= m <= 12
    requires Value(8, out) == Pow2(8 * i + m) * x
    ensures if m >= 8 then out[i] == 0 else Low(out[i], m) == 0
    ensures m > 8 ==> Low(Above(out, i), m - 8) == 0
  {
    var w := LowTwoBytes(out, i);
    assert Value(8, out) == 0 + Pow2(8 * i) * (Pow2(m) * x) by { Pow2Add(8 * i, m); Reassociate(Pow2(8 * i), Pow2(m), x); }
    DivModUnique(Pow2(8 * i), Pow2(m) * x, 0);
    LowBits(out[i], Above(out, i), w, m, x);
  }

  lemma Reassociate(a: int, b: int, c: int)
    ensures (a * b) * c == a * (b * c)
  {
  }

  lemma LowBits(x: int, y: int, w: nat, m: nat, q: nat)
    requires 0 <= x < 256 && 0 <= y < 256 && 5 <= m <= 12
    requires x + 256 * y + 65536 * w == Pow2(m) * q
    ensures if m >= 8 then x == 0 else Low(x, m) == 0
    ensures m > 8 ==> Low(y, m - 8) == 0
  {
    if m <= 8 {
      MultipleClears(x, y + 256 * w, m, q);
    } else {
      var p := Pow2(m - 8);
      assert 256 * (p * q) == x + 256 * (y + 256 * w) by {
        Pow2Small();
        Pow2Add(8, m - 8);
        Reassociate(256, p, q);
      }
      MultipleClears(y, w, m - 8, q);
    }
  }

  lemma MultipleClears(x: int, y: nat, m: nat, q: nat)
    requires 0 <= x < 256 && 1 <= m <= 8
    requires x + 256 * y == Pow2(m) * q
    ensures Low(x, m) == 0
  {
    Pow2Small();
    hide Numerals.Pow2;
    if m <= 4 {
      FewBitsClear(x, y, m, q);
    } else {
      ManyBitsClear(x, y, m, q);
    }
  }

  lemma FewBitsClear(x: int, y: nat, m: nat, q: nat)
    requires 0 <= x < 256 && 1 <= m <= 4 && x + 256 * y == Bit(m) * q
    ensures Low(x, m) == 0
  {
    if m == 1 { assert x == 2 * (q - 128 * y); }
    else if m == 2 { assert x == 4 * (q - 64 * y); }
    else if m == 3 { assert x == 8 * (q - 32 * y); }
    else { assert x == 16 * (q - 16 * y); }
  }

  lemma ManyBitsClear(x: int, y: nat, m: nat, q: nat)
    requires 0 <= x < 256 && 5 <= m <= 8 && x + 256 * y == Bit(m) * q
    ensures Low(x, m) == 0
  {
    if m == 5 { assert x == 32 * (q - 8 * y); }
    else if m == 6 { assert x == 64 * (q - 4 * y); }
    else if m == 7 { assert x == 128 * (q - 2 * y); }
    else { assert x == 256 * (q - y); }
  }

  /** The bits digit `n` is about to occupy are free, so or-ing it in is adding it. */
  lemma OrInIsAdd(out: seq<byte>, d: nat, i: nat, j: nat, x: nat)
    requires d < 32 && i < |out| && j < 8
    requires Value(8, out) == Pow2(8 * i + (j + 5)) * x
    ensures Or8(out[i], Here(d, j)) == out[i] + Here(d, j)
    ensures i + 1 < |out| ==> Or8(out[i + 1], Carry(d, j)) == out[i + 1] + Carry(d, j)
  {
    FreeBits(out, i, j + 5, x);
    OrHere(j, d, out[i]);
    if i + 1 < |out| {
      OrCarry(j, d, out[i + 1]);
    }
  }

  /** Or-ing a digit in adds its split value at byte `i`, provided nothing is carried out of the buffer. */
  lemma OrInValue(out: seq<byte>, i: nat, lo: nat, hi: nat)
    requires i < |out| && Or8(out[i], lo) == out[i] + lo
    requires i + 1 < |out| ==> Or8(out[i + 1], hi) == out[i + 1] + hi
    requires i + 1 == |out| ==> hi == 0
    ensures Value(8, OrIn(out, i, lo, hi)) == Value(8, out) + Pow2(8 * i) * (lo + 256 * hi)
  {
    if i + 1 < |out| {
      UpdateTwoBytes(out, i, lo, hi);
    } else {
      ValueOfUpdate(8, out, i, out[i] + lo);
    }
  }

  lemma StepKeepsValue(out: seq<byte>, ds: seq<nat>, n: nat, i: nat, j: nat, lo: nat, hi: nat)
    requires Fits(5, ds) && n < |ds| && ds[n] < 32 && i < |out|
    requires i == n * 5 / 8 && j == n * 5 % 8
    requires lo == Here(ds[n], j) && hi == Carry(ds[n], j)
    requires Value(8, out) == Pow2(5 * (n + 1)) * Value(5, ds[n + 1..])
    requires i + 1 == |out| ==> hi == 0
    ensures Value(8, OrIn(out, i, lo, hi)) == Pow2(5 * n) * Value(5, ds[n..])
  {
    assert 5 * (n + 1) == 8 * i + (j + 5);
    OrInIsAdd(out, ds[n], i, j, Value(5, ds[n + 1..]));
    AddDigit(out, ds, n, i, j, lo, hi) by { SplitDigit(ds[n], j); }
  }

  lemma AddDigit(out: seq<byte>, ds: seq<nat>, n: nat, i: nat, j: nat, lo: nat, hi: nat)
    requires Fits(5, ds) && n < |ds| && i < |out|
    requires i == n * 5 / 8 && j == n * 5 % 8
    requires lo + 256 * hi == ds[n] * Pow2(j)
    requires Or8(out[i], lo) == out[i] + lo
    requires i + 1 < |out| ==> Or8(out[i + 1], hi) == out[i + 1] + hi
    requires i + 1 == |out| ==> hi == 0
    requires Value(8, out) == Pow2(5 * (n + 1)) * Value(5, ds[n + 1..])
    ensures Value(8, OrIn(out, i, lo, hi)) == Pow2(5 * n) * Value(5, ds[n..])
  {
    OrInValue(out, i, lo, hi);
    StepValue(ds, n, Value(8, out), Value(8, OrIn(out, i, lo, hi)));
  }

  lemma StartValue(out: seq<byte>, ds: seq<nat>, b: nat)
    requires forall i :: 0 <= i < |out| ==> out[i] == 0
    ensures Value(8, out) == Pow2(b) * Value(5, ds[|ds|..])
  {
    ValueOfZeros(8, out);
    assert ds[|ds|..] == [];
  }

  lemma FinalValue(out: seq<byte>, s: string, ds: seq<nat>)
    requires |s| == DigitCount(|out|) && AllLetters(s) && ds == DigitsOf(s)
    requires Value(8, out) == Pow2(0) * Value(5, ds[0..])
    ensures Decoded(s, |out|) == Some(out)
  {
    assert Value(8, out) == Value(5, ds) by { assert ds[0..] == ds && Pow2(0) == 1; }
    hide Numerals.Value, Numerals.Pow2, Numerals.Expand, AllLetters, DigitsOf;
    BytesFit(out);
    ValueBound(8, out);
    ExpandOfValue(8, out);
  }

  /** Or digit `m` into the buffer; `false` when its carry would leave the buffer. */
  method PutDigit(out: array<byte>, m: nat, d: nat, ghost ds: seq<nat>) returns (ok: bool)
    requires Fits(5, ds) && m < |ds| && d == ds[m] < 32 && m * 5 / 8 < out.Length
    requires Value(8, out[..]) == Pow2(5 * (m + 1)) * Value(5, ds[m + 1..])
    modifies out
    ensures ok ==> Value(8, out[..]) == Pow2(5 * m) * Value(5, ds[m..])
    ensures !ok ==> Value(5, ds) >= Pow2(8 * out.Length)
  {
    var i, j := m * 5 / 8, m * 5 % 8;
    var here, carry := Here(d, j), Carry(d, j);
    if i + 1 == out.Length && carry != 0 {
      OverflowTooBig(ds, m, out.Length);
      return false;
    }
    ghost var before := out[..];
    StepKeepsValue(before, ds, m, i, j, here, carry);
    out[i] := Or8(out[i], here);
    if i + 1 < out.Length {
      out[i + 1] := Or8(out[i + 1], carry);
    }
    assert out[..] == OrIn(before, i, here, carry);
    ok := true;
  }

  lemma Undecodable(s: string, n: nat)
    requires |s| != DigitCount(n) || !AllLetters(s) || Value(5, DigitsOf(s)) >= Pow2(8 * n)
    ensures Decoded(s, n) == None
  {
  }

  method Decode(s: string, n: nat) returns (r: Option<seq<byte>>)
    ensures r == Decoded(s, n)
  {
    hide Numerals.Pow2, Numerals.Value, PositionFrom, Decoded;
    var len := DigitCount(n);
    if |s| != len {
      Undecodable(s, n);
      return None;
    }
    var out := new byte[n](_ => 0);
    ghost var ds := DigitsOf(s);
    StartValue(out[..], ds, 5 * len);
    Pow2Small();
    var pos := 0;
    while pos < |s|
      invariant 0 <= pos <= |s|
      invariant forall p :: 0 <= p < pos ==> Position(s[p]).Some?
      invariant Value(8, out[..]) == Pow2(5 * (len - pos)) * Value(5, ds[len - pos..])
    {
      var m := len - 1 - pos;
      var digit := Position(s[pos]);
      if digit.None? {
        Undecodable(s, n);
        return None;
      }
      TopDigitInside(n, m);
      var ok := PutDigit(out, m, digit.value, ds);
      if !ok {
        Undecodable(s, n);
        return None;
      }
      pos := pos + 1;
    }
    FinalValue(out[..], s, ds);
    r := Some(out[..]);
  }

  // ----- the bijection -----

  lemma DigitsOfPrint(ds: seq<nat>)
    requires Fits(5, ds)
    ensures AllLetters(Print(ds)) && DigitsOf(Print(ds)) == ds
  {
    Pow2Small();
    var s := Print(ds);
    forall p | 0 <= p < |s|
      ensures Position(s[p]) == Some(ds[|s| - 1 - p])
    {
      PositionOfLetter(ds[|s| - 1 - p]);
    }
  }

  lemma PrintDigitsOf(s: string)
    requires AllLetters(s)
    ensures Print(DigitsOf(s)) == s
  {
  }

  /** The printed digits denote, in base 32, the number the bytes denote in base 256. */
  lemma EncodedValue(bytes: seq<byte>)
    ensures AllLetters(Encoded(bytes)) && |Encoded(bytes)| == DigitCount(|bytes|)
    ensures Value(5, DigitsOf(Encoded(bytes))) == Value(8, bytes) < Pow2(8 * |bytes|)
  {
    var v, len := Value(8, bytes), DigitCount(|bytes|);
    EncodedFits(bytes);
    ExpandFits(5, v, len);
    DigitsOfPrint(Expand(5, v, len));
    ValueOfExpand(5, v, len);
  }

  /** Decoding undoes encoding, for every byte string. */
  lemma DecodeEncode(bytes: seq<byte>)
    ensures Decoded(Encoded(bytes), |bytes|) == Some(bytes)
  {
    EncodedValue(bytes);
    BytesFit(bytes);
    ExpandOfValue(8, bytes);
  }

  /** Whatever decodes at length `n` is the encoding of what it decodes to. */
  lemma EncodeDecode(s: string, n: nat)
    requires Decoded(s, n).Some?
    ensures |Decoded(s, n).value| == n && Encoded(Decoded(s, n).value) == s
    ensures Value(8, Decoded(s, n).value) == Value(5, DigitsOf(s))
  {
    var v := Value(5, DigitsOf(s));
    ValueOfExpand(8, v, n);
    ExpandOfValue(5, DigitsOf(s));
    PrintDigitsOf(s);
  }

  /** Distinct byte strings of one length never share an encoding. */
  lemma EncodedInjective(a: seq<byte>, b: seq<byte>)
    requires |a| == |b| && Encoded(a) == Encoded(b)
    ensures a == b
  {
    DecodeEncode(a);
    DecodeEncode(b);
  }

  /** `is_valid` holds of every encoding but the empty one, and of every nonempty string that decodes. */
  lemma ValidWhenCoded(bytes: seq<byte>, s: string, n: nat)
    ensures IsValid(Encoded(bytes)) <==> bytes != []
    ensures Decoded(s, n).Some? ==> (IsValid(s) <==> n != 0)
  {
    hide Encoded, AllLetters, Bytes;
    EncodedValue(bytes);
  }

  lemma InAlphabet(c: char)
    ensures Position(c).Some? <==> c in ALPHABET
  {
    hide PositionFrom;
  }

  /** The alphabet: the digits and the lower-case letters but `e`, `o`, `t` and `u`. With `AlphabetSorted`, nothing about
      it is left open. */
  lemma AlphabetExactly(c: char)
    ensures Position(c).Some? <==> ('0' <= c <= '9' || 'a' <= c <= 'z') && c != 'e' && c != 'o' && c != 't' && c != 'u'
  {
    InAlphabet(c);
    hide Position;
    LettersExactly(c);
  }

  lemma LettersExactly(c: char)
    ensures c in ALPHABET <==> ('0' <= c <= '9' || 'a' <= c <= 'z') && c != 'e' && c != 'o' && c != 't' && c != 'u'
  {
    AlphabetParts(c);
    DigitsExactly(c);
    LowLettersExactly(c);
    HighLettersExactly(c);
  }

  lemma AlphabetParts(c: char)
    ensures c in ALPHABET <==> c in "0123456789" || c in "abcdfghij" || c in "klmnpqrsvwxyz"
  {
    assert ALPHABET == "0123456789" + "abcdfghij" + "klmnpqrsvwxyz";
  }

  lemma DigitsExactly(c: char)
    ensures c in "0123456789" <==> '0' <= c <= '9'
  {
  }

  lemma LowLettersExactly(c: char)
    ensures c in "abcdfghij" <==> 'a' <= c <= 'j' && c != 'e'
  {
  }

  lemma HighLettersExactly(c: char)
    ensures c in "klmnpqrsvwxyz" <==> 'k' <= c <= 'z' && c != 'o' && c != 't' && c != 'u'
  {
  }

  /** The most significant digit comes first. */
  lemma OneByteText(b: byte)
    ensures Encoded([b]) == [ALPHABET[b / 32], ALPHABET[b % 32]]
  {
    Pow2Small();
    var ds: seq<nat> := [b % 32, b / 32];
    assert Value(8, [b]) == b by { assert [b][1..] == []; }
    assert Expand(5, b, 2) == ds by {
      assert Expand(5, b / 32, 1) == [b / 32] by { assert Expand(5, 0, 0) == []; }
    }
    hide Numerals.Expand, Numerals.Value;
    assert Print(ds)[0] == ALPHABET[ds[1]] && Print(ds)[1] == ALPHABET[ds[0]];
  }
}
