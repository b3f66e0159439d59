/**
 Positional numerals: the meaning of a digit sequence in a base, most significant
 digit first.  Base 256 is the big-endian integer of `encoding/binary` and of
 `big.Int.SetBytes`/`Bytes`/`FillBytes`; base 62 is the text form of an id.
 */
module Positional {

  type byte = x: int | 0 <= x < 256

  function Pow(b: nat, e: nat): (p: nat)
    ensures b > 0 ==> p > 0
  {
    if e == 0 then 1 else b * Pow(b, e - 1)
  }

  ghost predicate Digits(b: nat, s: seq<nat>) {
    forall i :: 0 <= i < |s| ==> s[i] < b
  }

  /** The integer a digit sequence stands for. */
  function Value(b: nat, s: seq<nat>): nat {
    if s == [] then 0 else Value(b, s[..|s| - 1]) * b + s[|s| - 1]
  }

  /** Exactly `width` digits: `n` modulo `b` to the power `width`, zero padded. */
  function Fixed(b: nat, n: nat, width: nat): (s: seq<nat>)
    requires b >= 2
    ensures |s| == width
    ensures Digits(b, s)
  {
    if width == 0 then [] else Fixed(b, n / b, width - 1) + [n % b]
  }

  /** As few digits as possible: no leading zero, nothing at all for zero. */
  function Minimal(b: nat, n: nat): (s: seq<nat>)
    requires b >= 2
    ensures Digits(b, s)
    ensures n == 0 <==> s == []
    ensures s != [] ==> s[0] != 0
    decreases n
  {
    if n == 0 then [] else
      DivShrinks(n, b);
      Minimal(b, n / b) + [n % b]
  }

  lemma DivShrinks(n: nat, b: nat)
    requires n > 0 && b >= 2
    ensures n / b < n
  {
  }

  lemma {:induction false} PowAdd(b: nat, m: nat, n: nat)
    ensures Pow(b, m + n) == Pow(b, m) * Pow(b, n)
  {
    if m > 0 {
      PowAdd(b, m - 1, n);
      MulAssoc(b, Pow(b, m - 1), Pow(b, n));
    }
  }

  lemma MulAssoc(a: int, b: int, c: int)
    ensures a * (b * c) == (a * b) * c
  {
  }

  lemma {:induction false} ValueBound(b: nat, s: seq<nat>)
    requires b > 0 && Digits(b, s)
    ensures Value(b, s) < Pow(b, |s|)
  {
    if s != [] {
      var q := s[..|s| - 1];
      ValueBound(b, q);
      assert (Value(b, q) + 1) * b <= Pow(b, |q|) * b by { MulMono(Value(b, q) + 1, Pow(b, |q|), b); }
      assert (Value(b, q) + 1) * b == Value(b, q) * b + b;
    }
  }

  lemma MulMono(x: int, y: int, b: nat)
    requires x <= y
    ensures x * b <= y * b
  {
  }

  /** Division by the base splits off the last digit, and only one split does. */
  lemma DivModUnique(q: int, r: int, b: nat)
    requires 0 <= r < b && 0 <= q
    ensures (q * b + r) / b == q && (q * b + r) % b == r
  {
    var n := q * b + r;
    assert n == (n / b) * b + n % b;
    if n / b < q {
      MulMono(n / b + 1, q, b);
      assert false;
    } else if n / b > q {
      MulMono(q + 1, n / b, b);
      assert false;
    }
  }

  lemma ValueSnoc(b: nat, s: seq<nat>, d: nat)
    ensures Value(b, s + [d]) == Value(b, s) * b + d
  {
    assert (s + [d])[..|s|] == s;
  }

  lemma DivModSplit(n: nat, b: nat)
    requires b > 0
    ensures n == (n / b) * b + n % b
  {
  }

  lemma {:induction false} ValueConcat(b: nat, s: seq<nat>, t: seq<nat>)
    ensures Value(b, s + t) == Value(b, s) * Pow(b, |t|) + Value(b, t)
  {
    if t == [] {
      assert s + t == s;
    } else {
      var k := |t| - 1;
      assert (s + t)[..|s + t| - 1] == s + t[..k];
      ValueConcat(b, s, t[..k]);
      ConcatStep(b, Value(b, s), Pow(b, k), Value(b, t[..k]), t[k]);
    }
  }

  lemma ConcatStep(b: nat, v: nat, p: nat, w: nat, d: nat)
    ensures (v * p + w) * b + d == v * (b * p) + (w * b + d)
  {
    assert (v * p) * b == v * (b * p) by { MulAssoc(v, p, b); }
  }

  lemma QuotientBound(n: nat, b: nat, p: nat)
    requires b > 0 && n < b * p
    ensures n / b < p
  {
    if n / b >= p {
      MulMono(p, n / b, b);
      assert false;
    }
  }

  /** Printing at the sequence's own width gives the sequence back. */
  lemma {:induction false} FixedValue(b: nat, s: seq<nat>)
    requires b >= 2 && Digits(b, s)
    ensures Fixed(b, Value(b, s), |s|) == s
  {
    if s != [] {
      var q := s[..|s| - 1];
      FixedValue(b, q);
      DivModUnique(Value(b, q), s[|s| - 1], b);
      assert s == q + [s[|s| - 1]];
    }
  }

  /** Two digit sequences of one width with one value are the same sequence. */
  lemma SameWidthSameValue(b: nat, s: seq<nat>, t: seq<nat>)
    requires b >= 2 && Digits(b, s) && Digits(b, t)
    requires |s| == |t| && Value(b, s) == Value(b, t)
    ensures s == t
  {
    FixedValue(b, s);
    FixedValue(b, t);
  }

  lemma ValueFixed(b: nat, n: nat, width: nat)
    requires b >= 2
    requires n < Pow(b, width)
    ensures Value(b, Fixed(b, n, width)) == n
  {
    var s := Numeral(b, n, width);
    FixedValue(b, s);
  }

  /** Every number below a power of the base has a numeral of that width. */
  lemma {:induction false} Numeral(b: nat, n: nat, width: nat) returns (s: seq<nat>)
    requires b >= 2 && n < Pow(b, width)
    ensures Digits(b, s) && |s| == width && Value(b, s) == n
  {
    if width == 0 {
      s := [];
    } else {
      QuotientBound(n, b, Pow(b, width - 1));
      s := Numeral(b, n / b, width - 1);
      ValueSnoc(b, s, n % b);
      DivModSplit(n, b);
      s := s + [n % b];
    }
  }

  /** Leading zeros change nothing. */
  lemma {:induction false} ValueLeadingZeros(b: nat, k: nat, s: seq<nat>)
    ensures Value(b, seq(k, _ => 0) + s) == Value(b, s)
  {
    ValueConcat(b, seq(k, _ => 0), s);
    ValueZeros(b, k);
  }

  lemma {:induction false} ValueZeros(b: nat, k: nat)
    ensures Value(b, seq(k, _ => 0)) == 0
  {
    if k > 0 {
      assert seq(k, _ => 0)[..k - 1] == seq(k - 1, _ => 0);
      ValueZeros(b, k - 1);
    }
  }

  /** A numeral without a leading zero is the minimal one of its value. */
  lemma {:induction false} MinimalValue(b: nat, s: seq<nat>)
    requires b >= 2 && Digits(b, s)
    requires s != [] ==> s[0] != 0
    ensures Minimal(b, Value(b, s)) == s
  {
    if s != [] {
      var q := s[..|s| - 1];
      MinimalValue(b, q);
      ValueNonZero(b, s);
      DivModUnique(Value(b, q), s[|s| - 1], b);
      assert s == q + [s[|s| - 1]];
    }
  }

  lemma {:induction false} ValueNonZero(b: nat, s: seq<nat>)
    requires b >= 2 && s != [] && s[0] != 0
    ensures Value(b, s) > 0
  {
    if |s| > 1 {
      ValueNonZero(b, s[..|s| - 1]);
    }
  }

  /** Dropping the zeros that pad a numeral keeps its value. */
  lemma {:induction false} Stripped(b: nat, s: seq<nat>) returns (t: seq<nat>)
    requires b >= 2 && Digits(b, s)
    ensures Digits(b, t) && |t| <= |s| && (t != [] ==> t[0] != 0)
    ensures Value(b, t) == Value(b, s)
    ensures s == seq(|s| - |t|, _ => 0) + t
  {
    if s == [] || s[0] != 0 {
      t := s;
    } else {
      ValueConcat(b, [0], s[1..]);
      assert [0] + s[1..] == s;
      t := Stripped(b, s[1..]);
    }
  }

  /** Below a power of the base, the fixed form is the minimal one, zero padded. */
  lemma FixedIsPaddedMinimal(b: nat, n: nat, width: nat)
    requires b >= 2 && n < Pow(b, width)
    ensures |Minimal(b, n)| <= width
    ensures Fixed(b, n, width) == seq(width - |Minimal(b, n)|, _ => 0) + Minimal(b, n)
  {
    ValueFixed(b, n, width);
    var t := Stripped(b, Fixed(b, n, width));
    MinimalValue(b, t);
  }

  lemma {:induction false} ExceededByPower(b: nat, n: nat)
    requires b >= 2
    ensures n < Pow(b, n)
  {
    if n > 0 {
      ExceededByPower(b, n - 1);
      MulMono(2, b, Pow(b, n - 1));
    }
  }

  lemma ValueMinimal(b: nat, n: nat)
    requires b >= 2
    ensures Value(b, Minimal(b, n)) == n
  {
    ExceededByPower(b, n);
    FixedIsPaddedMinimal(b, n, n);
    ValueFixed(b, n, n);
    ValueLeadingZeros(b, n - |Minimal(b, n)|, Minimal(b, n));
  }

  // ----- sixteen-bit lengths

  /** binary.BigEndian.PutUint16 */
  function Put16(n: nat): (s: seq<byte>)
    requires n < 0x1_0000
    ensures |s| == 2
  {
    [n / 256, n % 256]
  }

  /** binary.BigEndian.Uint16 */
  function Get16(s: seq<byte>): (n: nat)
    requires |s| == 2
    ensures n < 0x1_0000
  {
    var high: int := s[0];
    high * 256 + s[1]
  }

  lemma Get16Put16(n: nat)
    requires n < 0x1_0000
    ensures Get16(Put16(n)) == n
  {
  }

  // ----- counting up in place

  /** Add one with byte carry from the right, wrapping to all zeros at the top. */
  function Increment(s: seq<byte>): (r: seq<byte>)
    ensures |r| == |s|
  {
    if s == [] then []
    else
      var k := |s| - 1;
      if s[k] < 255 then s[..k] + [s[k] + 1] else Increment(s[..k]) + [0]
  }

  lemma {:induction false} IncrementValue(s: seq<byte>)
    ensures Value(256, Increment(s)) ==
            if Value(256, s) + 1 == Pow(256, |s|) then 0 else Value(256, s) + 1
  {
    if s != [] {
      var k := |s| - 1;
      var r := Increment(s);
      ValueBound(256, s);
      ValueBound(256, s[..k]);
      if s[k] < 255 {
        assert r[..k] == s[..k];
      } else {
        IncrementValue(s[..k]);
        assert r[..k] == Increment(s[..k]);
      }
    }
  }

  /** `n` increments in a row. */
  function Advance(s: seq<byte>, n: nat): (r: seq<byte>)
    ensures |r| == |s|
  {
    if n == 0 then s else Increment(Advance(s, n - 1))
  }

  lemma {:induction false} AdvanceValue(s: seq<byte>, n: nat)
    requires Value(256, s) + n < Pow(256, |s|)
    ensures Value(256, Advance(s, n)) == Value(256, s) + n
  {
    if n > 0 {
      AdvanceValue(s, n - 1);
      IncrementValue(Advance(s, n - 1));
    }
  }

  /** Counting up wraps around at the width of the number. */
  lemma {:induction false} AdvanceWraps(s: seq<byte>, n: nat)
    ensures Value(256, Advance(s, n)) == (Value(256, s) + n) % Pow(256, |s|)
  {
    var v, m := Value(256, s), Pow(256, |s|);
    ValueBound(256, s);
    if n == 0 {
      DivModUnique(0, v, m);
    } else {
      AdvanceWraps(s, n - 1);
      IncrementValue(Advance(s, n - 1));
      NextResidue(v + n - 1, m);
    }
  }

  lemma NextResidue(x: nat, m: nat)
    requires m > 0
    ensures (x + 1) % m == if x % m + 1 == m then 0 else x % m + 1
  {
    var q, r := x / m, x % m;
    DivModSplit(x, m);
    if r + 1 == m {
      assert x + 1 == (q + 1) * m;
      DivModUnique(q + 1, 0, m);
    } else {
      DivModUnique(q, r + 1, m);
    }
  }

  /** Dividing by a product is dividing twice. */
  lemma DivDiv(n: nat, a: nat, b: nat)
    requires a > 0 && b > 0
    ensures a * b > 0 && n / (a * b) == (n / a) / b
  {
    var q, r := (n / a) / b, (n / a) % b;
    DivModSplit(n, a);
    DivModSplit(n / a, b);
    assert n == (q * b + r) * a + n % a == q * (a * b) + (r * a + n % a) by { MulAssoc(q, b, a); }
    MulMono(r + 1, b, a);
    DivModUnique(q, r * a + n % a, a * b);
  }

  lemma {:induction false} AdvanceAdd(s: seq<byte>, m: nat, n: nat)
    ensures Advance(Advance(s, m), n) == Advance(s, m + n)
  {
    if n > 0 {
      AdvanceAdd(s, m, n - 1);
    }
  }
}
