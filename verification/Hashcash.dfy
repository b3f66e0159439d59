/**
 The proof of work of a login (login5/hashcash.go): counting trailing zero bits of a
 hash, and counting a suffix up in place.
 */
module Hashcash {
  import opened Positional

  /** `d` divides `n`, with the quotient as witness. */
  ghost predicate Divides(d: nat, n: nat) {
    exists q: nat :: IsProduct(n, d, q)
  }

  predicate IsProduct(n: nat, d: nat, q: nat) { n == d * q }

  /** Trailing zero bits of a number of `w` bits. */
  function Zeros(b: nat, w: nat): (z: nat)
    ensures z <= w
  {
    if w == 0 || b % 2 != 0 then 0 else 1 + Zeros(b / 2, w - 1)
  }

  /** bits.TrailingZeros8 */
  function TrailingZeros8(b: byte): nat { Zeros(b, 8) }

  method CheckHashcash(hash: seq<byte>, length: int) returns (ok: bool)
    ensures ok <==> hash != [] && (length <= 0 || (length <= 8 * |hash| && Divides(Pow(2, length), Value(256, hash))))
  {
    ghost var goal := Solved(hash, length);
    SolvedMeansDivides(hash, length);
    var idx, left := |hash| - 1, length;
    assert hash[..|hash|] == hash;
    while idx >= 0
      invariant -1 <= idx < |hash|
      invariant Solved(hash[..idx + 1], left) == goal
    {
      var zeros := TrailingZeros8(hash[idx]);
      assert hash[..idx + 1][..idx] == hash[..idx];
      if zeros >= left {
        return true;
      } else if zeros < 8 {
        return false;
      }
      left := left - 8;
      idx := idx - 1;
    }
    return false;
  }

  /** The same test as a recursion from the last byte. */
  predicate Solved(hash: seq<byte>, length: int) {
    if hash == [] then false
    else
      var k := |hash| - 1;
      var zeros := TrailingZeros8(hash[k]);
      zeros >= length || (zeros == 8 && Solved(hash[..k], length - 8))
  }

  // ----- what the test means

  lemma MakeDivides(d: nat, n: nat, q: nat)
    requires n == d * q
    ensures Divides(d, n)
  {
    assert IsProduct(n, d, q);
  }

  /** Eight bits at a time: a multiple of 256 is divisible by 2^(k+8) exactly when its 256th part is by 2^k. */
  lemma DividesShift(k: nat, v: nat)
    ensures Divides(Pow(2, k + 8), v * 256) <==> Divides(Pow(2, k), v)
  {
    assert Pow(2, 8) == 256;
    PowAdd(2, k, 8);
    var p := Pow(2, k);
    if Divides(p, v) {
      var q: nat :| IsProduct(v, p, q);
      assert v * 256 == (p * 256) * q;
      MakeDivides(Pow(2, k + 8), v * 256, q);
    }
    if Divides(Pow(2, k + 8), v * 256) {
      var q: nat :| IsProduct(v * 256, Pow(2, k + 8), q);
      assert v * 256 == (p * q) * 256;
      MakeDivides(p, v, q);
    }
  }

  lemma DividesDouble(d: nat, n: nat)
    ensures Divides(2 * d, 2 * n) <==> Divides(d, n)
  {
    if Divides(d, n) {
      var q: nat :| IsProduct(n, d, q);
      MakeDivides(2 * d, 2 * n, q);
    }
    if Divides(2 * d, 2 * n) {
      var q: nat :| IsProduct(2 * n, 2 * d, q);
      MakeDivides(d, n, q);
    }
  }

  lemma OddHasNoFactor(d: nat, n: nat)
    requires n % 2 == 1
    ensures !Divides(2 * d, n)
  {
    if Divides(2 * d, n) {
      var q: nat :| IsProduct(n, 2 * d, q);
      MulAssoc(2, d, q);
      assert false;
    }
  }

  /** Within the low `w` bits: 2^k divides the number exactly when those bits end in k zeros. */
  lemma {:induction false} DividesLow(k: nat, v: nat, b: nat, w: nat)
    requires k <= w && b < Pow(2, w)
    ensures Divides(Pow(2, k), v * Pow(2, w) + b) <==> Zeros(b, w) >= k
  {
    var n := v * Pow(2, w) + b;
    if k == 0 {
      MakeDivides(1, n, n);
    } else {
      var n' := v * Pow(2, w - 1) + b / 2;
      assert n == 2 * n' + b % 2;
      if b % 2 == 1 {
        OddHasNoFactor(Pow(2, k - 1), n);
      } else {
        DividesDouble(Pow(2, k - 1), n');
        DividesLow(k - 1, v, b / 2, w - 1);
      }
    }
  }

  lemma {:induction false} AllZeros(b: nat, w: nat)
    requires b < Pow(2, w)
    ensures Zeros(b, w) == w <==> b == 0
  {
    if w > 0 {
      AllZeros(b / 2, w - 1);
    }
  }

  lemma DividesLess(j: nat, k: nat, n: nat)
    requires j <= k && Divides(Pow(2, k), n)
    ensures Divides(Pow(2, j), n)
  {
    PowAdd(2, j, k - j);
    var q: nat :| IsProduct(n, Pow(2, k), q);
    assert n == Pow(2, j) * (Pow(2, k - j) * q) by { MulAssoc(Pow(2, j), Pow(2, k - j), q); }
    MakeDivides(Pow(2, j), n, Pow(2, k - j) * q);
  }

  lemma {:induction false} SolvedMeansDivides(hash: seq<byte>, length: int)
    ensures Solved(hash, length) <==>
            hash != [] && (length <= 0 || (length <= 8 * |hash| && Divides(Pow(2, length), Value(256, hash))))
  {
    if hash != [] && length > 0 {
      var k := |hash| - 1;
      var v, b := Value(256, hash[..k]), hash[k];
      assert Pow(2, 8) == 256;
      AllZeros(b, 8);
      if length <= 8 {
        DividesLow(length, v, b, 8);
      } else {
        SolvedMeansDivides(hash[..k], length - 8);
        DividesLow(8, v, b, 8);
        if b == 0 {
          DividesShift(length - 8, v);
        } else if Divides(Pow(2, length), Value(256, hash)) {
          DividesLess(8, length, Value(256, hash));
        }
      }
    }
  }

  // ----- counting up

  /** Add one, big-endian, to the bytes up to `idx`, wrapping to zeros; the bytes after stay. */
  method IncrementHashcash(data: array<byte>, idx: nat)
    requires idx < data.Length
    modifies data
    ensures data[..idx + 1] == Increment(old(data[..idx + 1]))
    ensures data[idx + 1..] == old(data[idx + 1..])
    decreases idx
  {
    ghost var before := data[..];
    assert old(data[..idx + 1]) == before[..idx] + [before[idx]];
    data[idx] := if data[idx] == 255 then 0 else data[idx] + 1;
    if data[idx] == 0 && idx > 0 {
      assert data[..idx] == before[..idx];
      IncrementHashcash(data, idx - 1);
      assert data[idx..][0] == 0;
      assert data[..idx + 1] == data[..idx] + [data[idx]];
      assert data[idx + 1..] == data[idx..][1..];
    } else {
      assert data[..idx + 1] == before[..idx] + [data[idx]];
    }
  }
}
