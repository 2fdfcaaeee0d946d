/** Strings of binary digits and the unsigned values they denote, most significant digit first. */
module Binary {

  /** A byte, as JavaScript hands out the elements of a Buffer. */
  type Byte = b: int | 0 <= b < 256

  predicate IsBit(ch: char) {
    ch == '0' || ch == '1'
  }

  predicate IsBinary(s: string) {
    forall k :: 0 <= k < |s| ==> IsBit(s[k])
  }

  function BitValue(ch: char): nat {
    if ch == '1' then 1 else 0
  }

  function Pow2(n: nat): (r: nat)
    ensures r >= 1
  {
    if n == 0 then 1 else 2 * Pow2(n - 1)
  }

  /** The big-endian value of a digit string; it fits in as many bits as it has digits. */
  function BinValue(s: string): (v: nat)
    ensures v < Pow2(|s|)
  {
    if |s| == 0 then 0 else 2 * BinValue(s[..|s| - 1]) + BitValue(s[|s| - 1])
  }

  lemma Pow2Values()
    ensures Pow2(8) == 256 && Pow2(11) == 2048
  {
    assert Pow2(4) == 16;
    assert Pow2(8) == 16 * Pow2(4);
  }

  lemma {:induction false} Pow2Monotonic(m: nat, n: nat)
    requires m <= n
    ensures Pow2(m) <= Pow2(n)
  {
    if m < n {
      Pow2Monotonic(m, n - 1);
    }
  }

  /** Appending digits shifts the value of the front part left by their number. */
  lemma {:induction false} BinValueAppend(s: string, t: string)
    ensures BinValue(s + t) == BinValue(s) * Pow2(|t|) + BinValue(t)
  {
    if |t| > 0 {
      var t' := t[..|t| - 1];
      assert (s + t)[..|s + t| - 1] == s + t';
      assert (s + t)[|s + t| - 1] == t[|t| - 1];
      BinValueAppend(s, t');
      var a, p, b, d := BinValue(s), Pow2(|t'|), BinValue(t'), BitValue(t[|t| - 1]);
      assert BinValue(s + t) == 2 * BinValue(s + t') + d;
      assert BinValue(t) == 2 * b + d;
      assert Pow2(|t|) == 2 * p;
      MulDistributes(a, p, b, d);
    } else {
      assert s + t == s;
    }
  }

  lemma MulDistributes(a: int, p: int, b: int, d: int)
    ensures 2 * (a * p + b) + d == a * (2 * p) + (2 * b + d)
  {
  }

  lemma BinaryAppend(s: string, t: string)
    requires IsBinary(s) && IsBinary(t)
    ensures IsBinary(s + t)
  {
    assert forall k :: 0 <= k < |s + t| ==> (s + t)[k] == if k < |s| then s[k] else t[k - |s|];
  }

  /** Leading zero digits do not change the value. */
  lemma {:induction false} BinValueOfZeros(z: string)
    requires forall k :: 0 <= k < |z| ==> z[k] == '0'
    ensures BinValue(z) == 0
  {
    if |z| > 0 {
      BinValueOfZeros(z[..|z| - 1]);
    }
  }

  /** Dropping the last digits of a string takes its value down by their place value. */
  lemma ShiftedOut(s: string, t: string)
    ensures BinValue(s + t) / Pow2(|t|) == BinValue(s)
  {
    BinValueAppend(s, t);
    DivOfShifted(BinValue(s), Pow2(|t|), BinValue(t));
  }

  /** The value of the first `n` digits is the whole value with the remaining digits shifted out. */
  lemma PrefixValue(s: string, n: nat)
    requires n <= |s|
    ensures BinValue(s[..n]) == BinValue(s) / Pow2(|s| - n)
  {
    assert s == s[..n] + s[n..];
    ShiftedOut(s[..n], s[n..]);
  }

  lemma DivOfShifted(a: nat, p: nat, b: nat)
    requires b < p
    ensures (a * p + b) / p == a
  {
    var q, m := (a * p + b) / p, (a * p + b) % p;
    assert a * p + b == q * p + m;
    if q < a {
      MulDistributesOver(q, a - q, p);
      MulAtLeast(a - q, p);
      assert false;
    } else if q > a {
      MulDistributesOver(a, q - a, p);
      MulAtLeast(q - a, p);
      assert false;
    }
  }

  lemma MulDistributesOver(x: nat, y: nat, p: nat)
    ensures (x + y) * p == x * p + y * p
  {
  }

  lemma {:induction false} MulAtLeast(k: nat, p: nat)
    requires k >= 1
    ensures k * p >= p
  {
    if k > 1 {
      MulAtLeast(k - 1, p);
      MulDistributesOver(k - 1, 1, p);
    }
  }
}
