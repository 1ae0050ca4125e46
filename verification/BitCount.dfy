/**
 Counting bits: of a natural number, of a bit vector and of bytes in memory.
 */
module BitCount {
  /** The number of one bits of `n`. */
  function Pop(n: nat): nat {
    if n == 0 then 0 else n % 2 + Pop(n / 2)
  }

  type bits = seq<bool>

  function Count(v: bits): nat {
    if v == [] then 0 else (if v[0] then 1 else 0) + Count(v[1..])
  }

  /** The number whose binary digits are `v`, least significant first. */
  function ValueOf(v: bits): nat {
    if v == [] then 0 else (if v[0] then 1 else 0) + 2 * ValueOf(v[1..])
  }

  /** The `width` low binary digits of `n`. */
  function BitsOf(n: nat, width: nat): (v: bits)
    ensures |v| == width
  {
    if width == 0 then [] else [n % 2 == 1] + BitsOf(n / 2, width - 1)
  }

  function Pow2(k: nat): (r: nat)
    ensures r >= 1
  {
    if k == 0 then 1 else 2 * Pow2(k - 1)
  }

  lemma {:induction false} CountIsPop(v: bits)
    ensures Pop(ValueOf(v)) == Count(v)
  {
    if v != [] {
      var n := ValueOf(v[1..]);
      CountIsPop(v[1..]);
      PopStep(n, if v[0] then 1 else 0);
    }
  }

  lemma PopStep(n: nat, b: nat)
    requires b < 2
    ensures Pop(2 * n + b) == b + Pop(n)
  {
    assert (2 * n + b) % 2 == b && (2 * n + b) / 2 == n;
  }

  lemma {:induction false} CountConcat(a: bits, b: bits)
    ensures Count(a + b) == Count(a) + Count(b)
  {
    if a == [] {
      assert a + b == b;
    } else {
      assert (a + b)[1..] == a[1..] + b;
      CountConcat(a[1..], b);
    }
  }

  lemma {:induction false} NoneCounted(v: bits)
    requires forall i | 0 <= i < |v| :: !v[i]
    ensures Count(v) == 0
  {
    if v != [] {
      NoneCounted(v[1..]);
    }
  }

  lemma {:induction false} ValueConcat(a: bits, b: bits)
    ensures ValueOf(a + b) == ValueOf(a) + Pow2(|a|) * ValueOf(b)
  {
    if a == [] {
      assert a + b == b;
    } else {
      assert (a + b)[1..] == a[1..] + b;
      ValueConcat(a[1..], b);
      Doubled(Pow2(|a| - 1), ValueOf(b));
    }
  }

  lemma Doubled(p: nat, y: nat)
    ensures (2 * p) * y == 2 * (p * y)
  {
  }

  lemma {:induction false} ValueBound(v: bits)
    ensures ValueOf(v) < Pow2(|v|)
  {
    if v != [] {
      ValueBound(v[1..]);
    }
  }

  lemma {:induction false} BitsOfValue(n: nat, width: nat)
    requires n < Pow2(width)
    ensures ValueOf(BitsOf(n, width)) == n
  {
    if width > 0 {
      BitsOfValue(n / 2, width - 1);
      assert BitsOf(n, width)[1..] == BitsOf(n / 2, width - 1);
    }
  }

  lemma {:induction false} PopIsCount(n: nat, width: nat)
    requires n < Pow2(width)
    ensures Count(BitsOf(n, width)) == Pop(n)
  {
    BitsOfValue(n, width);
    CountIsPop(BitsOf(n, width));
  }

  /** Numbers put next to each other keep their bit counts. */
  lemma {:induction false} PopSplit(lo: nat, hi: nat, k: nat)
    requires lo < Pow2(k)
    ensures Pop(lo + Pow2(k) * hi) == Pop(lo) + Pop(hi)
  {
    if k == 0 {
      assert Pow2(k) * hi == hi;
    } else {
      PopSplit(lo / 2, hi, k - 1);
      var p := Pow2(k - 1);
      Doubled(p, hi);
      PopStep(lo / 2 + p * hi, lo % 2);
      PopStep(lo / 2, lo % 2);
      assert lo + Pow2(k) * hi == 2 * (lo / 2 + p * hi) + lo % 2;
    }
  }
}
