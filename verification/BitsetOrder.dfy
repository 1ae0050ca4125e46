/**
 The order of bitsets: by the number they spell, then by size. Blocks are compared from
 the most significant one down.
 */
module BitsetOrder {
  import opened BitCount
  import opened BitBlock
  import opened BitsetBlocks
  import opened BitsetEdit

  predicate Less(a: bits, b: bits) {
    ValueOf(a) < ValueOf(b) || (ValueOf(a) == ValueOf(b) && |a| < |b|)
  }

  /** A strict total order: exactly one of smaller, equal and larger holds, and it is transitive. */
  lemma StrictOrder(a: bits, b: bits, c: bits)
    ensures Less(a, b) <==> !(a == b || Less(b, a))
    ensures a == b <==> !Less(a, b) && !Less(b, a)
    ensures Less(a, b) && Less(b, c) ==> Less(a, c)
  {
    if ValueOf(a) == ValueOf(b) && |a| == |b| {
      ValueBits(a);
      ValueBits(b);
    }
    hide ValueOf;
  }

  // ----- numbers spelled by blocks -----

  lemma {:induction false} ValueOfZeros(n: nat)
    ensures ValueOf(Zeros(n)) == 0
  {
    if n > 0 {
      assert Zeros(n)[1..] == Zeros(n - 1);
      ValueOfZeros(n - 1);
    }
  }

  lemma ValuePadded(v: bits, n: nat)
    ensures ValueOf(v + Zeros(n)) == ValueOf(v)
  {
    ValueConcat(v, Zeros(n));
    ValueOfZeros(n);
  }

  function Number(blocks: seq<nat>, B: nat): nat {
    ValueOf(Concat(blocks, B))
  }

  lemma NumberSplit(a: seq<nat>, b: seq<nat>, B: nat)
    ensures Number(a + b, B) == Number(a, B) + Pow2(|a| * B) * Number(b, B)
  {
    ConcatAppend(a, b, B);
    ValueConcat(Concat(a, B), Concat(b, B));
  }

  lemma NumberBound(a: seq<nat>, B: nat)
    ensures Number(a, B) < Pow2(|a| * B)
  {
    ValueBound(Concat(a, B));
  }

  lemma NumberOne(w: nat, B: nat)
    requires w < Pow2(B)
    ensures Number([w], B) == w
  {
    ConcatOne(w, B);
    BitsOfValue(w, B);
  }

  lemma HighWins(p: nat, x: nat, x': nat, y: nat, y': nat)
    requires x < p && y < y'
    ensures x + p * y < x' + p * y'
  {
    AtLeast(y + 1, y', p);
    Distribute(y, 1, p);
  }

  /** The highest block in which two vectors differ decides. */
  lemma HighestDecides(a: seq<nat>, b: seq<nat>, i: nat, B: nat)
    requires |a| == |b| && Fit(a, B) && Fit(b, B) && i < |a|
    requires a[i + 1..] == b[i + 1..] && a[i] < b[i]
    ensures Number(a, B) < Number(b, B)
  {
    hide Number, Pow2;
    NumberFrom(a, i, B);
    NumberFrom(b, i, B);
    var h := Pow2(1 * B) * Number(a[i + 1..], B);
    NumberBound(a[..i], B);
    HighWins(Pow2(i * B), Number(a[..i], B), Number(b[..i], B), a[i] + h, b[i] + h);
  }

  lemma NumberFrom(a: seq<nat>, i: nat, B: nat)
    requires Fit(a, B) && i < |a|
    ensures Number(a, B) == Number(a[..i], B) + Pow2(i * B) * (a[i] + Pow2(1 * B) * Number(a[i + 1..], B))
  {
    hide Number, Pow2;
    assert a == a[..i] + a[i..];
    NumberSplit(a[..i], a[i..], B);
    assert a[i..] == [a[i]] + a[i + 1..];
    NumberSplit([a[i]], a[i + 1..], B);
    NumberOne(a[i], B);
  }

  lemma NumberWithZeros(a: seq<nat>, n: nat, B: nat)
    ensures Number(a + seq(n, _ => 0), B) == Number(a, B)
  {
    ConcatAppend(a, seq(n, _ => 0), B);
    ConcatZeros(n, B);
    ValuePadded(Concat(a, B), n * B);
  }

  /** A block above the end of the shorter vector that is not zero decides. */
  lemma LongerDecides(a: seq<nat>, b: seq<nat>, i: nat, B: nat)
    requires Fit(a, B) && Fit(b, B) && |a| <= i < |b| && b[i] != 0
    requires forall k | i < k < |b| :: b[k] == 0
    ensures Number(a, B) < Number(b, B)
  {
    hide Number;
    NumberWithZeros(a, |b| - |a|, B);
    var padded := a + seq(|b| - |a|, _ => 0);
    assert padded[i + 1..] == b[i + 1..];
    HighestDecides(padded, b, i, B);
  }

  lemma LongerSame(a: seq<nat>, b: seq<nat>, B: nat)
    requires |a| <= |b| && forall k | |a| <= k < |b| :: b[k] == 0
    ensures Number(b[..|a|], B) == Number(b, B)
  {
    hide Number;
    NumberWithZeros(b[..|a|], |b| - |a|, B);
    assert b == b[..|a|] + seq(|b| - |a|, _ => 0);
  }

  lemma NumberOfBits(blocks: seq<nat>, B: nat, v: bits)
    requires Represents(blocks, B, v)
    ensures Number(blocks, B) == ValueOf(v)
  {
    ValuePadded(v, |blocks| * B - |v|);
  }

  // ----- the comparison -----

  datatype Verdict = Same | Decided(less: bool)

  /** Compares the first `m` blocks from the top down. */
  method CompareDown(l: seq<nat>, r: seq<nat>, m: nat, B: nat) returns (d: Verdict)
    requires m <= |l| && m <= |r| && Fit(l, B) && Fit(r, B)
    ensures d.Same? ==> l[..m] == r[..m]
    ensures d.Decided? ==> Number(l[..m], B) != Number(r[..m], B)
    ensures d.Decided? ==> (d.less <==> Number(l[..m], B) < Number(r[..m], B))
  {
    hide Number, Pow2;
    var i := m;
    while i > 0
      invariant 0 <= i <= m
      invariant forall k | i <= k < m :: l[k] == r[k]
    {
      i := i - 1;
      if l[i] != r[i] {
        assert l[..m][i + 1..] == r[..m][i + 1..];
        if l[i] < r[i] {
          HighestDecides(l[..m], r[..m], i, B);
        } else {
          HighestDecides(r[..m], l[..m], i, B);
        }
        return Decided(l[i] < r[i]);
      }
    }
    d := Same;
  }

  /** Whether a block from `from` on is not zero, looked for from the top down. */
  method AnyAbove(longest: seq<nat>, from: nat) returns (found: bool, ghost at: nat)
    requires from <= |longest|
    ensures found ==> from <= at < |longest| && longest[at] != 0
    ensures found ==> forall k | at < k < |longest| :: longest[k] == 0
    ensures !found ==> forall k | from <= k < |longest| :: longest[k] == 0
  {
    var i := |longest|;
    at := 0;
    while i > from
      invariant from <= i <= |longest|
      invariant forall k | i <= k < |longest| :: longest[k] == 0
    {
      i := i - 1;
      if longest[i] != 0 {
        return true, i;
      }
    }
    found := false;
  }

  /** `operator<`. */
  method LessThan(l: seq<nat>, ln: nat, r: seq<nat>, rn: nat, B: nat, ghost lhs: bits, ghost rhs: bits)
    returns (less: bool)
    requires ln == |lhs| && rn == |rhs|
    requires Represents(l, B, lhs) && Represents(r, B, rhs)
    ensures less <==> Less(lhs, rhs)
  {
    hide *;
    StoredParts(l, lhs, r, rhs, B);
    if ln == rn {
      if ln == 0 {
        return false;
      }
      assert l[..|l|] == l && r[..|r|] == r;
      var d := CompareDown(l, r, |l|, B);
      return d.Decided? && d.less;
    }
    if ln == 0 {
      return true;
    }
    if rn == 0 {
      return false;
    }
    less := LessSizes(l, r, ln, rn, B);
  }

  lemma StoredParts(l: seq<nat>, lhs: bits, r: seq<nat>, rhs: bits, B: nat)
    requires Represents(l, B, lhs) && Represents(r, B, rhs)
    ensures Fit(l, B) && Fit(r, B)
    ensures |lhs| <= |rhs| ==> |l| <= |r|
    ensures |rhs| <= |lhs| ==> |r| <= |l|
    ensures Less(lhs, rhs) <==>
            Number(l, B) < Number(r, B) || (Number(l, B) == Number(r, B) && |lhs| < |rhs|)
    ensures lhs == [] ==> Number(l, B) == 0
    ensures rhs == [] ==> Number(r, B) == 0
  {
    hide Number, Concat, Pow2, BlocksRequired;
    NumberOfBits(l, B, lhs);
    NumberOfBits(r, B, rhs);
    if |lhs| <= |rhs| {
      FewerBlocks(|lhs|, |rhs|, B);
    }
    if |rhs| <= |lhs| {
      FewerBlocks(|rhs|, |lhs|, B);
    }
  }

  /** The part of `operator<` for two sizes that differ. */
  method LessSizes(l: seq<nat>, r: seq<nat>, ln: nat, rn: nat, B: nat) returns (less: bool)
    requires Fit(l, B) && Fit(r, B) && ln != rn
    requires ln < rn ==> |l| <= |r|
    requires rn < ln ==> |r| <= |l|
    ensures less <==> Number(l, B) < Number(r, B) || (Number(l, B) == Number(r, B) && ln < rn)
  {
    hide Number, Pow2;
    var rhsLonger := rn > ln;
    var longest := if rhsLonger then r else l;
    var shortest := if |l| <= |r| then |l| else |r|;
    var found, at := AnyAbove(longest, shortest);
    if found {
      if rhsLonger {
        LongerDecides(l, r, at, B);
      } else {
        LongerDecides(r, l, at, B);
      }
      return rhsLonger;
    }
    if rhsLonger {
      LongerSame(l, r, B);
    } else {
      LongerSame(r, l, B);
    }
    assert l[..|l|] == l && r[..|r|] == r;
    var d := CompareDown(l, r, shortest, B);
    if d.Decided? {
      return d.less;
    }
    less := ln < rn;
  }
}
