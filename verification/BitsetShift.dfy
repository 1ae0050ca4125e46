/**
 The bits of a bitset after a shift, computed block by block, and after the bits of the
 last block that are not used have been cleared.
 */
module BitsetShift {
  import opened BitCount
  import opened BitBlock
  import opened BitsetBlocks

  function ShiftedUp(blocks: seq<nat>, s: nat, B: nat): (r: seq<nat>)
    requires B > 0 && s / B <= |blocks|
    ensures |r| == |blocks|
  {
    var q := s / B;
    var kept := blocks[..|blocks| - q];
    seq(q, _ => 0) + (if s % B == 0 then kept else SpillUp(kept, 0, s % B, B))
  }

  lemma KeptUp(kept: seq<nat>, r: nat, B: nat)
    requires r < B && Fit(kept, B)
    ensures var x := if r == 0 then kept else SpillUp(kept, 0, r, B);
            Fit(x, B) && Concat(x, B) == (Zeros(r) + Concat(kept, B))[..|kept| * B]
  {
    if r > 0 {
      SpillUpBits(kept, 0, r, B);
      ZeroBits(B);
      assert BitsOf(0, B)[B - r..] == Zeros(r);
    } else {
      assert Zeros(0) + Concat(kept, B) == Concat(kept, B);
    }
  }

  lemma ShiftedUpBits(blocks: seq<nat>, s: nat, B: nat)
    requires B > 0 && s / B <= |blocks| && Fit(blocks, B)
    ensures Fit(ShiftedUp(blocks, s, B), B)
    ensures Concat(ShiftedUp(blocks, s, B), B) == (Zeros(s) + Concat(blocks, B))[..|blocks| * B]
  {
    Quotient(s, B);
    ShiftedUpParts(blocks, s / B, s % B, B);
  }

  lemma ShiftedUpParts(blocks: seq<nat>, q: nat, r: nat, B: nat)
    requires r < B && q <= |blocks| && Fit(blocks, B)
    ensures var kept := blocks[..|blocks| - q];
            var up := seq(q, _ => 0) + (if r == 0 then kept else SpillUp(kept, 0, r, B));
            Fit(up, B) && Concat(up, B) == (Zeros(q * B + r) + Concat(blocks, B))[..|blocks| * B]
  {
    hide Concat, SpillUp, BitsOf, Pow2, Repeat;
    var m := |blocks|;
    Distribute(m - q, q, B);
    var kept := blocks[..m - q];
    KeptUp(kept, r, B);
    var x := if r == 0 then kept else SpillUp(kept, 0, r, B);
    ConcatZeros(q, B);
    ConcatAppend(seq(q, _ => 0), x, B);
    assert blocks == kept + blocks[m - q..];
    ConcatAppend(kept, blocks[m - q..], B);
    UpJoin(q * B, r, Concat(kept, B), Concat(blocks[m - q..], B));
  }

  lemma UpJoin(low: nat, r: nat, kept: bits, lost: bits)
    requires |lost| == low
    ensures Zeros(low) + (Zeros(r) + kept)[..|kept|] == (Zeros(low + r) + (kept + lost))[..|kept| + low]
  {
  }

  function ShiftedDown(blocks: seq<nat>, s: nat, B: nat): (r: seq<nat>)
    requires B > 0 && s / B <= |blocks|
    ensures |r| == |blocks|
  {
    var q := s / B;
    var kept := blocks[q..];
    (if s % B == 0 then kept else SpillDown(kept, 0, s % B, B)) + seq(q, _ => 0)
  }

  lemma KeptDown(kept: seq<nat>, r: nat, B: nat)
    requires r < B && Fit(kept, B) && kept != []
    ensures var x := if r == 0 then kept else SpillDown(kept, 0, r, B);
            && Fit(x, B)
            && r <= |Concat(kept, B)|
            && Concat(x, B) == Concat(kept, B)[r..] + Zeros(r)
  {
    AtLeast(1, |kept|, B);
    if r > 0 {
      SpillDownBits(kept, 0, r, B);
      ZeroBits(B);
      assert BitsOf(0, B)[..r] == Zeros(r);
      DownDrop(BitsOf(kept[0], B)[..r], Concat(SpillDown(kept, 0, r, B), B), Concat(kept, B), r);
    } else {
      assert Concat(kept, B)[0..] + Zeros(0) == Concat(kept, B);
    }
  }

  lemma DownDrop(lo: bits, x: bits, kept: bits, r: nat)
    requires |lo| == r <= |kept| && lo + x == kept + Zeros(r)
    ensures x == kept[r..] + Zeros(r)
  {
    assert x == (lo + x)[r..];
  }

  lemma ShiftedDownBits(blocks: seq<nat>, s: nat, B: nat)
    requires B > 0 && s / B < |blocks| && Fit(blocks, B)
    ensures Fit(ShiftedDown(blocks, s, B), B)
    ensures s <= |blocks| * B
    ensures Concat(ShiftedDown(blocks, s, B), B) == Concat(blocks, B)[s..] + Zeros(s)
  {
    hide Concat, SpillDown, BitsOf, Pow2, Repeat;
    var q, r, m := s / B, s % B, |blocks|;
    Quotient(s, B);
    Distribute(m - q, q, B);
    var kept := blocks[q..];
    KeptDown(kept, r, B);
    var x := if r == 0 then kept else SpillDown(kept, 0, r, B);
    ConcatZeros(q, B);
    ConcatAppend(x, seq(q, _ => 0), B);
    assert blocks == blocks[..q] + kept;
    ConcatAppend(blocks[..q], kept, B);
    DownJoin(Concat(blocks[..q], B), Concat(kept, B), r);
  }

  lemma DownJoin(lost: bits, kept: bits, r: nat)
    requires r <= |kept|
    ensures (kept[r..] + Zeros(r)) + Zeros(|lost|) == (lost + kept)[|lost| + r..] + Zeros(|lost| + r)
  {
  }

  // ----- clearing the bits that are not used -----

  function Sanitized(blocks: seq<nat>, n: nat, B: nat): (r: seq<nat>)
    requires B > 0 && |blocks| == BlocksRequired(n, B)
    ensures |r| == |blocks|
  {
    if n % B > 0 then
      var last := |blocks| - 1;
      blocks[last := AndWord(blocks[last], Not(Shl(AllOnes(B), n % B, B), B), B)]
    else
      blocks
  }

  lemma ClearedBlock(w: nat, r: nat, B: nat)
    requires r <= B
    ensures var c := AndWord(w, Not(Shl(AllOnes(B), r, B), B), B);
            c < Pow2(B) && BitsOf(c, B) == BitsOf(w, B)[..r] + Zeros(B - r)
  {
    AllOnesBits(B);
    var up := Shl(AllOnes(B), r, B);
    ShlBits(AllOnes(B), r, B);
    NotBits(up, B);
    AndBits(w, Not(up, B), B);
  }

  lemma {:induction false} SanitizedRepresents(blocks: seq<nat>, n: nat, B: nat)
    requires B > 0 && Fit(blocks, B) && |blocks| == BlocksRequired(n, B)
    ensures n <= |blocks| * B
    ensures Represents(Sanitized(blocks, n, B), B, Concat(blocks, B)[..n])
  {
    hide Concat, BitsOf, Pow2, Repeat, AndWord, Not, Shl, AllOnes;
    Enough(n, B);
    var m, r := |blocks|, n % B;
    if r > 0 {
      var w := blocks[m - 1];
      ClearedBlock(w, r, B);
      var clean := Sanitized(blocks, n, B);
      assert blocks == blocks[..m - 1] + [w];
      ConcatLast(blocks[..m - 1], w, B);
      assert clean == blocks[..m - 1] + [clean[m - 1]];
      ConcatLast(blocks[..m - 1], clean[m - 1], B);
      SanitizedJoin(Concat(blocks[..m - 1], B), BitsOf(w, B), r);
      Distribute(m - 1, 1, B);
    } else {
      assert Concat(blocks, B) == Concat(blocks, B)[..n] + Zeros(0);
    }
  }

  lemma SanitizedJoin(front: bits, w: bits, r: nat)
    requires r <= |w|
    ensures front + (w[..r] + Zeros(|w| - r)) == (front + w)[..|front| + r] + Zeros(|w| - r)
  {
  }

  // ----- the shifts -----

  lemma LeftShift(blocks: seq<nat>, v: bits, s: nat, B: nat)
    requires Represents(blocks, B, v) && 0 < s < |v|
    ensures s / B < |blocks|
    ensures Represents(Sanitized(ShiftedUp(blocks, s, B), |v|, B), B, (Zeros(s) + v)[..|v|])
  {
    hide Concat, ShiftedUp, Sanitized;
    ShiftInRange(s, |v|, B);
    ShiftedUpBits(blocks, s, B);
    SanitizedRepresents(ShiftedUp(blocks, s, B), |v|, B);
    TakeJoin(Zeros(s), v, Zeros(|blocks| * B - |v|), |blocks| * B);
  }

  lemma TakeJoin(z: bits, v: bits, pad: bits, m: nat)
    requires |v| + |pad| == m
    ensures (z + (v + pad))[..m][..|v|] == (z + v)[..|v|]
  {
  }

  lemma ShiftInRange(s: nat, n: nat, B: nat)
    requires B > 0 && s < n
    ensures s / B < BlocksRequired(n, B)
  {
    Quotient(s, B);
    Enough(n, B);
    if s / B >= BlocksRequired(n, B) {
      AtLeast(BlocksRequired(n, B), s / B, B);
    }
  }

  lemma RightShift(blocks: seq<nat>, v: bits, s: nat, B: nat)
    requires Represents(blocks, B, v) && 0 < s < |v|
    ensures s / B < |blocks|
    ensures Represents(ShiftedDown(blocks, s, B), B, v[s..] + Zeros(s))
  {
    hide Concat, ShiftedDown;
    ShiftInRange(s, |v|, B);
    ShiftedDownBits(blocks, s, B);
    DropJoin(v, Zeros(|blocks| * B - |v|), s);
  }

  lemma DropJoin(v: bits, pad: bits, s: nat)
    requires s <= |v| && forall i | 0 <= i < |pad| :: !pad[i]
    ensures (v + pad)[s..] + Zeros(s) == (v[s..] + Zeros(s)) + pad
  {
  }
}
