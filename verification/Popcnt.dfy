/**
 `popcnt` for x86: counts the one bits of a byte array through whichever of the
 AVX-512, AVX2, POPCNT and pure integer paths the processor flags select.
 */
module Popcnt {
  import opened Bytes
  import opened BitCount
  import opened Swar
  import opened Simd
  import opened HarleySeal

  datatype Flags = Flags(avx512: bool, avx2: bool, popcnt: bool)

  /** The specification: bit counts summed byte by byte. */
  function TotalBits(data: bytes): nat {
    if data == [] then 0 else Pop(data[0]) + TotalBits(data[1..])
  }

  /** A little-endian load. */
  function LittleEndian(data: bytes): (w: nat)
    ensures |data| <= 8 ==> w < WORD
  {
    LittleEndianBound(data);
    LittleEndianValue(data)
  }

  function LittleEndianValue(data: bytes): nat {
    if data == [] then 0 else data[0] + 256 * LittleEndianValue(data[1..])
  }

  lemma {:induction false} LittleEndianBound(data: bytes)
    ensures |data| <= 8 ==> LittleEndianValue(data) < WORD
  {
    if |data| <= 8 {
      BelowPower(data);
      ByteMask();
      PowerMonotone(|data|, 8);
    }
  }

  lemma {:induction false} BelowPower(data: bytes)
    ensures LittleEndianValue(data) < Power(256, |data|)
  {
    if data != [] {
      BelowPower(data[1..]);
    }
  }

  lemma {:induction false} PowerMonotone(m: nat, n: nat)
    requires m <= n
    ensures Power(256, m) <= Power(256, n)
  {
    if m < n {
      PowerMonotone(m, n - 1);
    }
  }

  lemma {:induction false} LittleEndianBits(data: bytes)
    ensures Pop(LittleEndianValue(data)) == TotalBits(data)
  {
    if data != [] {
      LittleEndianBits(data[1..]);
      Powers();
      PopSplit(data[0], LittleEndianValue(data[1..]), 8);
    }
  }

  /** The bits of a stretch of memory. */
  function Load(data: bytes): (v: bits)
    ensures |v| == 8 * |data|
  {
    if data == [] then [] else BitsOf(data[0], 8) + Load(data[1..])
  }

  lemma {:induction false} LoadCounts(data: bytes)
    ensures Count(Load(data)) == TotalBits(data)
  {
    if data != [] {
      LoadCounts(data[1..]);
      Powers();
      PopIsCount(data[0], 8);
      hide Count, BitsOf, Pop;
      CountConcat(BitsOf(data[0], 8), Load(data[1..]));
    }
  }

  lemma {:induction false} TotalConcat(a: bytes, b: bytes)
    ensures TotalBits(a + b) == TotalBits(a) + TotalBits(b)
  {
    if a == [] {
      assert a + b == b;
    } else {
      assert (a + b)[1..] == a[1..] + b;
      TotalConcat(a[1..], b);
    }
  }

  /** Counting the next stretch of memory. */
  lemma NextStretch(data: bytes, i: nat, n: nat)
    requires i + n <= |data|
    ensures TotalBits(data[..i + n]) == TotalBits(data[..i]) + TotalBits(data[i..i + n])
  {
    assert data[..i + n] == data[..i] + data[i..i + n];
    TotalConcat(data[..i], data[i..i + n]);
  }

  // ----- vectors -----

  function VectorBytes(kind: Kind): (w: nat)
    ensures w in {32, 64} && Width(kind) == 8 * w
  {
    match kind
    case Avx2 => 32
    case Avx512 => 64
  }

  /** The whole vectors at the front of `data`. */
  function LoadVectors(kind: Kind, data: bytes): (ptr: seq<bits>)
    ensures Vectors(kind, ptr)
  {
    var w := VectorBytes(kind);
    if |data| < w then [] else [Load(data[..w])] + LoadVectors(kind, data[w..])
  }

  lemma {:induction false} SeenCons(v: bits, rest: seq<bits>, k: nat)
    requires k <= |rest|
    ensures Seen([v] + rest, k + 1) == Count(v) + Seen(rest, k)
  {
    hide Count;
    if k > 0 {
      SeenCons(v, rest, k - 1);
    }
  }

  /** The part of `n` bytes that whole vectors cover. */
  function Covered(kind: Kind, n: nat): (r: nat)
    ensures r <= n < r + VectorBytes(kind)
  {
    n - n % VectorBytes(kind)
  }

  lemma {:induction false} VectorsSeen(kind: Kind, data: bytes)
    ensures Seen(LoadVectors(kind, data), |LoadVectors(kind, data)|) == TotalBits(data[..Covered(kind, |data|)])
  {
    var w := VectorBytes(kind);
    if |data| < w {
      assert data[..Covered(kind, |data|)] == [];
    } else {
      hide Count, Load, TotalBits, LoadVectors, Seen;
      var rest := LoadVectors(kind, data[w..]);
      VectorsSeen(kind, data[w..]);
      SeenCons(Load(data[..w]), rest, |rest|);
      LoadCounts(data[..w]);
      CoveredStep(kind, data);
      VectorsStep(kind, data);
      TotalConcat(data[..w], data[w..][..Covered(kind, |data[w..]|)]);
    }
  }

  lemma VectorsStep(kind: Kind, data: bytes)
    requires |data| >= VectorBytes(kind)
    ensures var w := VectorBytes(kind);
            LoadVectors(kind, data) == [Load(data[..w])] + LoadVectors(kind, data[w..])
  {
  }

  lemma CoveredStep(kind: Kind, data: bytes)
    requires |data| >= VectorBytes(kind)
    ensures var w := VectorBytes(kind);
            data[..Covered(kind, |data|)] == data[..w] + data[w..][..Covered(kind, |data[w..]|)]
  {
    CoveredFrom(kind, |data|, VectorBytes(kind));
  }

  /** A vector path of `popcnt`, from byte `i` to the last whole vector. */
  method VectorPath(kind: Kind, data: bytes, i: nat, cnt: nat) returns (i': nat, cnt': nat)
    requires i <= |data| && i % VectorBytes(kind) == 0
    requires cnt == TotalBits(data[..i]) % WORD
    ensures i' == Covered(kind, |data|) && i <= i' <= |data| && i' % 32 == 0
    ensures cnt' == TotalBits(data[..i']) % WORD
  {
    hide TotalBits, Seen, LoadVectors;
    var part := data[i..];
    var ptr := LoadVectors(kind, part);
    var counted := PopcntVectors(kind, ptr);
    VectorsSeen(kind, part);
    cnt' := (cnt + counted) % WORD;
    i' := |data| - |data| % VectorBytes(kind);
    CoveredFrom(kind, |data|, i);
    NextStretch(data, i, i' - i);
    assert part[..i' - i] == data[i..i'];
    AddBoth(TotalBits(data[..i]), TotalBits(data[i..i']));
  }

  lemma CoveredFrom(kind: Kind, size: nat, i: nat)
    requires i <= size && i % VectorBytes(kind) == 0
    ensures Covered(kind, size) == i + Covered(kind, size - i)
    ensures Covered(kind, size) % 32 == 0
  {
    if kind == Avx2 {
      Multiple32(i / 32, (size - i) / 32, (size - i) % 32);
    } else {
      Multiple64(i / 64, (size - i) / 64, (size - i) % 64);
    }
  }

  lemma Multiple32(q: nat, d: nat, m: nat)
    requires m < 32
    ensures (32 * q + 32 * d + m) % 32 == m && (32 * q + 32 * d) % 32 == 0
  {
  }

  lemma Multiple64(q: nat, d: nat, m: nat)
    requires m < 64
    ensures (64 * q + 64 * d + m) % 64 == m && (64 * q + 64 * d) % 32 == 0
  {
  }

  lemma AddBoth(a: nat, b: nat)
    ensures (a % WORD + b % WORD) % WORD == (a + b) % WORD
  {
    AddMod(a % WORD, b);
    AddMod(b, a);
  }

  // ----- words and bytes -----

  /** A word of memory, through the POPCNT instruction or the in-register count. */
  method CountWord(data: bytes, hardware: bool) returns (n: nat)
    requires |data| <= 8
    ensures n == TotalBits(data)
  {
    hide Pop, TotalBits, Popcount64, LittleEndian;
    var w := LittleEndian(data);
    WordBits(data);
    if hardware {
      n := Pop(w);
    } else {
      Popcount64IsPop(w);
      n := Popcount64(w);
    }
  }

  lemma WordBits(data: bytes)
    ensures Pop(LittleEndian(data)) == TotalBits(data)
  {
    LittleEndianBits(data);
  }

  /** The loop over whole words. */
  method WordLoop(data: bytes, start: nat, cnt0: nat, hardware: bool) returns (i: nat, cnt: nat)
    requires start <= |data| && start % 8 == 0 && cnt0 == TotalBits(data[..start]) % WORD
    ensures i == |data| - |data| % 8 && cnt == TotalBits(data[..i]) % WORD
  {
    hide TotalBits;
    i, cnt := start, cnt0;
    while i < |data| - |data| % 8
      invariant i <= |data| - |data| % 8 && i % 8 == 0
      invariant cnt == TotalBits(data[..i]) % WORD
    {
      var n := CountWord(data[i..i + 8], hardware);
      NextStretch(data, i, 8);
      AddMod(n, TotalBits(data[..i]));
      cnt := (cnt + n) % WORD;
      i := i + 8;
    }
  }

  /** The loop over the bytes that are left. */
  method ByteLoop(data: bytes, start: nat, cnt0: nat) returns (cnt: nat)
    requires start <= |data| && cnt0 == TotalBits(data[..start]) % WORD
    ensures cnt == TotalBits(data) % WORD
  {
    hide TotalBits;
    var i := start;
    cnt := cnt0;
    while i < |data|
      invariant i <= |data|
      invariant cnt == TotalBits(data[..i]) % WORD
    {
      var n := CountWord(data[i..i + 1], true);
      NextStretch(data, i, 1);
      AddMod(n, TotalBits(data[..i]));
      cnt := (cnt + n) % WORD;
      i := i + 1;
    }
    assert data[..i] == data;
  }

  /** The vector paths that the flags and the size select. */
  method VectorPaths(data: bytes, flags: Flags) returns (i: nat, cnt: nat)
    ensures i <= |data| && i % 8 == 0 && cnt == TotalBits(data[..i]) % WORD
  {
    hide TotalBits, Covered;
    i, cnt := 0, 0;
    assert TotalBits(data[..0]) == 0 by { NoBytes(data[..0]); }
    if flags.avx512 && i + 1024 <= |data| {
      i, cnt := VectorPath(Avx512, data, i, cnt);
    }
    assert i % 32 == 0;
    if flags.avx2 && i + 512 <= |data| {
      i, cnt := VectorPath(Avx2, data, i, cnt);
    }
  }

  /** `popcnt`: whatever the flags, the bits of all bytes, in a 64-bit counter. */
  method Popcnt(data: bytes, flags: Flags) returns (cnt: nat)
    ensures cnt == TotalBits(data) % WORD
    ensures |data| < 0x2000_0000_0000_0000 ==> cnt == TotalBits(data)
  {
    TotalBitsBound(data);
    hide TotalBits;
    var size := |data|;
    var i;
    i, cnt := VectorPaths(data, flags);
    i, cnt := WordLoop(data, i, cnt, flags.popcnt);
    if flags.popcnt {
      cnt := ByteLoop(data, i, cnt);
    } else if i < size {
      var n := CountWord(data[i..size], false);
      NextStretch(data, i, size - i);
      assert data[..size] == data;
      AddMod(n, TotalBits(data[..i]));
      cnt := (cnt + n) % WORD;
    } else {
      assert data[..i] == data;
    }
  }

  lemma NoBytes(data: bytes)
    requires data == []
    ensures TotalBits(data) == 0
  {
  }

  lemma {:induction false} TotalBitsBound(data: bytes)
    ensures TotalBits(data) <= 8 * |data|
  {
    if data != [] {
      TotalBitsBound(data[1..]);
      Powers();
      PopIsCount(data[0], 8);
      CountBound(BitsOf(data[0], 8));
    }
  }

  lemma {:induction false} CountBound(v: bits)
    ensures Count(v) <= |v|
  {
    if v != [] {
      CountBound(v[1..]);
    }
  }
}
