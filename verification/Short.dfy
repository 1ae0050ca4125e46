/**
 The 16-bit signed integer type of Windows.
 */
module Short {
  const SHORT_MAX := 0x7FFF
  const SHORT_MIN := -0x8000

  predicate IsShort(v: int) {
    SHORT_MIN <= v <= SHORT_MAX
  }

  /** Conversion to the type keeps the low sixteen bits. */
  function ToShort(v: int): (s: int)
    ensures IsShort(s)
    ensures IsShort(v) ==> s == v
    ensures exists k :: s == v + k * 0x1_0000
  {
    assert (v + 0x8000) == (v + 0x8000) / 0x1_0000 * 0x1_0000 + (v + 0x8000) % 0x1_0000;
    assert (v + 0x8000) % 0x1_0000 - 0x8000 == v + (-((v + 0x8000) / 0x1_0000)) * 0x1_0000;
    (v + 0x8000) % 0x1_0000 - 0x8000
  }

  /** A sum of two that is too large comes out negative. */
  lemma TooLarge(v: int)
    requires SHORT_MAX < v <= 2 * SHORT_MAX
    ensures ToShort(v) == v - 0x1_0000 < 0
  {
  }
}
