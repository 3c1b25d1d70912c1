/**
 * `format_size`: a byte count is divided by 1024 until it drops below 1024
 * or the five named units run out, and is then shown with that unit, or
 * with `PB` after five divisions.
 *
 * The value is a real number.  Python divides floats, and dividing by a
 * power of two is exact for every size below 2^53; above that the unit is
 * `PB` either way.  The `%.1f` rendering is not part of this model.
 */
module SizeFormat {

  const Units: seq<string> := ["B", "KB", "MB", "GB", "TB"]
  const LastUnit: string := "PB"

  datatype SizeText = SizeText(value: real, unit: string)

  /** The name of the unit reached after `k` divisions. */
  function UnitName(k: nat): string {
    if k < |Units| then Units[k] else LastUnit
  }

  function Pow1024(k: nat): (p: nat)
    ensures p >= 1
  {
    if k == 0 then 1 else 1024 * Pow1024(k - 1)
  }

  /** The `for unit in [...]` loop from iteration `i` on, with `size` already divided `i` times. */
  function Scale(size: real, i: nat): (r: (real, nat))
    requires i <= |Units|
    decreases |Units| - i
  {
    if i == |Units| then (size, i)
    else if size < 1024.0 then (size, i)
    else Scale(size / 1024.0, i + 1)
  }

  function FormatSize(size: nat): SizeText {
    var (v, k) := Scale(size as real, 0);
    SizeText(v, UnitName(k))
  }

  lemma {:induction false} PowMonotone(i: nat, k: nat)
    requires i <= k
    ensures Pow1024(i) <= Pow1024(k)
  {
    if i < k {
      PowMonotone(i, k - 1);
    }
  }

  lemma DivBelow(a: real, p: real)
    requires p > 0.0
    ensures a / p < 1024.0 <==> a < 1024.0 * p
  {
    assert a / p * p == a;
  }

  lemma DivTwice(a: real, p: real)
    requires p > 0.0
    ensures a / p / 1024.0 == a / (p * 1024.0)
  {
  }

  /** From iteration `i` on, the loop stops exactly at the band `k` that `size` lies in. */
  lemma {:induction false} ScaleBand(size: nat, i: nat, k: nat)
    requires i <= k <= |Units|
    requires i > 0 ==> size >= Pow1024(i)
    requires k < |Units| ==> size < Pow1024(k + 1)
    requires k > 0 ==> size >= Pow1024(k)
    ensures Scale(size as real / Pow1024(i) as real, i) == (size as real / Pow1024(k) as real, k)
    decreases |Units| - i
  {
    var p := Pow1024(i) as real;
    if i == k {
      if k < |Units| {
        DivBelow(size as real, p);
      }
    } else {
      PowMonotone(i + 1, k);
      DivBelow(size as real, p);
      DivTwice(size as real, p);
      assert p * 1024.0 == Pow1024(i + 1) as real;
      ScaleBand(size, i + 1, k);
    }
  }

  /**
   * The unit is the first one whose next power of 1024 exceeds the size
   * (`PB` past `TB`), and the value is the size divided by that unit's
   * power of 1024.
   */
  lemma FormatSizeBand(size: nat, k: nat)
    requires k <= |Units|
    requires k < |Units| ==> size < Pow1024(k + 1)
    requires k > 0 ==> size >= Pow1024(k)
    ensures FormatSize(size) == SizeText(size as real / Pow1024(k) as real, UnitName(k))
  {
    assert Pow1024(0) == 1;
    ScaleBand(size, 0, k);
    assert size as real / 1.0 == size as real;
  }

  /** Sizes at and around the first two boundaries. */
  lemma FormatSizeExamples()
    ensures FormatSize(0) == SizeText(0.0, "B")
    ensures FormatSize(1023) == SizeText(1023.0, "B")
    ensures FormatSize(1024) == SizeText(1.0, "KB")
    ensures FormatSize(1536) == SizeText(1.5, "KB")
    ensures FormatSize(1048576) == SizeText(1.0, "MB")
  {
    FormatSizeBand(0, 0);
    FormatSizeBand(1023, 0);
    FormatSizeBand(1024, 1);
    FormatSizeBand(1536, 1);
    FormatSizeBand(1048576, 2);
  }
}
