/**
 * The gamma and contrast lookup tables (VCamUtils/src/videoframe.cpp):
 * 511 levels of 256 entries each, and the index arithmetic that reads
 * them. The entries themselves come from `pow` and `double` arithmetic,
 * which is taken as a parameter of the builders.
 */
module Tables {
  import opened Numeric

  /** Levels -255 .. 255 of 256 entries each. */
  const TableSize: nat := 511 * 256

  /** The two tables shared by every frame. */
  datatype LookupTables = LookupTables(gamma: seq<uint8>, contrast: seq<uint8>)

  predicate ValidTables(t: LookupTables)
  {
    |t.gamma| == TableSize && |t.contrast| == TableSize
  }

  function Pow2(n: nat): (p: nat)
    ensures p >= 1
  {
    if n == 0 then 1 else 2 * Pow2(n - 1)
  }

  /** Bitwise `|` on unsigned values (`size_t`). */
  function BitOr(a: nat, b: nat): (r: nat)
    decreases a + b
  {
    if a == 0 then b
    else if b == 0 then a
    else 2 * BitOr(a / 2, b / 2) + (if a % 2 == 1 || b % 2 == 1 then 1 else 0)
  }

  /** Or-ing a value below `2^n` into a multiple of `2^n` is addition. */
  lemma {:induction false} BitOrLowBits(k: nat, v: nat, n: nat)
    requires v < Pow2(n)
    ensures BitOr(k * Pow2(n), v) == k * Pow2(n) + v
  {
    if n == 0 {
      assert v == 0;
    } else if k == 0 || v == 0 {
    } else {
      var a := k * Pow2(n);
      assert a == 2 * (k * Pow2(n - 1));
      assert a / 2 == k * Pow2(n - 1) && a % 2 == 0;
      BitOrLowBits(k, v / 2, n - 1);
      assert BitOr(a, v) == 2 * BitOr(a / 2, v / 2) + v % 2;
    }
  }

  /** `size_t(level + 255) << 8` for a level already clamped to [-255, 255]. */
  function LevelOffset(level: int): (offset: nat)
    requires -255 <= level <= 255
    ensures offset % 256 == 0 && offset <= 510 * 256
  {
    (level + 255) * Pow2(8)
  }

  /**
   * The lookup `table[offset | v]` of the adjust operations, with the
   * level clamped by `bound(-255, level, 255)` first.
   */
  function TableIndex(level: int, v: uint8): (i: nat)
    ensures i == (Bound(-255, level, 255) + 255) * 256 + v
    ensures i < TableSize
  {
    var clamped := Bound(-255, level, 255);
    assert Pow2(8) == 256;
    BitOrLowBits(clamped + 255, v, 8);
    BitOr(LevelOffset(clamped), v)
  }

  /**
   * `initGammaTable`: level -255 first (`ig(-255, i)` there stands for the
   * curve with exponent 255), then levels -254 .. 255; `ig(level, i)` is the
   * truncated `255 * pow(i / 255, k)` of that level, converted to `uint8_t`.
   */
  method InitGammaTable(ig: (int, int) -> int) returns (table: seq<uint8>)
    ensures |table| == TableSize
    ensures forall level, i :: -255 <= level <= 255 && 0 <= i < 256 ==> table[(level + 255) * 256 + i] == Wrap8(ig(level, i))
  {
    table := [];
    for i := 0 to 256
      invariant |table| == i
      invariant forall j :: 0 <= j < i ==> table[j] == Wrap8(ig(-255, j))
    {
      table := table + [Wrap8(ig(-255, i))];
    }
    for gamma := -254 to 256
      invariant |table| == (gamma + 255) * 256
      invariant forall level, i :: -255 <= level < gamma && 0 <= i < 256 ==> table[(level + 255) * 256 + i] == Wrap8(ig(level, i))
    {
      for i := 0 to 256
        invariant |table| == (gamma + 255) * 256 + i
        invariant forall level, j :: -255 <= level < gamma && 0 <= j < 256 ==> table[(level + 255) * 256 + j] == Wrap8(ig(level, j))
        invariant forall j :: 0 <= j < i ==> table[(gamma + 255) * 256 + j] == Wrap8(ig(gamma, j))
      {
        table := table + [Wrap8(ig(gamma, i))];
      }
    }
  }

  /**
   * `initContrastTable`: for each level, `ic(level, i)` is the truncated
   * `f * (i - 128) + 128` of that level's factor `f`; the stored entry is
   * clamped to [0, 255].
   */
  method InitContrastTable(ic: (int, int) -> int) returns (table: seq<uint8>)
    ensures |table| == TableSize
    ensures forall level, i :: -255 <= level <= 255 && 0 <= i < 256 ==> table[(level + 255) * 256 + i] == Bound(0, ic(level, i), 255)
  {
    table := [];
    for contrast := -255 to 256
      invariant |table| == (contrast + 255) * 256
      invariant forall level, i :: -255 <= level < contrast && 0 <= i < 256 ==> table[(level + 255) * 256 + i] == Bound(0, ic(level, i), 255)
    {
      for i := 0 to 256
        invariant |table| == (contrast + 255) * 256 + i
        invariant forall level, j :: -255 <= level < contrast && 0 <= j < 256 ==> table[(level + 255) * 256 + j] == Bound(0, ic(level, j), 255)
        invariant forall j :: 0 <= j < i ==> table[(contrast + 255) * 256 + j] == Bound(0, ic(contrast, j), 255)
      {
        table := table + [Wrap8(Bound(0, ic(contrast, i), 255))];
      }
    }
  }
}
