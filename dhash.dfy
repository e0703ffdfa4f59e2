/**
 * The difference hash of `_generate_hash`. The grid is the grayscale image
 * already downscaled to hash_size rows of hash_size + 1 samples (what
 * cv2.cvtColor and cv2.resize produce); the hash compares each sample with
 * its right neighbour, flattens the flags row by row and adds 2^i for every
 * flag i that is set.
 */
module DHash {

  type Grid = seq<seq<int>>

  /** One row of `resized[:, 1:] > resized[:, :-1]`. */
  function RowFlags(row: seq<int>): (r: seq<bool>)
    ensures |r| == if |row| == 0 then 0 else |row| - 1
    ensures forall c :: 0 <= c < |r| ==> (r[c] <==> row[c] < row[c + 1])
  {
    if |row| < 2 then [] else [row[0] < row[1]] + RowFlags(row[1..])
  }

  /** `diff.flatten()`: the flags of all rows, in row-major order. */
  function Flags(grid: Grid): seq<bool>
  {
    if grid == [] then [] else RowFlags(grid[0]) + Flags(grid[1..])
  }

  function Pow2(i: nat): (r: nat)
    ensures r >= 1
  {
    if i == 0 then 1 else 2 * Pow2(i - 1)
  }

  /** The sum of 2^i over the positions i of the set flags: the flags read as a binary number, lowest first. */
  function FlagSum(flags: seq<bool>): (r: nat)
    ensures r < Pow2(|flags|)
  {
    if flags == [] then 0
    else FlagSum(flags[..|flags| - 1]) + (if flags[|flags| - 1] then Pow2(|flags| - 1) else 0)
  }

  /** Bit i of x, that is (x >> i) & 1 == 1. */
  function Bit(x: nat, i: nat): bool
  {
    if i == 0 then x % 2 == 1 else Bit(x / 2, i - 1)
  }

  /**
   * The fingerprint `_generate_hash` returns for a downscaled grid: the
   * flags of the flattened diff read as a binary number.
   */
  function Hash(grid: Grid): nat
  {
    FlagSum(Flags(grid))
  }

  /** Bit i of the fingerprint is flag i of the flattened diff, and no bit beyond the flags is set. */
  lemma HashFlags(grid: Grid)
    ensures Hash(grid) < Pow2(|Flags(grid)|)
    ensures forall i: nat :: Bit(Hash(grid), i) <==> i < |Flags(grid)| && Flags(grid)[i]
  {
    FlagSumAllBits(Flags(grid));
  }

  /** FlagSumBits at every position at once. */
  lemma FlagSumAllBits(flags: seq<bool>)
    ensures forall i: nat :: Bit(FlagSum(flags), i) <==> i < |flags| && flags[i]
  {
    forall i: nat
      ensures Bit(FlagSum(flags), i) <==> i < |flags| && flags[i]
    {
      FlagSumBits(flags, i);
    }
  }

  /** A grid as cv2.resize(gray, (n + 1, n)) yields it: n rows of n + 1 samples. */
  predicate Shaped(grid: Grid, n: nat)
  {
    |grid| == n && forall r :: 0 <= r < n ==> |grid[r]| == n + 1
  }

  /** The sum read from the lowest flag upward: flag 0 is the low bit, the rest is twice the sum of the others. */
  lemma {:induction false} FlagSumCons(flags: seq<bool>)
    requires |flags| >= 1
    ensures FlagSum(flags) == (if flags[0] then 1 else 0) + 2 * FlagSum(flags[1..])
  {
    var n := |flags|;
    if n > 1 {
      var init := flags[..n - 1];
      FlagSumCons(init);
      assert init[1..] == flags[1..][..n - 2];
      assert init[0] == flags[0];
    } else {
      assert flags[1..] == [];
    }
  }

  /** Bit i of the sum is set exactly when flag i is set, and no bit beyond the flags is set. */
  lemma {:induction false} FlagSumBits(flags: seq<bool>, i: nat)
    ensures Bit(FlagSum(flags), i) <==> (i < |flags| && flags[i])
  {
    if flags == [] {
      BitOfZero(i);
    } else {
      FlagSumCons(flags);
      var x := FlagSum(flags);
      var b := if flags[0] then 1 else 0;
      assert x % 2 == b && x / 2 == FlagSum(flags[1..]);
      if i > 0 {
        FlagSumBits(flags[1..], i - 1);
      }
    }
  }

  lemma {:induction false} BitOfZero(i: nat)
    ensures !Bit(0, i)
  {
    if i > 0 {
      BitOfZero(i - 1);
    }
  }

  /** The sum is zero exactly when no flag is set. */
  lemma {:induction false} FlagSumZero(flags: seq<bool>)
    ensures FlagSum(flags) == 0 <==> forall i :: 0 <= i < |flags| ==> !flags[i]
  {
    if flags != [] {
      var init := flags[..|flags| - 1];
      FlagSumZero(init);
      assert forall i :: 0 <= i < |init| ==> init[i] == flags[i];
    }
  }

  lemma {:induction false} FlagsLength(grid: Grid, w: nat)
    requires forall r :: 0 <= r < |grid| ==> |grid[r]| == w + 1
    ensures |Flags(grid)| == |grid| * w
  {
    if grid != [] {
      FlagsLength(grid[1..], w);
      assert |grid| * w == w + (|grid| - 1) * w;
    }
  }

  lemma MulSucc(r: nat, w: nat)
    ensures (r + 1) * w == r * w + w
  {
  }

  /** Flag r * w + c of the flattened diff compares samples c and c + 1 of row r. */
  lemma {:induction false} FlagsAt(grid: Grid, w: nat, r: nat, c: nat)
    requires forall k :: 0 <= k < |grid| ==> |grid[k]| == w + 1
    requires r < |grid| && c < w
    ensures r * w + c < |Flags(grid)|
    ensures Flags(grid)[r * w + c] <==> grid[r][c] < grid[r][c + 1]
  {
    if r == 0 {
      FlagsShift(grid, w, c);
    } else {
      FlagsAt(grid[1..], w, r - 1, c);
      MulSucc(r - 1, w);
      FlagsShift(grid, w, (r - 1) * w + c);
    }
  }

  /** The flags of the first row come first, those of the other rows after them. */
  lemma FlagsShift(grid: Grid, w: nat, i: nat)
    requires |grid| > 0 && |grid[0]| == w + 1
    ensures i < w ==> i < |Flags(grid)| && (Flags(grid)[i] <==> grid[0][i] < grid[0][i + 1])
    ensures i < |Flags(grid[1..])| ==> w + i < |Flags(grid)| && Flags(grid)[w + i] == Flags(grid[1..])[i]
  {
    var row, rest := RowFlags(grid[0]), Flags(grid[1..]);
    assert Flags(grid) == row + rest && |row| == w;
  }

  /** Every flag of the flattened diff is some r * w + c. */
  lemma {:induction false} FlagsIndex(grid: Grid, w: nat, i: nat) returns (r: nat, c: nat)
    requires forall k :: 0 <= k < |grid| ==> |grid[k]| == w + 1
    requires i < |Flags(grid)|
    ensures r < |grid| && c < w && i == r * w + c
  {
    if i < w {
      r, c := 0, i;
    } else {
      var r', c' := FlagsIndex(grid[1..], w, i - w);
      r, c := r' + 1, c';
      MulSucc(r', w);
    }
  }

  /**
   * The bit semantics of the fingerprint: for an n-by-(n + 1) grid, bit
   * r * n + c is set iff sample c + 1 of row r is brighter than sample c,
   * and the fingerprint fits in n * n bits.
   */
  lemma HashBits(grid: Grid, n: nat, r: nat, c: nat)
    requires Shaped(grid, n) && r < n && c < n
    ensures Bit(Hash(grid), r * n + c) <==> grid[r][c] < grid[r][c + 1]
  {
    FlagsAt(grid, n, r, c);
    HashFlags(grid);
  }

  lemma HashBound(grid: Grid, n: nat)
    requires Shaped(grid, n)
    ensures Hash(grid) < Pow2(n * n)
    ensures forall i :: i >= n * n ==> !Bit(Hash(grid), i)
  {
    FlagsLength(grid, n);
    HashFlags(grid);
  }

  /** The fingerprint is 0 exactly when no row ever gets brighter to the right; a flat grid hashes to 0. */
  lemma HashZero(grid: Grid, n: nat)
    requires Shaped(grid, n)
    ensures Hash(grid) == 0 <==> forall r, c :: 0 <= r < n && 0 <= c < n ==> grid[r][c + 1] <= grid[r][c]
  {
    var f := Flags(grid);
    FlagSumZero(f);
    if Hash(grid) == 0 {
      forall r, c | 0 <= r < n && 0 <= c < n
        ensures grid[r][c + 1] <= grid[r][c]
      {
        FlagsAt(grid, n, r, c);
      }
    } else {
      var i :| 0 <= i < |f| && f[i];
      var r, c := FlagsIndex(grid, n, i);
      FlagsAt(grid, n, r, c);
    }
  }

  lemma ConstantGridHash(grid: Grid, n: nat, v: int)
    requires Shaped(grid, n)
    requires forall r, c :: 0 <= r < n && 0 <= c <= n ==> grid[r][c] == v
    ensures Hash(grid) == 0
  {
    HashZero(grid, n);
  }
}
