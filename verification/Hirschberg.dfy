/**
  The linear-space diff (`diff_seq`, `diff_rec`, `lcs_row_prefix`, `lcs_row_suffix` in
  crates/nisaba-core/src/review.rs).

  A slice of the source is a sequence with bounds `[lo, hi)` here. Row entries are `u32`
  in the source, so they carry that bound and every addition is checked against it.
 */
module Hirschberg {
  import opened Arithmetic
  import opened Lcs
  import opened EditScripts

  const DIFF_WORK_LIMIT: nat := 64 * 1024 * 1024

  type u32 = x: int | 0 <= x < 0x1_0000_0000

  /** The longest common subsequence of two slices. */
  ghost function Sub<T>(a: seq<T>, alo: nat, ahi: nat, b: seq<T>, blo: nat, bhi: nat): nat
    requires alo <= ahi <= |a| && blo <= bhi <= |b|
  {
    LcsLen(a[alo..ahi], b[blo..bhi])
  }

  // ------------------------------------------------------------------ arithmetic of the work limit

  lemma MulMonotone(a: nat, b: nat, c: nat, d: nat)
    requires a <= c && b <= d
    ensures a * b <= c * d
  {
    assert a * b <= c * b;
    assert c * b <= c * d;
  }

  lemma OneRowMore(m: nat, n: nat)
    ensures (m + 1) * n == m * n + n
  {
  }

  /** The overflow-free test of the source is the test on the product. */
  lemma LimitTest(m: nat, n: nat)
    requires n > 0
    ensures m > DIFF_WORK_LIMIT / n <==> m * n > DIFF_WORK_LIMIT
  {
    var q := DIFF_WORK_LIMIT / n;
    assert q * n <= DIFF_WORK_LIMIT < (q + 1) * n;
    if m > q { MulMonotone(q + 1, n, m, n); } else { MulMonotone(m, n, q, n); }
  }

  /** Within the limit the shorter side has at most 8192 elements. */
  lemma ShortSide(m: nat, n: nat)
    requires m * n <= DIFF_WORK_LIMIT
    ensures Min(m, n) <= 8192
  {
    if m > 8192 && n > 8192 { MulMonotone(8193, 8193, m, n); }
  }

  lemma SubBound<T>(a: seq<T>, alo: nat, ahi: nat, b: seq<T>, blo: nat, bhi: nat)
    requires alo <= ahi <= |a| && blo <= bhi <= |b|
    requires (ahi - alo) * (bhi - blo) <= DIFF_WORK_LIMIT
    ensures Sub(a, alo, ahi, b, blo, bhi) <= Min(ahi - alo, bhi - blo) <= 8192
  {
    LcsBound(a[alo..ahi], b[blo..bhi]);
    ShortSide(ahi - alo, bhi - blo);
  }

  // ------------------------------------------------------------------ forward rows

  lemma StepBack<T>(a: seq<T>, alo: nat, i: nat, b: seq<T>, blo: nat, j: nat)
    requires alo <= i < |a| && blo <= j < |b|
    ensures Sub(a, alo, i + 1, b, blo, j + 1) ==
            if a[i] == b[j] then Sub(a, alo, i, b, blo, j) + 1
            else Max(Sub(a, alo, i + 1, b, blo, j), Sub(a, alo, i, b, blo, j + 1))
  {
    SliceEnds(a, alo, i);
    SliceEnds(b, blo, j);
  }

  lemma SliceEnds<T>(s: seq<T>, lo: nat, i: nat)
    requires lo <= i < |s|
    ensures s[lo..i + 1] != [] && Init(s[lo..i + 1]) == s[lo..i] && Last(s[lo..i + 1]) == s[i]
  {
    var slice := s[lo..i + 1];
    assert |slice| == i + 1 - lo;
    assert slice[i - lo] == s[i];
    assert slice[..i - lo] == s[lo..i];
  }

  /** `row[j]` is the longest common subsequence of `a[alo..i]` and the first `j` of the `b` slice. */
  ghost predicate PrefixRow<T>(row: seq<int>, a: seq<T>, alo: nat, i: nat, b: seq<T>, blo: nat, bhi: nat, upTo: nat)
    requires alo <= i <= |a| && blo <= bhi <= |b| && upTo <= bhi - blo < |row|
  {
    forall j :: 0 <= j <= upTo ==> row[j] == Sub(a, alo, i, b, blo, blo + j)
  }

  /** One element of `a`: `cur` from `prev`, left to right. */
  method NextPrefixRow<T(==)>(a: seq<T>, alo: nat, i: nat, b: seq<T>, blo: nat, bhi: nat, prev: array<u32>,
                              cur: array<u32>)
    returns (ghost cells: nat)
    requires alo <= i < |a| && blo <= bhi <= |b|
    requires (i + 1 - alo) * (bhi - blo) <= DIFF_WORK_LIMIT
    requires prev.Length == cur.Length == bhi - blo + 1 && prev != cur
    requires PrefixRow(prev[..], a, alo, i, b, blo, bhi, bhi - blo) && cur[0] == 0
    modifies cur
    ensures PrefixRow(cur[..], a, alo, i + 1, b, blo, bhi, bhi - blo)
    ensures cells == bhi - blo
  {
    cells := 0;
    for j := 0 to bhi - blo
      invariant PrefixRow(cur[..], a, alo, i + 1, b, blo, bhi, j) && cells == j
    {
      StepBack(a, alo, i, b, blo, blo + j);
      MulMonotone(i + 1 - alo, j + 1, i + 1 - alo, bhi - blo);
      SubBound(a, alo, i + 1, b, blo, blo + j + 1);
      assert prev[..][j] == prev[j] && prev[..][j + 1] == prev[j + 1] && cur[..][j] == cur[j];
      cur[j + 1] := if a[i] == b[blo + j] then prev[j] + 1 else if cur[j] >= prev[j + 1] then cur[j] else prev[j + 1];
      cells := cells + 1;
    }
  }

  /** `lcs_row_prefix`: two rolling rows, swapped after each element of `a`. */
  method LcsRowPrefix<T(==)>(a: seq<T>, alo: nat, ahi: nat, b: seq<T>, blo: nat, bhi: nat)
    returns (row: seq<u32>, ghost cells: nat)
    requires alo <= ahi <= |a| && blo <= bhi <= |b|
    requires (ahi - alo) * (bhi - blo) <= DIFF_WORK_LIMIT
    ensures |row| == bhi - blo + 1 && PrefixRow(row, a, alo, ahi, b, blo, bhi, bhi - blo)
    ensures cells == (ahi - alo) * (bhi - blo)
  {
    cells := 0;
    var prev := new u32[bhi - blo + 1](_ => 0);
    var cur := new u32[bhi - blo + 1](_ => 0);
    for i := alo to ahi
      invariant prev.Length == cur.Length == bhi - blo + 1 && prev != cur
      invariant fresh(prev) && fresh(cur)
      invariant PrefixRow(prev[..], a, alo, i, b, blo, bhi, bhi - blo)
      invariant cur[0] == 0 && cells == (i - alo) * (bhi - blo)
    {
      MulMonotone(i + 1 - alo, bhi - blo, ahi - alo, bhi - blo);
      assert prev[..][0] == prev[0] == 0;
      ghost var written := NextPrefixRow(a, alo, i, b, blo, bhi, prev, cur);
      OneRowMore(i - alo, bhi - blo);
      cells := cells + written;
      prev, cur := cur, prev;
    }
    row := prev[..];
  }

  // ------------------------------------------------------------------ backward rows

  lemma StepFront<T>(a: seq<T>, i: nat, ahi: nat, b: seq<T>, j: nat, bhi: nat)
    requires i < ahi <= |a| && j < bhi <= |b|
    ensures Sub(a, i, ahi, b, j, bhi) ==
            if a[i] == b[j] then Sub(a, i + 1, ahi, b, j + 1, bhi) + 1
            else Max(Sub(a, i, ahi, b, j + 1, bhi), Sub(a, i + 1, ahi, b, j, bhi))
  {
    assert a[i..ahi][1..] == a[i + 1..ahi] && b[j..bhi][1..] == b[j + 1..bhi];
    LcsFront(a[i..ahi], b[j..bhi]);
  }

  /** `row[j]` is the longest common subsequence of `a[i..ahi]` and the `b` slice without its first `j`. */
  ghost predicate SuffixRow<T>(row: seq<int>, a: seq<T>, i: nat, ahi: nat, b: seq<T>, blo: nat, bhi: nat, from: nat)
    requires i <= ahi <= |a| && blo <= bhi <= |b| && from <= bhi - blo < |row|
  {
    forall j :: from <= j <= bhi - blo ==> row[j] == Sub(a, i, ahi, b, blo + j, bhi)
  }

  method NextSuffixRow<T(==)>(a: seq<T>, i: nat, ahi: nat, b: seq<T>, blo: nat, bhi: nat, prev: array<u32>,
                              cur: array<u32>)
    returns (ghost cells: nat)
    requires i < ahi <= |a| && blo <= bhi <= |b|
    requires (ahi - i) * (bhi - blo) <= DIFF_WORK_LIMIT
    requires prev.Length == cur.Length == bhi - blo + 1 && prev != cur
    requires SuffixRow(prev[..], a, i + 1, ahi, b, blo, bhi, 0) && cur[bhi - blo] == 0
    modifies cur
    ensures SuffixRow(cur[..], a, i, ahi, b, blo, bhi, 0)
    ensures cells == bhi - blo
  {
    cells := 0;
    for j := bhi - blo downto 0
      invariant SuffixRow(cur[..], a, i, ahi, b, blo, bhi, j) && cells == bhi - blo - j
    {
      StepFront(a, i, ahi, b, blo + j, bhi);
      MulMonotone(ahi - i, bhi - blo - j, ahi - i, bhi - blo);
      SubBound(a, i, ahi, b, blo + j, bhi);
      assert prev[..][j] == prev[j] && prev[..][j + 1] == prev[j + 1] && cur[..][j + 1] == cur[j + 1];
      cur[j] := if a[i] == b[blo + j] then prev[j + 1] + 1 else if cur[j + 1] >= prev[j] then cur[j + 1] else prev[j];
      cells := cells + 1;
    }
  }

  /** `lcs_row_suffix`. */
  method LcsRowSuffix<T(==)>(a: seq<T>, alo: nat, ahi: nat, b: seq<T>, blo: nat, bhi: nat)
    returns (row: seq<u32>, ghost cells: nat)
    requires alo <= ahi <= |a| && blo <= bhi <= |b|
    requires (ahi - alo) * (bhi - blo) <= DIFF_WORK_LIMIT
    ensures |row| == bhi - blo + 1 && SuffixRow(row, a, alo, ahi, b, blo, bhi, 0)
    ensures cells == (ahi - alo) * (bhi - blo)
  {
    cells := 0;
    var prev := new u32[bhi - blo + 1](_ => 0);
    var cur := new u32[bhi - blo + 1](_ => 0);
    for i := ahi downto alo
      invariant prev.Length == cur.Length == bhi - blo + 1 && prev != cur
      invariant fresh(prev) && fresh(cur)
      invariant SuffixRow(prev[..], a, i, ahi, b, blo, bhi, 0)
      invariant cur[bhi - blo] == 0 && cells == (ahi - i) * (bhi - blo)
    {
      MulMonotone(ahi - i, bhi - blo, ahi - alo, bhi - blo);
      assert prev[..][bhi - blo] == prev[bhi - blo] == 0;
      ghost var written := NextSuffixRow(a, i, ahi, b, blo, bhi, prev, cur);
      OneRowMore(ahi - i - 1, bhi - blo);
      cells := cells + written;
      prev, cur := cur, prev;
    }
    row := prev[..];
  }

  // ------------------------------------------------------------------ the split

  /** Splitting anywhere loses or keeps; nowhere does it gain. */
  lemma SplitAtMost<T>(a: seq<T>, alo: nat, mid: nat, ahi: nat, b: seq<T>, blo: nat, j: nat, bhi: nat)
    requires alo <= mid <= ahi <= |a| && blo <= j <= bhi <= |b|
    ensures Sub(a, alo, mid, b, blo, j) + Sub(a, mid, ahi, b, j, bhi) <= Sub(a, alo, ahi, b, blo, bhi)
  {
    LcsConcat(a[alo..mid], b[blo..j], a[mid..ahi], b[j..bhi]);
    assert a[alo..ahi] == a[alo..mid] + a[mid..ahi] && b[blo..bhi] == b[blo..j] + b[j..bhi];
  }

  lemma SplitAttained<T>(a: seq<T>, alo: nat, mid: nat, ahi: nat, b: seq<T>, blo: nat, bhi: nat) returns (j: nat)
    requires alo <= mid <= ahi <= |a| && blo <= bhi <= |b|
    ensures blo <= j <= bhi
    ensures Sub(a, alo, ahi, b, blo, bhi) <= Sub(a, alo, mid, b, blo, j) + Sub(a, mid, ahi, b, j, bhi)
  {
    var k := LcsSplit(a[alo..mid], a[mid..ahi], b[blo..bhi]);
    j := blo + k;
    assert a[alo..ahi] == a[alo..mid] + a[mid..ahi];
    assert b[blo..bhi][..k] == b[blo..j] && b[blo..bhi][k..] == b[j..bhi];
  }

  ghost function SumAt(left: seq<int>, right: seq<int>, j: nat): int
    requires j < |left| == |right|
  {
    left[j] + right[j]
  }

  /** The scan over the two rows: the first index with the greatest sum. */
  method FirstGreatest(left: seq<u32>, right: seq<u32>) returns (split: nat)
    requires |left| == |right| > 0
    requires forall j :: 0 <= j < |left| ==> SumAt(left, right, j) <= 8192
    ensures split < |left|
    ensures forall j :: 0 <= j < |left| ==> SumAt(left, right, j) <= SumAt(left, right, split)
    ensures forall j :: 0 <= j < split ==> SumAt(left, right, j) < SumAt(left, right, split)
  {
    split := 0;
    assert SumAt(left, right, 0) <= 8192;
    var best: u32 := left[0] + right[0];
    for j := 0 to |left|
      invariant split < |left| && best == SumAt(left, right, split)
      invariant forall k :: 0 <= k < j ==> SumAt(left, right, k) <= best
      invariant forall k :: 0 <= k < split ==> SumAt(left, right, k) < best
    {
      assert SumAt(left, right, j) <= 8192;
      var sum: u32 := left[j] + right[j];
      if sum > best {
        best := sum;
        split := j;
      }
    }
  }

  /** Where to split the `b` slice so that the halves keep as much as the whole. */
  method BestSplit<T(==)>(a: seq<T>, alo: nat, mid: nat, ahi: nat, b: seq<T>, blo: nat, bhi: nat)
    returns (split: nat, ghost cells: nat)
    requires alo <= mid <= ahi <= |a| && blo <= bhi <= |b|
    requires (ahi - alo) * (bhi - blo) <= DIFF_WORK_LIMIT
    ensures split <= bhi - blo
    ensures Sub(a, alo, mid, b, blo, blo + split) + Sub(a, mid, ahi, b, blo + split, bhi)
            == Sub(a, alo, ahi, b, blo, bhi)
    ensures Sub(a, alo, ahi, b, blo, bhi) == 0 ==> split == 0
    ensures cells == (ahi - alo) * (bhi - blo)
  {
    MulMonotone(mid - alo, bhi - blo, ahi - alo, bhi - blo);
    MulMonotone(ahi - mid, bhi - blo, ahi - alo, bhi - blo);
    var left, leftCells := LcsRowPrefix(a, alo, mid, b, blo, bhi);
    var right, rightCells := LcsRowSuffix(a, mid, ahi, b, blo, bhi);
    cells := leftCells + rightCells;
    BothGrids(mid - alo, ahi - mid, bhi - blo);
    forall j | 0 <= j < |left| ensures SumAt(left, right, j) <= 8192 {
      SumFits(a, alo, mid, ahi, b, blo, j, bhi);
    }
    split := FirstGreatest(left, right);
    SplitIsBest(a, alo, mid, ahi, b, blo, bhi, left, right, split);
    assert split > 0 ==> 0 <= SumAt(left, right, 0) < SumAt(left, right, split);
  }

  lemma BothGrids(m: nat, m': nat, n: nat)
    ensures m * n + m' * n == (m + m') * n
  {
  }

  lemma SplitIsBest<T>(a: seq<T>, alo: nat, mid: nat, ahi: nat, b: seq<T>, blo: nat, bhi: nat, left: seq<u32>,
                       right: seq<u32>, split: nat)
    requires alo <= mid <= ahi <= |a| && blo <= bhi <= |b|
    requires |left| == |right| == bhi - blo + 1 && split < |left|
    requires PrefixRow(left, a, alo, mid, b, blo, bhi, bhi - blo) && SuffixRow(right, a, mid, ahi, b, blo, bhi, 0)
    requires forall j :: 0 <= j < |left| ==> SumAt(left, right, j) <= SumAt(left, right, split)
    ensures Sub(a, alo, mid, b, blo, blo + split) + Sub(a, mid, ahi, b, blo + split, bhi)
            == Sub(a, alo, ahi, b, blo, bhi)
    ensures SumAt(left, right, split) == Sub(a, alo, ahi, b, blo, bhi)
  {
    var j := SplitAttained(a, alo, mid, ahi, b, blo, bhi);
    assert SumAt(left, right, j - blo) <= SumAt(left, right, split);
    SplitAtMost(a, alo, mid, ahi, b, blo, blo + split, bhi);
  }

  /** The sum the scan compares never exceeds 8192. */
  lemma SumFits<T>(a: seq<T>, alo: nat, mid: nat, ahi: nat, b: seq<T>, blo: nat, j: nat, bhi: nat)
    requires alo <= mid <= ahi <= |a| && blo <= blo + j <= bhi <= |b|
    requires (ahi - alo) * (bhi - blo) <= DIFF_WORK_LIMIT
    ensures Sub(a, alo, mid, b, blo, blo + j) + Sub(a, mid, ahi, b, blo + j, bhi) <= Min(ahi - alo, bhi - blo) <= 8192
  {
    SplitAtMost(a, alo, mid, ahi, b, blo, blo + j, bhi);
    SubBound(a, alo, ahi, b, blo, bhi);
  }

  // ------------------------------------------------------------------ trimming

  lemma TrimFront<T>(a: seq<T>, alo: nat, ahi: nat, b: seq<T>, blo: nat, bhi: nat, p: nat)
    requires alo + p <= ahi <= |a| && blo + p <= bhi <= |b| && Match(a, b, alo, blo, p)
    ensures Sub(a, alo, ahi, b, blo, bhi) == p + Sub(a, alo + p, ahi, b, blo + p, bhi)
  {
    MatchSlices(a, b, alo, blo, p);
    LcsCommonPrefix(a[alo..alo + p], a[alo + p..ahi], b[blo + p..bhi]);
    assert a[alo..ahi] == a[alo..alo + p] + a[alo + p..ahi] && b[blo..bhi] == b[blo..blo + p] + b[blo + p..bhi];
  }

  lemma TrimBack<T>(a: seq<T>, alo: nat, ahi: nat, b: seq<T>, blo: nat, bhi: nat, s: nat)
    requires alo + s <= ahi <= |a| && blo + s <= bhi <= |b| && Match(a, b, ahi - s, bhi - s, s)
    ensures Sub(a, alo, ahi, b, blo, bhi) == Sub(a, alo, ahi - s, b, blo, bhi - s) + s
  {
    MatchSlices(a, b, ahi - s, bhi - s, s);
    LcsCommonSuffix(a[alo..ahi - s], b[blo..bhi - s], a[ahi - s..ahi]);
    assert a[alo..ahi] == a[alo..ahi - s] + a[ahi - s..ahi] && b[blo..bhi] == b[blo..bhi - s] + b[bhi - s..bhi];
  }

  method CommonPrefix<T(==)>(a: seq<T>, alo: nat, ahi: nat, b: seq<T>, blo: nat, bhi: nat) returns (p: nat)
    requires alo <= ahi <= |a| && blo <= bhi <= |b|
    ensures alo + p <= ahi && blo + p <= bhi && Match(a, b, alo, blo, p)
    ensures alo + p < ahi && blo + p < bhi ==> a[alo + p] != b[blo + p]
  {
    p := 0;
    while p < ahi - alo && p < bhi - blo && a[alo + p] == b[blo + p]
      invariant alo + p <= ahi && blo + p <= bhi && Match(a, b, alo, blo, p)
    {
      p := p + 1;
    }
  }

  method CommonSuffix<T(==)>(a: seq<T>, alo: nat, ahi: nat, b: seq<T>, blo: nat, bhi: nat) returns (s: nat)
    requires alo <= ahi <= |a| && blo <= bhi <= |b|
    ensures alo + s <= ahi && blo + s <= bhi && Match(a, b, ahi - s, bhi - s, s)
    ensures alo + s < ahi && blo + s < bhi ==> a[ahi - 1 - s] != b[bhi - 1 - s]
  {
    s := 0;
    while s < ahi - alo && s < bhi - blo && a[ahi - 1 - s] == b[bhi - 1 - s]
      invariant alo + s <= ahi && blo + s <= bhi && Match(a, b, ahi - s, bhi - s, s)
    {
      MatchJoin(a, b, ahi - 1 - s, bhi - 1 - s, 1, s);
      s := s + 1;
    }
  }

  // ------------------------------------------------------------------ the recursion

  /** The two slices share no element. */
  ghost predicate Disjoint<T>(a: seq<T>, alo: nat, ahi: nat, b: seq<T>, blo: nat, bhi: nat)
    requires alo <= ahi <= |a| && blo <= bhi <= |b|
  {
    forall i, j :: alo <= i < ahi && blo <= j < bhi ==> a[i] != b[j]
  }

  lemma {:induction false} DisjointKeepsNothing<T>(a: seq<T>, alo: nat, ahi: nat, b: seq<T>, blo: nat, bhi: nat)
    requires alo <= ahi <= |a| && blo <= bhi <= |b| && Disjoint(a, alo, ahi, b, blo, bhi)
    ensures Sub(a, alo, ahi, b, blo, bhi) == 0
    decreases ahi + bhi
  {
    if alo < ahi && blo < bhi {
      DisjointKeepsNothing(a, alo, ahi - 1, b, blo, bhi);
      DisjointKeepsNothing(a, alo, ahi, b, blo, bhi - 1);
      StepBack(a, alo, ahi - 1, b, blo, bhi - 1);
    }
  }

  /** How often a row is written, at most, for `m` elements: once for each, then for the larger half. */
  function Rows(m: nat): nat { if m <= 1 then 0 else m + Rows(m - m / 2) }

  /** The most cells that are written on an `m` by `n` grid. */
  function MostCells(m: nat, n: nat): nat { n * Rows(m) }

  lemma {:induction false} RowsGrow(m: nat, m': nat)
    requires m <= m'
    ensures Rows(m) <= Rows(m')
    decreases m'
  {
    if 1 < m < m' { RowsGrow(m - m / 2, m' - m' / 2); }
  }

  lemma {:induction false} RowsBound(m: nat)
    ensures Rows(m) <= 3 * m
    ensures m >= 3 ==> Rows(m) > m
  {
    if m >= 2 { RowsBound(m - m / 2); }
  }

  lemma MostCellsGrow(m: nat, n: nat, m': nat, n': nat)
    requires m <= m' && n <= n'
    ensures MostCells(m, n) <= MostCells(m', n')
  {
    RowsGrow(m, m');
    MulMonotone(n, Rows(m), n', Rows(m'));
  }

  /** Three cells for each cell of the grid are enough, and one is too few. */
  lemma MostCellsBounds(m: nat, n: nat)
    ensures MostCells(m, n) <= 3 * (m * n)
    ensures m >= 3 && n > 0 ==> MostCells(m, n) > m * n
  {
    RowsBound(m);
    MulMonotone(n, Rows(m), n, 3 * m);
    assert n * (3 * m) == 3 * (m * n);
    if m >= 3 && n > 0 {
      MulMonotone(n, m + 1, n, Rows(m));
      assert n * (m + 1) == m * n + n;
    }
  }

  /** The grid of both rows, then the two halves, wherever `b` is split. */
  lemma WorkBound(m: nat, n: nat, split: nat)
    requires m >= 2 && split <= n
    ensures m * n + MostCells(m / 2, split) + MostCells(m - m / 2, n - split) <= MostCells(m, n)
    ensures m * n + MostCells(m - m / 2, n) == MostCells(m, n)
  {
    var h := m - m / 2;
    RowsGrow(m / 2, h);
    MulMonotone(split, Rows(m / 2), split, Rows(h));
    assert split * Rows(h) + (n - split) * Rows(h) == n * Rows(h);
    assert n * (m + Rows(h)) == n * m + n * Rows(h);
  }

  /** Ghost bookkeeping: table cells written, and wholesale replacements taken. */
  datatype Work = Work(cells: nat, wholesale: nat)

  /** What one call promises about the work it did on an `m` by `n` grid. */
  ghost predicate WorkWithin(w: Work, m: nat, n: nat, disjoint: bool) {
    && w.cells <= MostCells(m, n)
    && (m * n <= DIFF_WORK_LIMIT ==> w.wholesale == 0)
    && (m * n <= DIFF_WORK_LIMIT && disjoint ==> w.cells == MostCells(m, n))
  }

  /** The runs so far, extended over the two slices. */
  ghost predicate Extends<T>(r: seq<DiffOp>, out: seq<DiffOp>, a: seq<T>, alo: nat, ahi: nat, b: seq<T>, blo: nat,
                             bhi: nat)
    requires alo <= ahi <= |a| && blo <= bhi <= |b|
  {
    && Script(r, a, b, ahi, bhi) && Compact(r)
    && ((ahi - alo) * (bhi - blo) <= DIFF_WORK_LIMIT ==> Equals(r) == Equals(out) + Sub(a, alo, ahi, b, blo, bhi))
  }

  method PushDeleted<T>(out: seq<DiffOp>, ghost a: seq<T>, alo: nat, ahi: nat, ghost b: seq<T>, ghost blo: nat)
    returns (r: seq<DiffOp>)
    requires alo <= ahi <= |a| && blo <= |b| && Script(out, a, b, alo, blo) && Compact(out)
    ensures Script(r, a, b, ahi, blo) && Compact(r) && Equals(r) == Equals(out)
  {
    r := Push(out, Delete(ahi - alo));
    PushDelete(out, a, b, alo, blo, ahi - alo);
    PushCompact(out, Delete(ahi - alo));
    PushEquals(out, Delete(ahi - alo));
  }

  method PushInserted<T>(out: seq<DiffOp>, ghost a: seq<T>, ghost alo: nat, ghost b: seq<T>, blo: nat, bhi: nat)
    returns (r: seq<DiffOp>)
    requires alo <= |a| && blo <= bhi <= |b| && Script(out, a, b, alo, blo) && Compact(out)
    ensures Script(r, a, b, alo, bhi) && Compact(r) && Equals(r) == Equals(out)
  {
    r := Push(out, Insert(bhi - blo));
    PushInsert(out, a, b, alo, blo, bhi - blo);
    PushCompact(out, Insert(bhi - blo));
    PushEquals(out, Insert(bhi - blo));
  }

  method PushKept<T>(out: seq<DiffOp>, ghost a: seq<T>, ghost i: nat, ghost b: seq<T>, ghost j: nat, n: nat)
    returns (r: seq<DiffOp>)
    requires i + n <= |a| && j + n <= |b| && Script(out, a, b, i, j) && Compact(out) && Match(a, b, i, j, n)
    ensures Script(r, a, b, i + n, j + n) && Compact(r) && Equals(r) == Equals(out) + n
  {
    r := Push(out, Equal(n));
    PushEqual(out, a, b, i, j, n);
    PushCompact(out, Equal(n));
    PushEquals(out, Equal(n));
  }

  lemma SubEmpty<T>(a: seq<T>, alo: nat, ahi: nat, b: seq<T>, blo: nat, bhi: nat)
    requires alo <= ahi <= |a| && blo <= bhi <= |b| && (alo == ahi || blo == bhi)
    ensures Sub(a, alo, ahi, b, blo, bhi) == 0
  {
    assert alo == ahi ==> a[alo..ahi] == [];
    assert blo == bhi ==> b[blo..bhi] == [];
  }

  lemma SubSingle<T>(a: seq<T>, i: nat, b: seq<T>, blo: nat, bhi: nat)
    requires i < |a| && blo <= bhi <= |b|
    ensures Sub(a, i, i + 1, b, blo, bhi) == if exists k :: blo <= k < bhi && b[k] == a[i] then 1 else 0
  {
    assert a[i..i + 1] == [a[i]];
    LcsSingle(a[i], b[blo..bhi]);
    if k :| blo <= k < bhi && b[k] == a[i] { assert b[blo..bhi][k - blo] == a[i]; }
  }

  /** The element occurs first at `k`, or not at all and `k` is the end. */
  ghost predicate FirstAt<T>(b: seq<T>, blo: nat, bhi: nat, x: T, k: nat)
    requires bhi <= |b|
  {
    blo <= k <= bhi && (forall t :: blo <= t < k ==> b[t] != x) && (k < bhi ==> b[k] == x)
  }

  method FirstOccurrence<T(==)>(b: seq<T>, blo: nat, bhi: nat, x: T) returns (k: nat)
    requires blo <= bhi <= |b|
    ensures FirstAt(b, blo, bhi, x, k)
  {
    k := blo;
    while k < bhi && b[k] != x
      invariant blo <= k <= bhi
      invariant forall t :: blo <= t < k ==> b[t] != x
    {
      k := k + 1;
    }
  }

  /** The base case: the single element is kept if it occurs at all. */
  method DiffSingle<T(==)>(a: seq<T>, i: nat, b: seq<T>, blo: nat, bhi: nat, out: seq<DiffOp>) returns (r: seq<DiffOp>)
    requires i < |a| && blo <= bhi <= |b| && Script(out, a, b, i, blo) && Compact(out)
    ensures Extends(r, out, a, i, i + 1, b, blo, bhi)
  {
    SubSingle(a, i, b, blo, bhi);
    var k := FirstOccurrence(b, blo, bhi, a[i]);
    if k < bhi {
      r := PushInserted(out, a, i, b, blo, k);
      assert Match(a, b, i, k, 0);
      r := PushKept(r, a, i, b, k, 1);
      r := PushInserted(r, a, i + 1, b, k + 1, bhi);
    } else {
      r := PushDeleted(out, a, i, i + 1, b, blo);
      r := PushInserted(r, a, i + 1, b, blo, bhi);
    }
  }

  /** Two slices with no common first and no common last element. */
  method DiffMiddle<T(==)>(a: seq<T>, alo: nat, ahi: nat, b: seq<T>, blo: nat, bhi: nat, out: seq<DiffOp>)
    returns (r: seq<DiffOp>, ghost w: Work)
    requires alo <= ahi <= |a| && blo <= bhi <= |b| && Script(out, a, b, alo, blo) && Compact(out)
    requires (ahi - alo) * (bhi - blo) <= DIFF_WORK_LIMIT
    ensures Extends(r, out, a, alo, ahi, b, blo, bhi)
    ensures WorkWithin(w, ahi - alo, bhi - blo, Disjoint(a, alo, ahi, b, blo, bhi))
    decreases ahi - alo, 1
  {
    w := Work(0, 0);
    if alo == ahi {
      SubEmpty(a, alo, ahi, b, blo, bhi);
      r := PushInserted(out, a, alo, b, blo, bhi);
    } else if blo == bhi {
      SubEmpty(a, alo, ahi, b, blo, bhi);
      r := PushDeleted(out, a, alo, ahi, b, blo);
    } else if ahi - alo == 1 {
      r := DiffSingle(a, alo, b, blo, bhi, out);
    } else {
      r, w := DiffHalves(a, alo, ahi, b, blo, bhi, out);
    }
  }

  /** The Hirschberg step: halve `a`, split `b` where nothing is lost, recurse on both. */
  method DiffHalves<T(==)>(a: seq<T>, alo: nat, ahi: nat, b: seq<T>, blo: nat, bhi: nat, out: seq<DiffOp>)
    returns (r: seq<DiffOp>, ghost w: Work)
    requires alo + 2 <= ahi <= |a| && blo < bhi <= |b| && Script(out, a, b, alo, blo) && Compact(out)
    requires (ahi - alo) * (bhi - blo) <= DIFF_WORK_LIMIT
    ensures Extends(r, out, a, alo, ahi, b, blo, bhi)
    ensures WorkWithin(w, ahi - alo, bhi - blo, Disjoint(a, alo, ahi, b, blo, bhi))
    decreases ahi - alo, 0
  {
    var half := (ahi - alo) / 2;
    var mid := alo + half;
    var split, cells := BestSplit(a, alo, mid, ahi, b, blo, bhi);
    MulMonotone(half, split, ahi - alo, bhi - blo);
    MulMonotone(ahi - mid, bhi - blo - split, ahi - alo, bhi - blo);
    ghost var w1, w2;
    r, w1 := DiffRec(a, alo, mid, b, blo, blo + split, out);
    r, w2 := DiffRec(a, mid, ahi, b, blo + split, bhi, r);
    w := Work(cells + w1.cells + w2.cells, w1.wholesale + w2.wholesale);
    HalvesWork(a, alo, mid, ahi, b, blo, split, bhi, cells, w1, w2);
  }

  /** Writing both rows, and the work on the two halves. */
  lemma HalvesWork<T>(a: seq<T>, alo: nat, mid: nat, ahi: nat, b: seq<T>, blo: nat, split: nat, bhi: nat,
                      cells: nat, w1: Work, w2: Work)
    requires alo + 2 <= ahi <= |a| && blo < bhi <= |b| && mid == alo + (ahi - alo) / 2 && split <= bhi - blo
    requires cells == (ahi - alo) * (bhi - blo) <= DIFF_WORK_LIMIT
    requires Sub(a, alo, ahi, b, blo, bhi) == 0 ==> split == 0
    requires WorkWithin(w1, mid - alo, split, Disjoint(a, alo, mid, b, blo, blo + split))
    requires WorkWithin(w2, ahi - mid, bhi - blo - split, Disjoint(a, mid, ahi, b, blo + split, bhi))
    ensures WorkWithin(Work(cells + w1.cells + w2.cells, w1.wholesale + w2.wholesale),
                       ahi - alo, bhi - blo, Disjoint(a, alo, ahi, b, blo, bhi))
  {
    MulMonotone(mid - alo, split, ahi - alo, bhi - blo);
    MulMonotone(ahi - mid, bhi - blo - split, ahi - alo, bhi - blo);
    WorkBound(ahi - alo, bhi - blo, split);
    if Disjoint(a, alo, ahi, b, blo, bhi) {
      DisjointKeepsNothing(a, alo, ahi, b, blo, bhi);
      assert Disjoint(a, mid, ahi, b, blo + split, bhi);
    }
  }

  method DiffRec<T(==)>(a: seq<T>, alo: nat, ahi: nat, b: seq<T>, blo: nat, bhi: nat, out: seq<DiffOp>)
    returns (r: seq<DiffOp>, ghost w: Work)
    requires alo <= ahi <= |a| && blo <= bhi <= |b| && Script(out, a, b, alo, blo) && Compact(out)
    ensures Extends(r, out, a, alo, ahi, b, blo, bhi)
    ensures WorkWithin(w, ahi - alo, bhi - blo, Disjoint(a, alo, ahi, b, blo, bhi))
    decreases ahi - alo, 3
  {
    w := Work(0, 0);
    if alo == ahi {
      SubEmpty(a, alo, ahi, b, blo, bhi);
      r := PushInserted(out, a, alo, b, blo, bhi);
    } else if blo == bhi {
      SubEmpty(a, alo, ahi, b, blo, bhi);
      r := PushDeleted(out, a, alo, ahi, b, blo);
    } else {
      LimitTest(ahi - alo, bhi - blo);
      if ahi - alo > DIFF_WORK_LIMIT / (bhi - blo) {
        r := PushDeleted(out, a, alo, ahi, b, blo);
        r := PushInserted(r, a, ahi, b, blo, bhi);
        w := Work(0, 1);
      } else {
        r, w := DiffTrimmed(a, alo, ahi, b, blo, bhi, out);
      }
    }
  }

  /** Common ends are equal runs; only the middle needs work. */
  method DiffTrimmed<T(==)>(a: seq<T>, alo: nat, ahi: nat, b: seq<T>, blo: nat, bhi: nat, out: seq<DiffOp>)
    returns (r: seq<DiffOp>, ghost w: Work)
    requires alo < ahi <= |a| && blo < bhi <= |b| && Script(out, a, b, alo, blo) && Compact(out)
    requires (ahi - alo) * (bhi - blo) <= DIFF_WORK_LIMIT
    ensures Extends(r, out, a, alo, ahi, b, blo, bhi)
    ensures WorkWithin(w, ahi - alo, bhi - blo, Disjoint(a, alo, ahi, b, blo, bhi))
    decreases ahi - alo, 2
  {
    var p := CommonPrefix(a, alo, ahi, b, blo, bhi);
    var s := CommonSuffix(a, alo + p, ahi, b, blo + p, bhi);
    MulMonotone(ahi - s - (alo + p), bhi - s - (blo + p), ahi - alo, bhi - blo);
    var front := PushKept(out, a, alo, b, blo, p);
    var middle;
    middle, w := DiffMiddle(a, alo + p, ahi - s, b, blo + p, bhi - s, front);
    r := PushKept(middle, a, ahi - s, b, bhi - s, s);
    TrimmedScript(r, middle, front, out, a, alo, ahi, b, blo, bhi, p, s);
    TrimmedWork(a, alo, ahi, b, blo, bhi, p, s, w);
  }

  /** Common ends around an extension over the middle extend over the whole. */
  lemma TrimmedScript<T>(r: seq<DiffOp>, middle: seq<DiffOp>, front: seq<DiffOp>, out: seq<DiffOp>, a: seq<T>, alo: nat,
                         ahi: nat, b: seq<T>, blo: nat, bhi: nat, p: nat, s: nat)
    requires alo + p + s <= ahi <= |a| && blo + p + s <= bhi <= |b|
    requires Match(a, b, alo, blo, p) && Match(a, b, ahi - s, bhi - s, s)
    requires Extends(middle, front, a, alo + p, ahi - s, b, blo + p, bhi - s)
    requires Script(r, a, b, ahi, bhi) && Compact(r)
    requires Equals(front) == Equals(out) + p && Equals(r) == Equals(middle) + s
    ensures Extends(r, out, a, alo, ahi, b, blo, bhi)
  {
    TrimBoth(a, alo, ahi, b, blo, bhi, p, s);
  }

  /** What the middle promises of its work holds of the whole. */
  lemma TrimmedWork<T>(a: seq<T>, alo: nat, ahi: nat, b: seq<T>, blo: nat, bhi: nat, p: nat, s: nat, w: Work)
    requires alo + p + s <= ahi <= |a| && blo + p + s <= bhi <= |b|
    requires Match(a, b, alo, blo, p) && Match(a, b, ahi - s, bhi - s, s)
    requires (ahi - s - (alo + p)) * (bhi - s - (blo + p)) <= (ahi - alo) * (bhi - blo) <= DIFF_WORK_LIMIT
    requires WorkWithin(w, ahi - s - (alo + p), bhi - s - (blo + p), Disjoint(a, alo + p, ahi - s, b, blo + p, bhi - s))
    ensures WorkWithin(w, ahi - alo, bhi - blo, Disjoint(a, alo, ahi, b, blo, bhi))
  {
    var disjoint := Disjoint(a, alo, ahi, b, blo, bhi);
    if disjoint { NothingToTrim(a, alo, ahi, b, blo, bhi, p, s); }
    WorkOnMiddle(w, ahi - s - (alo + p), bhi - s - (blo + p), ahi - alo, bhi - blo,
                 Disjoint(a, alo + p, ahi - s, b, blo + p, bhi - s), disjoint);
  }

  lemma TrimBoth<T>(a: seq<T>, alo: nat, ahi: nat, b: seq<T>, blo: nat, bhi: nat, p: nat, s: nat)
    requires alo + p + s <= ahi <= |a| && blo + p + s <= bhi <= |b|
    requires Match(a, b, alo, blo, p) && Match(a, b, ahi - s, bhi - s, s)
    ensures Sub(a, alo, ahi, b, blo, bhi) == p + Sub(a, alo + p, ahi - s, b, blo + p, bhi - s) + s
    ensures (ahi - s - (alo + p)) * (bhi - s - (blo + p)) <= (ahi - alo) * (bhi - blo)
  {
    TrimFront(a, alo, ahi, b, blo, bhi, p);
    TrimBack(a, alo + p, ahi, b, blo + p, bhi, s);
    MulMonotone(ahi - s - (alo + p), bhi - s - (blo + p), ahi - alo, bhi - blo);
  }

  lemma NothingToTrim<T>(a: seq<T>, alo: nat, ahi: nat, b: seq<T>, blo: nat, bhi: nat, p: nat, s: nat)
    requires alo <= ahi <= |a| && blo <= bhi <= |b| && Disjoint(a, alo, ahi, b, blo, bhi)
    requires alo + p + s <= ahi && blo + p + s <= bhi && Match(a, b, alo, blo, p) && Match(a, b, ahi - s, bhi - s, s)
    ensures p == 0 && s == 0
  {
    if p > 0 { MatchFirst(a, b, alo, blo, p); }
  }

  /** The middle of a trimmed grid is no larger, and is the whole grid when nothing is shared. */
  lemma WorkOnMiddle(w: Work, m: nat, n: nat, m': nat, n': nat, disjoint: bool, disjoint': bool)
    requires WorkWithin(w, m, n, disjoint) && m <= m' && n <= n' && m * n <= m' * n'
    requires m * n <= DIFF_WORK_LIMIT
    requires disjoint' ==> m == m' && n == n' && disjoint
    ensures WorkWithin(w, m', n', disjoint')
  {
    MostCellsGrow(m, n, m', n');
  }

  lemma {:induction false} MatchFirst<T>(a: seq<T>, b: seq<T>, i: nat, j: nat, n: nat)
    requires 0 < n && i + n <= |a| && j + n <= |b| && Match(a, b, i, j, n)
    ensures a[i] == b[j]
  {
    if n > 1 { MatchFirst(a, b, i, j, n - 1); }
  }

  // ------------------------------------------------------------------ diff_seq

  /**
    `diff_seq`. The result turns `a` into `b`, has no empty run and no mergeable neighbours.
    Within the work limit it keeps as many elements as any script can and no part of it is a
    wholesale replacement. The dynamic programs write at most `MostCells` cells, and exactly
    so many on sequences that share nothing; that is more than the grid, so the total is not
    bounded by the limit itself.
   */
  method DiffSeq<T(==)>(a: seq<T>, b: seq<T>) returns (ops: seq<DiffOp>, ghost w: Work)
    ensures Script(ops, a, b, |a|, |b|) && Compact(ops)
    ensures |a| * |b| <= DIFF_WORK_LIMIT ==> Equals(ops) == LcsLen(a, b) && w.wholesale == 0
    ensures |a| * |b| <= DIFF_WORK_LIMIT ==>
              forall other: seq<DiffOp> :: Script(other, a, b, |a|, |b|) ==> Edits(ops) <= Edits(other)
    ensures w.cells <= MostCells(|a|, |b|) <= 3 * (|a| * |b|)
    ensures |a| * |b| <= DIFF_WORK_LIMIT && Disjoint(a, 0, |a|, b, 0, |b|) ==> w.cells == MostCells(|a|, |b|)
    ensures |a| * |b| <= DIFF_WORK_LIMIT && |a| >= 3 && b != [] && Disjoint(a, 0, |a|, b, 0, |b|) ==>
            w.cells > |a| * |b|
  {
    ops, w := DiffRec(a, 0, |a|, b, 0, |b|, []);
    MostCellsBounds(|a|, |b|);
    assert a[0..|a|] == a && b[0..|b|] == b;
    if |a| * |b| <= DIFF_WORK_LIMIT {
      forall other: seq<DiffOp> | Script(other, a, b, |a|, |b|) ensures Edits(ops) <= Edits(other) {
        LcsScriptIsMinimal(a, b, ops, other);
      }
    }
  }

  /** All pairs of these sizes are within the grid limit and write no more cells than it. */
  predicate StaysWithinLimit(m: nat, n: nat) { m * n <= DIFF_WORK_LIMIT && MostCells(m, n) <= DIFF_WORK_LIMIT }

  /**
    The cells written stay within the limit for every pair of two lengths exactly if
    `MostCells` of the lengths does: no pair writes more, and this one writes so many.
   */
  method WorstCase(m: nat, n: nat) returns (a: seq<bool>, b: seq<bool>, ops: seq<DiffOp>, ghost w: Work)
    requires m * n <= DIFF_WORK_LIMIT
    ensures |a| == m && |b| == n && Disjoint(a, 0, m, b, 0, n) && Script(ops, a, b, m, n)
    ensures w.cells == MostCells(m, n)
    ensures w.cells <= DIFF_WORK_LIMIT <==> StaysWithinLimit(m, n)
  {
    a, b := seq(m, _ => true), seq(n, _ => false);
    ops, w := DiffSeq(a, b);
  }

  /** A diff of any pair of such lengths keeps to the limit. */
  method DiffWithinLimit<T(==)>(a: seq<T>, b: seq<T>) returns (ops: seq<DiffOp>, ghost w: Work)
    requires StaysWithinLimit(|a|, |b|)
    ensures Script(ops, a, b, |a|, |b|) && Equals(ops) == LcsLen(a, b) && w.cells <= DIFF_WORK_LIMIT
  {
    ops, w := DiffSeq(a, b);
  }

  /** Within the grid limit the cells written can exceed it: two disjoint sequences of 8192 elements. */
  method WorkCanExceedLimit() returns (a: seq<bool>, b: seq<bool>, ops: seq<DiffOp>, ghost w: Work)
    ensures |a| == |b| == 8192 && |a| * |b| == DIFF_WORK_LIMIT && Disjoint(a, 0, |a|, b, 0, |b|)
    ensures Script(ops, a, b, |a|, |b|) && w.cells > DIFF_WORK_LIMIT
  {
    a, b, ops, w := WorstCase(8192, 8192);
    MostCellsBounds(8192, 8192);
  }

  /** No edit script deletes and inserts fewer elements than one that keeps the LCS. */
  lemma LcsScriptIsMinimal<T>(a: seq<T>, b: seq<T>, ops: seq<DiffOp>, other: seq<DiffOp>)
    requires Script(ops, a, b, |a|, |b|) && Equals(ops) == LcsLen(a, b)
    requires Script(other, a, b, |a|, |b|)
    ensures Equals(other) <= Equals(ops) && Edits(ops) <= Edits(other)
  {
    ScriptBound(other, |other|, a, b, |a|, |b|);
    assert a[..|a|] == a && b[..|b|] == b;
    ScriptSizes(ops, |ops|, a, b, |a|, |b|);
    ScriptSizes(other, |other|, a, b, |a|, |b|);
  }
}
