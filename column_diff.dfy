/**
 * The first tracker prototype: for every column, add up how much each of
 * its 24 pixels changed since the previous frame and report the first
 * column with the largest total. The frames are uint8, so each difference
 * is the wrapped `(curr - prev) % 256` of the code as written.
 */
module ColumnDiff {

  import opened Options
  import Frames
  import Stats

  const Width := 32
  const Height := 24

  /** Sum over rows r < n of the uint8 difference at column c. */
  function ColumnDiffSum(prev: seq<seq<int>>, curr: seq<seq<int>>, c: nat, n: nat): int
    requires Frames.IsFrame(prev, Height, Width) && Frames.IsFrame(curr, Height, Width)
    requires c < Width && n <= Height
  {
    if n == 0 then 0
    else ColumnDiffSum(prev, curr, c, n - 1) + Frames.Uint8AbsDiff(curr[n - 1][c], prev[n - 1][c])
  }

  /** What `col_diff_sums` holds once both loops have finished. */
  function ColumnDiffSums(prev: seq<seq<int>>, curr: seq<seq<int>>): (sums: seq<int>)
    requires Frames.IsFrame(prev, Height, Width) && Frames.IsFrame(curr, Height, Width)
    ensures |sums| == Width
    ensures forall c :: 0 <= c < Width ==> sums[c] == ColumnDiffSum(prev, curr, c, Height)
  {
    seq(Width, c requires 0 <= c < Width => ColumnDiffSum(prev, curr, c, Height))
  }

  /** Each partial column sum lies between 0 and 255 per row summed. */
  lemma {:induction false} ColumnDiffSumBounded(prev: seq<seq<int>>, curr: seq<seq<int>>, c: nat, n: nat)
    requires Frames.IsFrame(prev, Height, Width) && Frames.IsFrame(curr, Height, Width)
    requires c < Width && n <= Height
    ensures 0 <= ColumnDiffSum(prev, curr, c, n) <= 255 * n
  {
    if n > 0 {
      ColumnDiffSumBounded(prev, curr, c, n - 1);
    }
  }

  /** A column whose pixels are all unchanged sums to zero. */
  lemma {:induction false} UnchangedColumnSumsZero(prev: seq<seq<int>>, curr: seq<seq<int>>, c: nat, n: nat)
    requires Frames.IsFrame(prev, Height, Width) && Frames.IsFrame(curr, Height, Width)
    requires c < Width && n <= Height
    requires forall r :: 0 <= r < n ==> curr[r][c] == prev[r][c]
    ensures ColumnDiffSum(prev, curr, c, n) == 0
  {
    if n > 0 {
      UnchangedColumnSumsZero(prev, curr, c, n - 1);
    }
  }

  /** Identical frames give all sums 0, so the reported column is 0. */
  lemma IdenticalFramesGiveColumnZero(f: seq<seq<int>>)
    requires Frames.IsFrame(f, Height, Width)
    ensures forall c :: 0 <= c < Width ==> ColumnDiffSums(f, f)[c] == 0
    ensures Stats.ArgMax(ColumnDiffSums(f, f)) == 0
  {
    forall c | 0 <= c < Width ensures ColumnDiffSums(f, f)[c] == 0 {
      UnchangedColumnSumsZero(f, f, c, Height);
    }
    Stats.ArgMaxOfConstant(ColumnDiffSums(f, f), 0);
  }

  /**
   * `find_person_column`: fill `col_diff_sums` column by column in nested
   * loops, then return `col_diff_sums.index(max(col_diff_sums))`, the first
   * column whose total change is largest.
   */
  method FindPersonColumn(prev: seq<seq<int>>, curr: seq<seq<int>>) returns (personCol: int)
    requires Frames.IsFrame(prev, Height, Width) && Frames.IsFrame(curr, Height, Width)
    ensures 0 <= personCol < Width
    ensures personCol == Stats.ArgMax(ColumnDiffSums(prev, curr))
    ensures forall c :: 0 <= c < Width ==> ColumnDiffSum(prev, curr, c, Height) <= ColumnDiffSum(prev, curr, personCol, Height)
    ensures forall c :: 0 <= c < personCol ==> ColumnDiffSum(prev, curr, c, Height) < ColumnDiffSum(prev, curr, personCol, Height)
  {
    var colDiffSums := new int[Width](_ => 0);
    for col := 0 to Width
      invariant forall c :: 0 <= c < col ==> colDiffSums[c] == ColumnDiffSum(prev, curr, c, Height)
      invariant forall c :: col <= c < Width ==> colDiffSums[c] == 0
    {
      for row := 0 to Height
        invariant colDiffSums[col] == ColumnDiffSum(prev, curr, col, row)
        invariant forall c :: 0 <= c < col ==> colDiffSums[c] == ColumnDiffSum(prev, curr, c, Height)
        invariant forall c :: col < c < Width ==> colDiffSums[c] == 0
      {
        var currentPixel := curr[row][col];
        var previousPixel := prev[row][col];
        colDiffSums[col] := colDiffSums[col] + Frames.Uint8AbsDiff(currentPixel, previousPixel);
      }
    }
    assert colDiffSums[..] == ColumnDiffSums(prev, curr);
    personCol := FirstIndexOfMax(colDiffSums);
  }

  /** `a.index(max(a))` over a non-empty array: one pass keeping the first maximum. */
  method FirstIndexOfMax(a: array<int>) returns (k: int)
    requires a.Length > 0
    ensures k == Stats.ArgMax(a[..])
  {
    k := 0;
    for i := 1 to a.Length
      invariant 0 <= k < i
      invariant forall j :: 0 <= j < i ==> a[j] <= a[k]
      invariant forall j :: 0 <= j < k ==> a[j] < a[k]
    {
      if a[i] > a[k] {
        k := i;
      }
    }
    Stats.ArgMaxUnique(a[..], k);
  }

  /** The state `main` carries between frames. */
  class Monitor {
    /** The previous normalised frame; None until a frame has been read. */
    var prevFrame: Option<seq<seq<int>>>

    ghost predicate Valid()
      reads this
    {
      prevFrame.Some? ==> Frames.IsFrame(prevFrame.value, Height, Width)
    }

    constructor ()
      ensures Valid() && prevFrame == None
    {
      prevFrame := None;
    }

    /**
     * One pass of the main loop, given the normalised frame read (None when
     * `getFrame` raised). A failed read changes nothing and reports nothing.
     * The first frame is only remembered; every later frame is compared
     * with the previous one and then replaces it.
     */
    method Step(reading: Option<seq<seq<int>>>) returns (personColumn: Option<int>)
      requires Valid()
      requires reading.Some? ==> Frames.IsFrame(reading.value, Height, Width)
      modifies this
      ensures Valid()
      ensures prevFrame == if reading.Some? then reading else old(prevFrame)
      ensures personColumn.Some? <==> reading.Some? && old(prevFrame).Some?
      ensures personColumn.Some? ==>
        personColumn.value == Stats.ArgMax(ColumnDiffSums(old(prevFrame).value, reading.value))
    {
      personColumn := None;
      if reading.None? {
        return;
      }
      var normalizedData := reading.value;
      if prevFrame.Some? {
        var column := FindPersonColumn(prevFrame.value, normalizedData);
        personColumn := Some(column);
      }
      prevFrame := Some(normalizedData);
    }
  }

}
