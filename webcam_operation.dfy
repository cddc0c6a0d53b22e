/**
  Orientation correction of the camera's pixel buffer (WebCamOperation.cs).

  A frame is a flat row-major buffer: the pixel at row r, column c of a
  width x height image sits at index r * width + c. The three corrections
  swap pairs of elements of one buffer in place; FlipColors picks one of
  them from the camera's facing and its rotation angle.
*/
module WebCam {

  // ---------------------------------------------------------------------
  // Row and column arithmetic of a row-major buffer.
  //
  // Row starts are written Mul(r, w), r * w as repeated addition, and the
  // row of an index is found by repeated subtraction, so that the proofs
  // about index maps only ever need linear arithmetic.
  // ---------------------------------------------------------------------

  /** The start of row r in a buffer whose rows are w long: r * w. */
  function Mul(r: nat, w: nat): nat
  {
    if r == 0 then 0 else Mul(r - 1, w) + w
  }

  lemma {:induction false} MulIsProduct(r: nat, w: nat)
    ensures Mul(r, w) == r * w
  {
    if r > 0 {
      MulIsProduct(r - 1, w);
    }
  }

  lemma {:induction false} MulAdd(r: nat, d: nat, w: nat)
    ensures Mul(r + d, w) == Mul(r, w) + Mul(d, w)
  {
    if d > 0 {
      MulAdd(r, d - 1, w);
    }
  }

  /** A later row starts at least one row length further on. */
  lemma MulBefore(r1: nat, r2: nat, w: nat)
    requires r1 < r2
    ensures Mul(r1, w) + w <= Mul(r2, w)
  {
    MulAdd(r1 + 1, r2 - r1 - 1, w);
  }

  /** The row an index falls in, k / w. */
  function Row(k: nat, w: nat): (r: nat)
    requires w > 0
  {
    if k < w then 0 else Row(k - w, w) + 1
  }

  /** The column an index falls in, k % w. */
  function Col(k: nat, w: nat): (c: nat)
    requires w > 0
    ensures c < w
  {
    RowBounds(k, w);
    k - Mul(Row(k, w), w)
  }

  lemma {:induction false} RowBounds(k: nat, w: nat)
    requires w > 0
    ensures Mul(Row(k, w), w) <= k < Mul(Row(k, w), w) + w
  {
    if k >= w {
      RowBounds(k - w, w);
    }
  }

  /** Row and column of the cell at row r, column c. */
  lemma {:induction false} RowColOfCell(r: nat, c: nat, w: nat)
    requires c < w
    ensures Row(Mul(r, w) + c, w) == r && Col(Mul(r, w) + c, w) == c
  {
    if r > 0 {
      RowColOfCell(r - 1, c, w);
    }
  }

  /** Every index below the grid's size lies in one of its h rows. */
  lemma RowBelowHeight(k: nat, w: nat, h: nat)
    requires w > 0 && k < Mul(h, w)
    ensures Row(k, w) < h
  {
    RowBounds(k, w);
    if Row(k, w) >= h {
      if Row(k, w) > h {
        MulBefore(h, Row(k, w), w);
      }
    }
  }

  /** The cell at row r, column c of a w x h grid has an index below its size. */
  lemma CellInGrid(r: nat, c: nat, w: nat, h: nat)
    requires r < h && c < w
    ensures Mul(r, w) + c < Mul(h, w)
  {
    MulBefore(r, h, w);
  }

  // ---------------------------------------------------------------------
  // The three corrections as functions on sequences
  // ---------------------------------------------------------------------

  /** Where index k of a w x h buffer is read from after a vertical flip. */
  function VFlipIndex(k: nat, w: nat, h: nat): (j: nat)
    ensures k < Mul(h, w) ==> j < Mul(h, w)
    ensures k >= Mul(h, w) ==> j == k
  {
    if w > 0 && k < Mul(h, w) then
      RowBelowHeight(k, w, h);
      CellInGrid(h - 1 - Row(k, w), Col(k, w), w, h);
      Mul(h - 1 - Row(k, w), w) + Col(k, w)
    else k
  }

  /** Where index k of a w x h buffer is read from after a horizontal flip. */
  function HFlipIndex(k: nat, w: nat, h: nat): (j: nat)
    ensures k < Mul(h, w) ==> j < Mul(h, w)
    ensures k >= Mul(h, w) ==> j == k
  {
    if w > 0 && k < Mul(h, w) then
      RowBelowHeight(k, w, h);
      CellInGrid(Row(k, w), w - 1 - Col(k, w), w, h);
      Mul(Row(k, w), w) + (w - 1 - Col(k, w))
    else k
  }

  /** The vertical flip sends index k, at row r and column c, to (row h-1-r, column c). */
  lemma VFlipIndexAt(k: nat, r: nat, c: nat, w: nat, h: nat)
    requires k == Mul(r, w) + c && r < h && c < w
    ensures k < Mul(h, w) && Mul(h - 1 - r, w) + c < Mul(h, w)
    ensures VFlipIndex(k, w, h) == Mul(h - 1 - r, w) + c
  {
    RowColOfCell(r, c, w);
    CellInGrid(r, c, w, h);
    CellInGrid(h - 1 - r, c, w, h);
  }

  /** The horizontal flip sends index k, at row r and column c, to (row r, column w-1-c). */
  lemma HFlipIndexAt(k: nat, r: nat, c: nat, w: nat, h: nat)
    requires k == Mul(r, w) + c && r < h && c < w
    ensures k < Mul(h, w)
    ensures HFlipIndex(k, w, h) == Mul(r, w) + (w - 1 - c)
  {
    RowColOfCell(r, c, w);
    CellInGrid(r, c, w, h);
  }

  /** The buffer with its rows in reverse order; the tail beyond height * width stays. */
  function VFlipped<T>(s: seq<T>, w: nat, h: nat): (r: seq<T>)
    requires h * w <= |s|
    ensures |r| == |s|
  {
    MulIsProduct(h, w);
    seq(|s|, k requires 0 <= k < |s| => s[VFlipIndex(k, w, h)])
  }

  /** The buffer with every row mirrored; the tail beyond height * width stays. */
  function HFlipped<T>(s: seq<T>, w: nat, h: nat): (r: seq<T>)
    requires h * w <= |s|
    ensures |r| == |s|
  {
    MulIsProduct(h, w);
    seq(|s|, k requires 0 <= k < |s| => s[HFlipIndex(k, w, h)])
  }

  /** The whole buffer read backwards. */
  function Reversed<T>(s: seq<T>): (r: seq<T>)
    ensures |r| == |s|
  {
    seq(|s|, k requires 0 <= k < |s| => s[|s| - 1 - k])
  }

  // ---------------------------------------------------------------------
  // Properties of the corrections
  // ---------------------------------------------------------------------

  /** After a vertical flip, (row r, column c) holds the old (row height-1-r, column c). */
  lemma VFlippedAt<T>(s: seq<T>, w: nat, h: nat, r: nat, c: nat)
    requires h * w <= |s| && r < h && c < w
    ensures 0 <= r * w + c < h * w && 0 <= (h - 1 - r) * w + c < h * w
    ensures VFlipped(s, w, h)[r * w + c] == s[(h - 1 - r) * w + c]
  {
    VFlippedAtRow(s, w, h, r, c);
    MulIsProduct(r, w);
    MulIsProduct(h - 1 - r, w);
  }

  /** VFlippedAt with the row starts written as Mul. */
  lemma VFlippedAtRow<T>(s: seq<T>, w: nat, h: nat, r: nat, c: nat)
    requires h * w <= |s| && r < h && c < w
    ensures Mul(r, w) + c < h * w && Mul(h - 1 - r, w) + c < h * w
    ensures VFlipped(s, w, h)[Mul(r, w) + c] == s[Mul(h - 1 - r, w) + c]
  {
    VFlipIndexAt(Mul(r, w) + c, r, c, w, h);
    MulIsProduct(h, w);
  }

  /** A vertical flip keeps the tail beyond height * width, and the middle row of an odd height. */
  lemma VFlippedKeeps<T>(s: seq<T>, w: nat, h: nat)
    requires h * w <= |s|
    ensures forall k: nat :: h * w <= k < |s| ==> VFlipped(s, w, h)[k] == s[k]
    ensures h % 2 == 1 ==> (h / 2) * w + w <= h * w
    ensures h % 2 == 1 ==>
      forall k: nat :: (h / 2) * w <= k < (h / 2) * w + w ==> VFlipped(s, w, h)[k] == s[k]
  {
    MulIsProduct(h, w);
    MulIsProduct(h / 2, w);
    if h % 2 == 1 {
      MulBefore(h / 2, h, w);
      forall k: nat | (h / 2) * w <= k < (h / 2) * w + w
        ensures VFlipped(s, w, h)[k] == s[k]
      {
        VFlipIndexAt(k, h / 2, k - Mul(h / 2, w), w, h);
      }
    }
  }

  /** After a horizontal flip, (row r, column c) holds the old (row r, column width-1-c). */
  lemma HFlippedAt<T>(s: seq<T>, w: nat, h: nat, r: nat, c: nat)
    requires h * w <= |s| && r < h && c < w
    ensures 0 <= r * w + c < h * w && 0 <= r * w + (w - 1 - c) < h * w
    ensures HFlipped(s, w, h)[r * w + c] == s[r * w + (w - 1 - c)]
  {
    HFlippedAtRow(s, w, h, r, c);
    MulIsProduct(r, w);
  }

  /** HFlippedAt with the row start written as Mul. */
  lemma HFlippedAtRow<T>(s: seq<T>, w: nat, h: nat, r: nat, c: nat)
    requires h * w <= |s| && r < h && c < w
    ensures Mul(r, w) + c < h * w && Mul(r, w) + (w - 1 - c) < h * w
    ensures HFlipped(s, w, h)[Mul(r, w) + c] == s[Mul(r, w) + (w - 1 - c)]
  {
    HFlipIndexAt(Mul(r, w) + c, r, c, w, h);
    HFlipIndexAt(Mul(r, w) + (w - 1 - c), r, w - 1 - c, w, h);
    MulIsProduct(h, w);
  }

  /** A horizontal flip keeps the tail beyond height * width, and the middle column of an odd width. */
  lemma HFlippedKeeps<T>(s: seq<T>, w: nat, h: nat)
    requires h * w <= |s|
    ensures forall k: nat :: h * w <= k < |s| ==> HFlipped(s, w, h)[k] == s[k]
    ensures w % 2 == 1 ==>
      forall r :: 0 <= r < h ==>
        0 <= r * w + w / 2 < h * w && HFlipped(s, w, h)[r * w + w / 2] == s[r * w + w / 2]
  {
    MulIsProduct(h, w);
    if w % 2 == 1 {
      forall r | 0 <= r < h
        ensures 0 <= r * w + w / 2 < h * w && HFlipped(s, w, h)[r * w + w / 2] == s[r * w + w / 2]
      {
        HFlippedAt(s, w, h, r, w / 2);
      }
    }
  }

  /** Flipping vertically twice gives back the original buffer. */
  lemma VFlipInvolution<T>(s: seq<T>, w: nat, h: nat)
    requires h * w <= |s|
    ensures VFlipped(VFlipped(s, w, h), w, h) == s
  {
    MulIsProduct(h, w);
    forall k | 0 <= k < |s| ensures VFlipped(VFlipped(s, w, h), w, h)[k] == s[k] {
      if w > 0 && k < Mul(h, w) {
        var r, c := Row(k, w), Col(k, w);
        RowBelowHeight(k, w, h);
        VFlipIndexAt(k, r, c, w, h);
        VFlipIndexAt(VFlipIndex(k, w, h), h - 1 - r, c, w, h);
      }
    }
  }

  /** Flipping horizontally twice gives back the original buffer. */
  lemma HFlipInvolution<T>(s: seq<T>, w: nat, h: nat)
    requires h * w <= |s|
    ensures HFlipped(HFlipped(s, w, h), w, h) == s
  {
    MulIsProduct(h, w);
    forall k | 0 <= k < |s| ensures HFlipped(HFlipped(s, w, h), w, h)[k] == s[k] {
      if w > 0 && k < Mul(h, w) {
        var r, c := Row(k, w), Col(k, w);
        RowBelowHeight(k, w, h);
        HFlipIndexAt(k, r, c, w, h);
        HFlipIndexAt(HFlipIndex(k, w, h), r, w - 1 - c, w, h);
      }
    }
  }

  /** Rotating by 180 degrees twice gives back the original buffer. */
  lemma ReverseInvolution<T>(s: seq<T>)
    ensures Reversed(Reversed(s)) == s
  {
  }

  /** Reading the buffer backwards keeps the multiset of its elements. */
  lemma {:induction false} ReversePermutes<T>(s: seq<T>)
    ensures multiset(Reversed(s)) == multiset(s)
  {
    if |s| > 0 {
      var t := s[..|s| - 1];
      ReversePermutes(t);
      assert Reversed(s) == [s[|s| - 1]] + Reversed(t);
      assert s == t + [s[|s| - 1]];
    }
  }

  // ---------------------------------------------------------------------
  // Intermediate states of the in-place corrections
  // ---------------------------------------------------------------------

  /** The buffer with the w cells at y exchanged with the w cells at x. */
  function SwappedRows<T>(s: seq<T>, y: nat, x: nat, w: nat): (r: seq<T>)
    requires y + w <= x && x + w <= |s|
    ensures |r| == |s|
  {
    seq(|s|, k requires 0 <= k < |s| =>
      if y <= k < y + w then s[k - y + x] else if x <= k < x + w then s[k - x + y] else s[k])
  }

  /** The buffer with the w cells at y in reverse order. */
  function MirroredRow<T>(s: seq<T>, y: nat, w: nat): (r: seq<T>)
    requires y + w <= |s|
    ensures |r| == |s|
  {
    seq(|s|, k requires 0 <= k < |s| => if y <= k < y + w then s[2 * y + w - 1 - k] else s[k])
  }

  lemma MulNext(r: nat, r1: nat, w: nat)
    requires r1 == r + 1
    ensures Mul(r1, w) == Mul(r, w) + w
  {
  }

  lemma MulEq(r1: nat, r2: nat, w: nat)
    requires r1 == r2
    ensures Mul(r1, w) == Mul(r2, w)
  {
  }

  /** Where the vertical flip reads the cells of row i (at y) and of row h-1-i (at x). */
  lemma VFlipRowPair(w: nat, h: nat, i: nat, y: nat, x: nat)
    requires i < h / 2 && y == Mul(i, w) && x == Mul(h - (i + 1), w)
    ensures y + w <= x && x + w <= Mul(h, w)
    ensures forall k :: y <= k < y + w ==> VFlipIndex(k, w, h) == k - y + x
    ensures forall k :: x <= k < x + w ==> VFlipIndex(k, w, h) == k - x + y
  {
    MulBefore(i, h - (i + 1), w);
    MulBefore(h - (i + 1), h, w);
    forall k | y <= k < y + w ensures VFlipIndex(k, w, h) == k - y + x {
      VFlipIndexAt(k, i, k - y, w, h);
    }
    forall k | x <= k < x + w ensures VFlipIndex(k, w, h) == k - x + y {
      VFlipIndexAt(k, h - (i + 1), k - x, w, h);
    }
  }

  /** The buffer after FlipVertical's first i row exchanges. */
  ghost function VRowsSwapped<T>(s: seq<T>, w: nat, h: nat, i: nat): (r: seq<T>)
    requires Mul(h, w) <= |s| && i <= h / 2
    ensures |r| == |s|
    decreases i
  {
    if i == 0 then s
    else
      MulEq(h - i, h - ((i - 1) + 1), w);
      VFlipRowPair(w, h, i - 1, Mul(i - 1, w), Mul(h - i, w));
      SwappedRows(VRowsSwapped(s, w, h, i - 1), Mul(i - 1, w), Mul(h - i, w), w)
  }

  /** The buffer after FlipHorizontal's first i row mirrorings. */
  ghost function HRowsMirrored<T>(s: seq<T>, w: nat, h: nat, i: nat): (r: seq<T>)
    requires Mul(h, w) <= |s| && i <= h
    ensures |r| == |s|
    decreases i
  {
    if i == 0 then s
    else
      MulBefore(i - 1, h, w);
      MirroredRow(HRowsMirrored(s, w, h, i - 1), Mul(i - 1, w), w)
  }

  lemma VRowsSwappedNext<T>(s: seq<T>, w: nat, h: nat, i: nat)
    requires Mul(h, w) <= |s| && i < h / 2
    ensures Mul(i, w) + w <= Mul(h - (i + 1), w) && Mul(h - (i + 1), w) + w <= |s|
    ensures VRowsSwapped(s, w, h, i + 1)
         == SwappedRows(VRowsSwapped(s, w, h, i), Mul(i, w), Mul(h - (i + 1), w), w)
  {
    VFlipRowPair(w, h, i, Mul(i, w), Mul(h - (i + 1), w));
    MulEq(i, (i + 1) - 1, w);
    assert VRowsSwapped(s, w, h, (i + 1) - 1) == VRowsSwapped(s, w, h, i);
  }

  lemma HRowsMirroredNext<T>(s: seq<T>, w: nat, h: nat, i: nat)
    requires Mul(h, w) <= |s| && i < h
    ensures Mul(i, w) + w <= |s|
    ensures HRowsMirrored(s, w, h, i + 1) == MirroredRow(HRowsMirrored(s, w, h, i), Mul(i, w), w)
  {
    MulBefore(i, h, w);
    MulEq(i, (i + 1) - 1, w);
    assert HRowsMirrored(s, w, h, (i + 1) - 1) == HRowsMirrored(s, w, h, i);
  }

  // ---------------------------------------------------------------------
  // What the intermediate states hold
  // ---------------------------------------------------------------------

  /** A vertical flip done below index lo and from index hi up to the end of the grid. */
  ghost function VPartial<T>(s: seq<T>, w: nat, h: nat, lo: nat, hi: nat): (r: seq<T>)
    requires Mul(h, w) <= |s|
    ensures |r| == |s|
  {
    seq(|s|, k requires 0 <= k < |s| =>
      if k < lo || hi <= k < Mul(h, w) then s[VFlipIndex(k, w, h)] else s[k])
  }

  /** A horizontal flip done below index lo. */
  ghost function HPartial<T>(s: seq<T>, w: nat, h: nat, lo: nat): (r: seq<T>)
    requires Mul(h, w) <= |s|
    ensures |r| == |s|
  {
    seq(|s|, k requires 0 <= k < |s| => if k < lo then s[HFlipIndex(k, w, h)] else s[k])
  }

  /** Nothing of the vertical flip is done yet. */
  lemma VPartialNone<T>(s: seq<T>, w: nat, h: nat, hi: nat)
    requires hi == Mul(h, w) <= |s|
    ensures VPartial(s, w, h, 0, hi) == s
  {
  }

  /** Nothing of the horizontal flip is done yet. */
  lemma HPartialNone<T>(s: seq<T>, w: nat, h: nat)
    requires Mul(h, w) <= |s|
    ensures HPartial(s, w, h, 0) == s
  {
  }

  /**
    Exchanging row i (starting at y) with row h-1-i (starting at x) takes
    the vertical flip one row pair further.
  */
  lemma VFlipStep<T>(s: seq<T>, w: nat, h: nat, i: nat, y: nat, x: nat)
    requires Mul(h, w) <= |s| && i < h / 2
    requires y == Mul(i, w) && x == Mul(h - (i + 1), w)
    ensures y + w <= x && x + w <= |s|
    ensures VPartial(s, w, h, y + w, x) == SwappedRows(VPartial(s, w, h, y, x + w), y, x, w)
  {
    VFlipRowPair(w, h, i, y, x);
    var p, q := VPartial(s, w, h, y, x + w), VPartial(s, w, h, y + w, x);
    forall k | 0 <= k < |s| ensures q[k] == SwappedRows(p, y, x, w)[k] {
      if y <= k < y + w {
        assert p[k - y + x] == s[k - y + x];
      } else if x <= k < x + w {
        assert p[k - x + y] == s[k - x + y];
      }
    }
  }

  /** Mirroring row i (starting at y) takes the horizontal flip one row further. */
  lemma HFlipStep<T>(s: seq<T>, w: nat, h: nat, i: nat, y: nat)
    requires Mul(h, w) <= |s| && i < h && y == Mul(i, w)
    ensures y + w <= |s|
    ensures HPartial(s, w, h, y + w) == MirroredRow(HPartial(s, w, h, y), y, w)
  {
    MulBefore(i, h, w);
    forall k | y <= k < y + w
      ensures HFlipIndex(k, w, h) == 2 * y + w - 1 - k
    {
      HFlipIndexAt(k, i, k - y, w, h);
    }
  }

  /** After i row exchanges the first i and the last i rows are flipped. */
  lemma {:induction false} VRowsSwappedIsPartial<T>(s: seq<T>, w: nat, h: nat, i: nat)
    requires Mul(h, w) <= |s| && i <= h / 2
    ensures VRowsSwapped(s, w, h, i) == VPartial(s, w, h, Mul(i, w), Mul(h - i, w))
  {
    if i == 0 {
      MulEq(h - i, h, w);
      VPartialNone(s, w, h, Mul(h - i, w));
      assert VRowsSwapped(s, w, h, i) == s;
      assert Mul(i, w) == 0;
      assert VRowsSwapped(s, w, h, i) == VPartial(s, w, h, Mul(i, w), Mul(h - i, w));
    } else {
      var j := i - 1;
      var y, x := Mul(j, w), Mul(h - (j + 1), w);
      var p, q := VRowsSwapped(s, w, h, j), VRowsSwapped(s, w, h, i);
      VRowsSwappedIsPartial(s, w, h, j);
      VRowsSwappedNext(s, w, h, j);
      assert q == SwappedRows(p, y, x, w);
      MulNext(h - (j + 1), h - j, w);
      assert p == VPartial(s, w, h, y, x + w);
      VFlipStep(s, w, h, j, y, x);
      MulNext(j, i, w);
      MulEq(h - (j + 1), h - i, w);
      assert q == VPartial(s, w, h, y + w, x);
      assert y + w == Mul(i, w) && x == Mul(h - i, w);
      assert q == VPartial(s, w, h, Mul(i, w), Mul(h - i, w));
    }
  }

  /** After i row mirrorings the first i rows are flipped. */
  lemma {:induction false} HRowsMirroredIsPartial<T>(s: seq<T>, w: nat, h: nat, i: nat)
    requires Mul(h, w) <= |s| && i <= h
    ensures HRowsMirrored(s, w, h, i) == HPartial(s, w, h, Mul(i, w))
  {
    if i == 0 {
      HPartialNone(s, w, h);
    } else {
      var j := i - 1;
      HRowsMirroredIsPartial(s, w, h, j);
      HRowsMirroredNext(s, w, h, j);
      MulNext(j, j + 1, w);
      HFlipStep(s, w, h, j, Mul(j, w));
      MulEq(j + 1, i, w);
    }
  }

  /** Once every row pair is exchanged the vertical flip is complete. */
  lemma VFlipDone<T>(s: seq<T>, w: nat, h: nat, i: nat)
    requires h * w <= |s| && i == h / 2
    ensures Mul(h, w) <= |s|
    ensures VRowsSwapped(s, w, h, i) == VFlipped(s, w, h)
  {
    MulIsProduct(h, w);
    VRowsSwappedIsPartial(s, w, h, i);
    var y, x := Mul(i, w), Mul(h - i, w);
    if h % 2 == 1 {
      // an odd height leaves the middle row where it is
      MulNext(i, h - i, w);
      forall k | y <= k < x ensures VFlipIndex(k, w, h) == k {
        VFlipIndexAt(k, i, k - y, w, h);
      }
    }
    assert VPartial(s, w, h, y, x) == VFlipped(s, w, h);
  }

  /** Once every row is mirrored the horizontal flip is complete. */
  lemma HFlipDone<T>(s: seq<T>, w: nat, h: nat, i: nat)
    requires h * w <= |s| && i == h
    ensures Mul(h, w) <= |s|
    ensures HRowsMirrored(s, w, h, i) == HFlipped(s, w, h)
  {
    MulIsProduct(h, w);
    HRowsMirroredIsPartial(s, w, h, i);
    MulEq(i, h, w);
    assert HPartial(s, w, h, Mul(h, w)) == HFlipped(s, w, h);
  }

  // ---------------------------------------------------------------------
  // The corrections only rearrange the buffer
  // ---------------------------------------------------------------------

  /** Exchanging two elements keeps the multiset of elements. */
  lemma SwapPermutes<T>(q: seq<T>, i: nat, j: nat)
    requires i < |q| && j < |q|
    ensures multiset(q[i := q[j]][j := q[i]]) == multiset(q)
  {
  }

  lemma {:induction false} SwappedRowsPermutes<T>(p: seq<T>, y: nat, x: nat, w: nat)
    requires y + w <= x && x + w <= |p|
    ensures multiset(SwappedRows(p, y, x, w)) == multiset(p)
  {
    if w == 0 {
      forall k | 0 <= k < |p| ensures SwappedRows(p, y, x, w)[k] == p[k] {
      }
      assert SwappedRows(p, y, x, w) == p;
    } else {
      SwappedRowsPermutes(p, y, x, w - 1);
      SwappedRowsStep(p, y, x, w);
    }
  }

  /** Exchanging the last pair of cells keeps the multiset. */
  lemma SwappedRowsStep<T>(p: seq<T>, y: nat, x: nat, w: nat)
    requires 0 < w && y + w <= x && x + w <= |p|
    ensures multiset(SwappedRows(p, y, x, w)) == multiset(SwappedRows(p, y, x, w - 1))
  {
    var q := SwappedRows(p, y, x, w - 1);
    SwappedRowsPeel(p, y, x, w);
    SwapPermutes(q, y + w - 1, x + w - 1);
  }

  /** Exchanging w cells is exchanging w - 1 of them and then the last pair. */
  lemma SwappedRowsPeel<T>(p: seq<T>, y: nat, x: nat, w: nat)
    requires 0 < w && y + w <= x && x + w <= |p|
    ensures var q := SwappedRows(p, y, x, w - 1);
      SwappedRows(p, y, x, w) == q[y + w - 1 := q[x + w - 1]][x + w - 1 := q[y + w - 1]]
  {
    var q := SwappedRows(p, y, x, w - 1);
    var u := q[y + w - 1 := q[x + w - 1]][x + w - 1 := q[y + w - 1]];
    forall k | 0 <= k < |p|
      ensures SwappedRows(p, y, x, w)[k] == u[k]
    {
    }
  }

  /** Mirroring w cells is exchanging the outer two and mirroring the w-2 between them. */
  lemma MirroredRowPeel<T>(p: seq<T>, y: nat, w: nat)
    requires 2 <= w && y + w <= |p|
    ensures MirroredRow(p, y, w)
         == MirroredRow(p[y := p[y + w - 1]][y + w - 1 := p[y]], y + 1, w - 2)
  {
    var z := y + w - 1;
    var q := p[y := p[z]][z := p[y]];
    var m, n := MirroredRow(p, y, w), MirroredRow(q, y + 1, w - 2);
    forall k | 0 <= k < |p| ensures m[k] == n[k] {
      if y < k < z {
        assert n[k] == q[2 * y + w - 1 - k];
      }
    }
  }

  lemma {:induction false} MirroredRowPermutes<T>(p: seq<T>, y: nat, w: nat)
    requires y + w <= |p|
    ensures multiset(MirroredRow(p, y, w)) == multiset(p)
    decreases w
  {
    if w < 2 {
      forall k | 0 <= k < |p| ensures MirroredRow(p, y, w)[k] == p[k] {
      }
      assert MirroredRow(p, y, w) == p;
    } else {
      var z := y + w - 1;
      SwapPermutes(p, y, z);
      MirroredRowPermutes(p[y := p[z]][z := p[y]], y + 1, w - 2);
      MirroredRowPeelPermutes(p, y, w);
    }
  }

  /** Peeling the outer pair off a mirrored row keeps the multiset of what is left to mirror. */
  lemma MirroredRowPeelPermutes<T>(p: seq<T>, y: nat, w: nat)
    requires 2 <= w && y + w <= |p|
    ensures multiset(MirroredRow(p, y, w))
         == multiset(MirroredRow(p[y := p[y + w - 1]][y + w - 1 := p[y]], y + 1, w - 2))
  {
    MirroredRowPeel(p, y, w);
  }

  lemma {:induction false} VRowsSwappedPermutes<T>(s: seq<T>, w: nat, h: nat, i: nat)
    requires Mul(h, w) <= |s| && i <= h / 2
    ensures multiset(VRowsSwapped(s, w, h, i)) == multiset(s)
  {
    if i > 0 {
      var j := i - 1;
      VRowsSwappedPermutes(s, w, h, j);
      VRowsSwappedNext(s, w, h, j);
      SwappedRowsPermutes(VRowsSwapped(s, w, h, j), Mul(j, w), Mul(h - (j + 1), w), w);
    }
  }

  lemma {:induction false} HRowsMirroredPermutes<T>(s: seq<T>, w: nat, h: nat, i: nat)
    requires Mul(h, w) <= |s| && i <= h
    ensures multiset(HRowsMirrored(s, w, h, i)) == multiset(s)
  {
    if i > 0 {
      var j := i - 1;
      HRowsMirroredPermutes(s, w, h, j);
      HRowsMirroredNext(s, w, h, j);
      MirroredRowPermutes(HRowsMirrored(s, w, h, j), Mul(j, w), w);
    }
  }

  /** A vertical flip only rearranges the buffer. */
  lemma VFlipPermutes<T>(s: seq<T>, w: nat, h: nat)
    requires h * w <= |s|
    ensures multiset(VFlipped(s, w, h)) == multiset(s)
  {
    VFlipDone(s, w, h, h / 2);
    VRowsSwappedPermutes(s, w, h, h / 2);
  }

  /** A horizontal flip only rearranges the buffer. */
  lemma HFlipPermutes<T>(s: seq<T>, w: nat, h: nat)
    requires h * w <= |s|
    ensures multiset(HFlipped(s, w, h)) == multiset(s)
  {
    HFlipDone(s, w, h, h);
    HRowsMirroredPermutes(s, w, h, h);
  }

  // ---------------------------------------------------------------------
  // The corrections in place
  // ---------------------------------------------------------------------

  /** Exchanges two elements of the buffer. */
  method Swap<T>(a: array<T>, i: nat, j: nat)
    requires i < a.Length && j < a.Length
    modifies a
    ensures a[i] == old(a[j]) && a[j] == old(a[i])
    ensures forall m :: 0 <= m < a.Length && m != i && m != j ==> a[m] == old(a[m])
    ensures multiset(a[..]) == multiset(old(a[..]))
  {
    var c := a[i];
    a[i] := a[j];
    a[j] := c;
  }

  /** Exchanges the w cells starting at y with the w cells starting at x (the inner loop of FlipVertical). */
  method SwapRows<T>(a: array<T>, y: nat, x: nat, w: nat)
    requires y + w <= x && x + w <= a.Length
    modifies a
    ensures a[..] == SwappedRows(old(a[..]), y, x, w)
  {
    var j := 0;
    while j < w
      invariant 0 <= j <= w
      invariant forall k {:trigger a[k]} :: 0 <= k < a.Length ==>
        a[k] == (if y <= k < y + j then old(a[k - y + x]) else if x <= k < x + j then old(a[k - x + y]) else old(a[k]))
    {
      Swap(a, y + j, x + j);
      j := j + 1;
    }
  }

  /** Swaps row i with row height-1-i for every i < height/2 (WebCamOperation.cs, FlipVertical). */
  method FlipVertical<T>(a: array<T>, width: nat, height: nat)
    requires height * width <= a.Length
    modifies a
    ensures a[..] == VFlipped(old(a[..]), width, height)
    ensures multiset(a[..]) == multiset(old(a[..]))
  {
    ghost var s := a[..];
    MulIsProduct(height, width);
    var i := 0;
    while i < height / 2
      invariant 0 <= i <= height / 2
      invariant a[..] == VRowsSwapped(s, width, height, i)
    {
      // the source computes these row starts as i * width and (height - i - 1) * width
      var y := Mul(i, width);
      var x := Mul(height - (i + 1), width);
      VRowsSwappedNext(s, width, height, i);
      SwapRows(a, y, x, width);
      i := i + 1;
    }
    VFlipDone(s, width, height, i);
    VFlipPermutes(s, width, height);
  }

  /** Mirrors the w cells starting at y (the inner loop of FlipHorizontal). */
  method MirrorRow<T>(a: array<T>, y: nat, w: nat)
    requires y + w <= a.Length
    modifies a
    ensures a[..] == MirroredRow(old(a[..]), y, w)
  {
    var x := y + w - 1;
    var j := 0;
    while j < w / 2
      invariant 0 <= j <= w / 2
      invariant forall k {:trigger a[k]} :: 0 <= k < a.Length ==>
        a[k] == (if y <= k < y + j || x - j < k <= x then old(a[2 * y + w - 1 - k]) else old(a[k]))
    {
      assert y + j < x - j;
      Swap(a, y + j, x - j);
      j := j + 1;
    }
  }

  /** Mirrors every row, swapping column j with column width-1-j (WebCamOperation.cs, FlipHorizontal). */
  method FlipHorizontal<T>(a: array<T>, width: nat, height: nat)
    requires height * width <= a.Length
    modifies a
    ensures a[..] == HFlipped(old(a[..]), width, height)
    ensures multiset(a[..]) == multiset(old(a[..]))
  {
    ghost var s := a[..];
    MulIsProduct(height, width);
    var i := 0;
    while i < height
      invariant 0 <= i <= height
      invariant a[..] == HRowsMirrored(s, width, height, i)
    {
      // the source computes this row start as i * width
      var y := Mul(i, width);
      HRowsMirroredNext(s, width, height, i);
      MirrorRow(a, y, width);
      i := i + 1;
    }
    HFlipDone(s, width, height, i);
    HFlipPermutes(s, width, height);
  }

  /** Reverses the whole buffer; the size arguments are not used (WebCamOperation.cs, Rotate180). */
  method Rotate180<T>(a: array<T>, height: int, width: int)
    modifies a
    ensures a[..] == Reversed(old(a[..]))
    ensures multiset(a[..]) == multiset(old(a[..]))
  {
    ghost var s := a[..];
    var n := a.Length;
    var x := 0;
    while x < n / 2
      invariant 0 <= x <= n / 2
      invariant forall k {:trigger a[k]} :: 0 <= k < n ==>
        a[k] == (if k < x || k >= n - x then s[n - 1 - k] else s[k])
    {
      assert x < n - 1 - x;
      Swap(a, x, n - x - 1);
      x := x + 1;
    }
    assert a[..] == Reversed(s);
    ReversePermutes(s);
  }

  // ---------------------------------------------------------------------
  // Choosing the correction
  // ---------------------------------------------------------------------

  /** C#'s int.MinValue, FlipColors' "no correction" code. */
  const IntMin: int := -0x8000_0000

  /** Whether the correction for this camera treats the buffer as a width x height grid. */
  predicate FlipsGrid(isFrontFacing: bool, angle: int)
  {
    isFrontFacing && (angle == 0 || angle == 90 || angle == 180 || angle == 270)
  }

  /**
    The frame as the correction table leaves it: a front-facing camera at
    0 or 90 degrees is mirrored left to right, one at 180 or 270 degrees is
    mirrored top to bottom, a back-facing camera at 180 or 270 degrees is
    rotated by 180 degrees, and every other frame is left as it is.
  */
  function Oriented<T>(s: seq<T>, isFrontFacing: bool, angle: int, w: nat, h: nat): (r: seq<T>)
    requires FlipsGrid(isFrontFacing, angle) ==> h * w <= |s|
    ensures |r| == |s|
  {
    if isFrontFacing && (angle == 0 || angle == 90) then HFlipped(s, w, h)
    else if isFrontFacing && (angle == 180 || angle == 270) then VFlipped(s, w, h)
    else if !isFrontFacing && (angle == 180 || angle == 270) then Reversed(s)
    else s
  }

  /** The correction only rearranges the frame. */
  lemma OrientedPermutes<T>(s: seq<T>, isFrontFacing: bool, angle: int, w: nat, h: nat)
    requires FlipsGrid(isFrontFacing, angle) ==> h * w <= |s|
    ensures multiset(Oriented(s, isFrontFacing, angle, w, h)) == multiset(s)
  {
    if isFrontFacing && (angle == 0 || angle == 90) {
      HFlipPermutes(s, w, h);
    } else if isFrontFacing && (angle == 180 || angle == 270) {
      VFlipPermutes(s, w, h);
    } else if !isFrontFacing && (angle == 180 || angle == 270) {
      ReversePermutes(s);
    }
  }

  /** Correcting a corrected frame with the same camera settings gives back the original frame. */
  lemma OrientedInvolution<T>(s: seq<T>, isFrontFacing: bool, angle: int, w: nat, h: nat)
    requires FlipsGrid(isFrontFacing, angle) ==> h * w <= |s|
    ensures Oriented(Oriented(s, isFrontFacing, angle, w, h), isFrontFacing, angle, w, h) == s
  {
    if isFrontFacing && (angle == 0 || angle == 90) {
      HFlipInvolution(s, w, h);
    } else if isFrontFacing && (angle == 180 || angle == 270) {
      VFlipInvolution(s, w, h);
    } else if !isFrontFacing && (angle == 180 || angle == 270) {
      ReverseInvolution(s);
    }
  }

  /**
    Picks a flip code from the camera's facing and rotation angle and
    applies the matching correction (WebCamOperation.cs, FlipColors).
  */
  method FlipColors<T>(a: array<T>, width: nat, height: nat, isFrontFacing: bool, angle: int)
    requires FlipsGrid(isFrontFacing, angle) ==> height * width <= a.Length
    modifies a
    ensures a[..] == Oriented(old(a[..]), isFrontFacing, angle, width, height)
    ensures multiset(a[..]) == multiset(old(a[..]))
  {
    var flipCode := IntMin;
    if isFrontFacing {
      if angle == 0 {
        flipCode := 1;
      } else if angle == 90 {
        flipCode := 1;
      }
      if angle == 180 {
        flipCode := 0;
      } else if angle == 270 {
        flipCode := 0;
      }
    } else {
      if angle == 180 {
        flipCode := -1;
      } else if angle == 270 {
        flipCode := -1;
      }
    }
    if flipCode > IntMin {
      if flipCode == 0 {
        FlipVertical(a, width, height);
      } else if flipCode == 1 {
        FlipHorizontal(a, width, height);
      } else if flipCode < 0 {
        Rotate180(a, height, width);
      }
    }
  }

  // ---------------------------------------------------------------------
  // Regions of the frame
  // ---------------------------------------------------------------------

  /**
    The origin of a width x height region, given by its top-left corner
    (x, y), in the texture's own convention whose (0, 0) is the opposite
    corner of a texWidth x texHeight frame.
  */
  function OppositeOrigin(texWidth: int, texHeight: int, x: int, y: int, width: int, height: int): (int, int)
  {
    (texWidth - width - x, texHeight - height - y)
  }

  /** A region lies in the frame in one convention exactly when it does in the other. */
  lemma OppositeOriginInFrame(texWidth: int, texHeight: int, x: int, y: int, width: int, height: int)
    requires 0 <= width && 0 <= height
    ensures var (ox, oy) := OppositeOrigin(texWidth, texHeight, x, y, width, height);
      (0 <= x && x + width <= texWidth && 0 <= y && y + height <= texHeight)
      <==> (0 <= ox && ox + width <= texWidth && 0 <= oy && oy + height <= texHeight)
  {
  }

  /** Converting twice gives back the region's origin. */
  lemma OppositeOriginInvolution(texWidth: int, texHeight: int, x: int, y: int, width: int, height: int)
    ensures var (ox, oy) := OppositeOrigin(texWidth, texHeight, x, y, width, height);
      OppositeOrigin(texWidth, texHeight, ox, oy, width, height) == (x, y)
  {
  }

  // ---------------------------------------------------------------------
  // The camera's frame buffer
  // ---------------------------------------------------------------------

  /**
    The camera side of the detector (WebCamOperation.cs): the colors buffer
    that is reused from frame to frame, the size of the camera's texture and
    the settings that choose the correction. What the camera currently shows
    is passed to the methods as a value.
  */
  class WebCamOperation<T(0)> {
    var colors: array?<T>
    var texWidth: nat
    var texHeight: nat
    var isFrontFacing: bool
    var videoRotationAngle: int
    var adjustPixelsDirection: bool

    /** A camera with no buffer allocated yet. */
    constructor (texWidth: nat, texHeight: nat, isFrontFacing: bool, videoRotationAngle: int, adjustPixelsDirection: bool)
      ensures colors == null
      ensures this.texWidth == texWidth && this.texHeight == texHeight
      ensures this.isFrontFacing == isFrontFacing && this.videoRotationAngle == videoRotationAngle
      ensures this.adjustPixelsDirection == adjustPixelsDirection
    {
      colors := null;
      this.texWidth := texWidth;
      this.texHeight := texHeight;
      this.isFrontFacing := isFrontFacing;
      this.videoRotationAngle := videoRotationAngle;
      this.adjustPixelsDirection := adjustPixelsDirection;
    }

    /**
      Once the camera is up, keeps a buffer of exactly one frame: the old one
      when it has the right length, a new one otherwise (WebCamOperation.cs, OnInited).
    */
    method OnInited()
      modifies this
      ensures colors != null && colors.Length == texWidth * texHeight
      ensures old(colors) != null && old(colors).Length == texWidth * texHeight ==> colors == old(colors)
      ensures old(colors) == null || old(colors).Length != texWidth * texHeight ==> fresh(colors)
      ensures texWidth == old(texWidth) && texHeight == old(texHeight)
      ensures isFrontFacing == old(isFrontFacing) && videoRotationAngle == old(videoRotationAngle)
      ensures adjustPixelsDirection == old(adjustPixelsDirection)
    {
      if colors == null || colors.Length != texWidth * texHeight {
        colors := new T[texWidth * texHeight];
      }
    }

    /**
      Copies the current frame into the buffer and corrects its orientation
      when adjustPixelsDirection is set (WebCamOperation.cs, GetColors()).
    */
    method GetColors(frame: seq<T>) returns (r: array<T>)
      requires colors != null && colors.Length == texWidth * texHeight && |frame| == colors.Length
      modifies colors
      ensures r == colors
      ensures r[..] == if adjustPixelsDirection
        then Oriented(frame, isFrontFacing, videoRotationAngle, texWidth, texHeight)
        else frame
    {
      r := colors;
      var k := 0;
      while k < r.Length
        invariant 0 <= k <= r.Length
        invariant forall m :: 0 <= m < k ==> r[m] == frame[m]
      {
        r[k] := frame[k];
        k := k + 1;
      }
      assert r[..] == frame;
      if adjustPixelsDirection {
        FlipColors(r, texWidth, texHeight, isFrontFacing, videoRotationAngle);
      }
    }

    /**
      Reads the width x height region whose top-left corner is (x, y): the
      texture is asked for the region at the opposite-corner origin, and the
      result is corrected like a whole frame (WebCamOperation.cs, GetColors(x, y, width, height)).
      readPixels is what the texture answers for an origin and a size.
    */
    method GetRegionColors(readPixels: (int, int, nat, nat) -> seq<T>, x: int, y: int, width: nat, height: nat)
      returns (r: array<T>)
      requires var (ox, oy) := OppositeOrigin(texWidth, texHeight, x, y, width, height);
        |readPixels(ox, oy, width, height)| == width * height
      ensures fresh(r)
      ensures var (ox, oy) := OppositeOrigin(texWidth, texHeight, x, y, width, height);
        r[..] == if adjustPixelsDirection
          then Oriented(readPixels(ox, oy, width, height), isFrontFacing, videoRotationAngle, width, height)
          else readPixels(ox, oy, width, height)
    {
      var xRightBottom := texWidth - width - x;
      var yRightBottom := texHeight - height - y;
      var pixels := readPixels(xRightBottom, yRightBottom, width, height);
      r := new T[|pixels|](k requires 0 <= k < |pixels| => pixels[k]);
      assert r[..] == pixels;
      if adjustPixelsDirection {
        FlipColors(r, width, height, isFrontFacing, videoRotationAngle);
      }
    }
  }
}
