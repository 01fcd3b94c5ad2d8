/** Grid geometry: the square cell size, where grid slot i sits on the canvas, and which
    slot a canvas pixel belongs to. Slots are filled in row-major order. */
module Layout {
  import opened Pixels

  /** The running maximum of `max(img.size)` over the images, starting from 0. Every
      image fits in a cell of this side, and some image reaches it. */
  function CellSize(images: seq<Image>): (cell: nat)
    ensures forall i :: 0 <= i < |images| ==> images[i].width <= cell && images[i].height <= cell
    ensures |images| == 0 ==> cell == 0
    ensures |images| > 0 ==> exists i :: 0 <= i < |images| && images[i].Side() == cell
  {
    if |images| == 0 then 0
    else
      var rest := CellSize(images[..|images| - 1]);
      var last := images[|images| - 1].Side();
      if rest < last then last else rest
  }

  /** Enlarging one image's larger side never shrinks the cell. */
  lemma CellSizeMonotone(images: seq<Image>, j: nat, bigger: Image)
    requires j < |images| && images[j].Side() <= bigger.Side()
    ensures CellSize(images) <= CellSize(images[j := bigger])
  {
    var m :| 0 <= m < |images| && images[m].Side() == CellSize(images);
    var after := images[j := bigger];
    assert after[j] == bigger;
    if m != j {
      assert after[m] == images[m];
    }
  }

  /** The cell size depends only on which images there are, not on their order: the
      sort by path decides placement, never the cell. */
  lemma CellSizeOrderFree(images: seq<Image>, reordered: seq<Image>)
    requires multiset(images) == multiset(reordered)
    ensures CellSize(images) == CellSize(reordered)
  {
    CellSizeBelow(images, reordered);
    CellSizeBelow(reordered, images);
  }

  /** When every image of `a` also occurs in `b`, the cell of `a` is no larger than the
      cell of `b`. */
  lemma CellSizeBelow(a: seq<Image>, b: seq<Image>)
    requires multiset(a) <= multiset(b)
    ensures CellSize(a) <= CellSize(b)
  {
    if |a| > 0 {
      var m :| 0 <= m < |a| && a[m].Side() == CellSize(a);
      assert a[m] in multiset(b);
      var k :| 0 <= k < |b| && b[k] == a[m];
    }
  }

  /** Whether (x, y) lies in the w-by-h rectangle whose top-left corner is (left, top). */
  predicate Covers(left: nat, top: nat, w: nat, h: nat, x: nat, y: nat) {
    left <= x < left + w && top <= y < top + h
  }

  /** `x_pos`: the left edge of slot i. */
  function XPos(i: nat, cols: nat, cell: nat): (left: nat)
    requires cols > 0
    ensures left + cell <= cols * cell
    ensures i < cols ==> left == i * cell
    ensures cols == 1 ==> left == 0
  {
    ColumnFits(i % cols, cols, cell);
    (i % cols) * cell
  }

  /** A column below `cols` ends inside a canvas `cols` cells wide. */
  lemma ColumnFits(c: nat, cols: nat, cell: nat)
    requires c < cols
    ensures c * cell + cell <= cols * cell
  {
    assert c * cell + cell == (c + 1) * cell;
    MulMonotone(c + 1, cols, cell);
  }

  /** `y_pos`: the top edge of slot i. */
  function YPos(i: nat, cols: nat, cell: nat): (top: nat)
    requires cols > 0
    ensures i < cols ==> top == 0
    ensures cols == 1 ==> top == i * cell
  {
    (i / cols) * cell
  }

  /** Whether canvas pixel (x, y) lies in the cell-by-cell square of slot i. */
  predicate InSlot(i: nat, cols: nat, cell: nat, x: nat, y: nat)
    requires cols > 0
  {
    Covers(XPos(i, cols, cell), YPos(i, cols, cell), cell, cell, x, y)
  }

  /** The slot whose square holds canvas pixel (x, y). */
  function SlotOf(x: nat, y: nat, cols: nat, cell: nat): nat
    requires cell > 0
  {
    (y / cell) * cols + x / cell
  }

  /** A pixel index below a product of a natural number and an integer shows both are positive. */
  lemma FactorsPositive(a: nat, b: int, x: nat)
    requires x < a * b
    ensures a > 0 && b > 0
  {
    if b <= 0 {
      MulMonotone(b, 0, a);
    }
  }

  /** Multiplying by a natural number keeps order. */
  lemma MulMonotone(p: int, q: int, c: nat)
    requires p <= q
    ensures p * c <= q * c
  {
  }

  /** Products by the same positive number are ordered like their other factors. */
  lemma MulCancel(p: int, q: int, c: nat)
    requires c > 0 && p * c < q * c
    ensures p < q
  {
    if q <= p {
      MulMonotone(q, p, c);
    }
  }

  /** Integer division by a positive c, when x lies in [k*c, k*c + c). */
  lemma DivBetween(x: nat, k: nat, c: nat)
    requires c > 0 && k * c <= x < k * c + c
    ensures x / c == k && x % c == x - k * c
  {
    var q, r := x / c, x % c;
    assert x == q * c + r && 0 <= r < c;
    MulCancel(q, k + 1, c);
    MulCancel(k, q + 1, c);
  }

  /** The quotient of a pixel coordinate below n cells is below n. */
  lemma QuotientBelow(x: nat, n: nat, c: nat)
    requires c > 0 && x < c * n
    ensures x / c < n
  {
    assert (x / c) * c <= x;
    MulCancel(x / c, n, c);
  }

  /** Slot i lies inside the canvas whenever i is below the grid's capacity. */
  lemma SlotInsideCanvas(i: nat, rows: nat, cols: nat, cell: nat)
    requires cols > 0 && i < rows * cols
    ensures XPos(i, cols, cell) + cell <= cell * cols
    ensures YPos(i, cols, cell) + cell <= cell * rows
  {
    var q, m := i / cols, i % cols;
    QuotientBelow(i, rows, cols);
    MulMonotone(m + 1, cols, cell);
    MulMonotone(q + 1, rows, cell);
  }

  /** A pixel in slot i's square is attributed to slot i, and its offset inside the
      square is its remainder modulo the cell size. */
  lemma SlotOfCovered(i: nat, cols: nat, cell: nat, x: nat, y: nat)
    requires cols > 0 && cell > 0 && InSlot(i, cols, cell, x, y)
    ensures SlotOf(x, y, cols, cell) == i
    ensures x % cell == x - XPos(i, cols, cell) && y % cell == y - YPos(i, cols, cell)
  {
    DivBetween(x, i % cols, cell);
    DivBetween(y, i / cols, cell);
    assert i == (i / cols) * cols + i % cols;
  }

  /** Every canvas pixel lies in the square of its own slot, and that slot is below the
      grid's capacity. */
  lemma CoveringSlot(x: nat, y: nat, rows: nat, cols: nat, cell: nat)
    requires cols > 0 && cell > 0 && x < cell * cols && y < cell * rows
    ensures SlotOf(x, y, cols, cell) < rows * cols
    ensures InSlot(SlotOf(x, y, cols, cell), cols, cell, x, y)
  {
    var q, m := y / cell, x / cell;
    QuotientBelow(x, cols, cell);
    QuotientBelow(y, rows, cell);
    var i := q * cols + m;
    assert i == SlotOf(x, y, cols, cell);
    MulMonotone(q + 1, rows, cols);
    assert i < (q + 1) * cols;
    DivBetween(i, q, cols);
    RemainderSplit(x, cell);
    RemainderSplit(y, cell);
  }

  /** A coordinate lies in the cell its quotient names. */
  lemma RemainderSplit(x: nat, c: nat)
    requires c > 0
    ensures (x / c) * c <= x < (x / c) * c + c
  {
  }

  /** On the canvas, a pixel lies in slot i's square exactly when i is its slot. */
  lemma InSlotIff(i: nat, x: nat, y: nat, rows: nat, cols: nat, cell: nat)
    requires cols > 0 && cell > 0 && x < cell * cols && y < cell * rows
    ensures InSlot(i, cols, cell, x, y) <==> SlotOf(x, y, cols, cell) == i
  {
    if InSlot(i, cols, cell, x, y) {
      SlotOfCovered(i, cols, cell, x, y);
    } else {
      CoveringSlot(x, y, rows, cols, cell);
    }
  }

  /** Distinct slots have disjoint squares. */
  lemma SlotsDisjoint(i: nat, j: nat, cols: nat, cell: nat, x: nat, y: nat)
    requires cols > 0 && i != j
    ensures !(InSlot(i, cols, cell, x, y) && InSlot(j, cols, cell, x, y))
  {
    if InSlot(i, cols, cell, x, y) && InSlot(j, cols, cell, x, y) {
      SlotOfCovered(i, cols, cell, x, y);
      SlotOfCovered(j, cols, cell, x, y);
    }
  }

  /** Three images on a 2-by-2 grid land at (0, 0), (cell, 0) and (0, cell). */
  lemma RowMajorExample(cell: nat)
    ensures XPos(0, 2, cell) == 0 && YPos(0, 2, cell) == 0
    ensures XPos(1, 2, cell) == cell && YPos(1, 2, cell) == 0
    ensures XPos(2, 2, cell) == 0 && YPos(2, 2, cell) == cell
  {
  }
}
