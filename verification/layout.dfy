/** Row-major storage: position (row, col) of rows `width` cells wide. */
module Layout {
  import opened Common

  /** `row * width + col` */
  function At(row: nat, col: nat, width: nat): nat
    decreases row
  {
    if row == 0 then col else width + At(row - 1, col, width)
  }

  lemma {:induction false} AtIsLinear(row: nat, col: nat, width: nat)
    ensures At(row, col, width) == row * width + col
    decreases row
  {
    if row > 0 {
      AtIsLinear(row - 1, col, width);
      assert row * width == (row - 1) * width + width;
    }
  }

  lemma {:induction false} RowStart(row: nat, col: nat, width: nat)
    ensures At(row, col, width) == At(row, 0, width) + col
    decreases row
  {
    if row > 0 {
      RowStart(row - 1, col, width);
    }
  }

  lemma AtInside(row: nat, col: nat, rows: nat, width: nat)
    requires row < rows && col < width
    ensures At(row, col, width) < rows * width
  {
    AtIsLinear(row, col, width);
    MulAtLeast(rows - row, width);
    assert rows * width == row * width + (rows - row) * width;
  }

  /** Every position inside has its own index inside rows * width. */
  lemma AtIsInjective(rows: nat, width: nat)
    ensures forall r: nat, c: nat {:trigger At(r, c, width)} :: r < rows && c < width ==> At(r, c, width) < rows * width
    ensures forall r: nat, c: nat, r': nat, c': nat {:trigger At(r, c, width), At(r', c', width)} ::
      c < width && c' < width && At(r, c, width) == At(r', c', width) ==> r == r' && c == c'
  {
    forall r: nat, c: nat | r < rows && c < width ensures At(r, c, width) < rows * width {
      AtInside(r, c, rows, width);
    }
    forall r: nat, c: nat, r': nat, c': nat | c < width && c' < width && At(r, c, width) == At(r', c', width)
      ensures r == r' && c == c'
    {
      AtIsLinear(r, c, width);
      AtIsLinear(r', c', width);
      SplitUnique(width, r, c, r', c');
    }
  }
}
