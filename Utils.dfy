/** Index arithmetic of src/utils.ts: a cell id is `x + y * cols` (row-major),
    and `indexToCoords` maps an id back to its column and row. */
module Utils {

  datatype Coords = Coords(x: int, y: int)

  /** `Math.floor(a / b)` for a positive divisor: Dafny's `/` already rounds
      towards minus infinity when the divisor is positive. */
  function FloorDiv(a: int, b: int): int
    requires b > 0
  {
    a / b
  }

  /** JavaScript's `%`: the remainder takes the sign of the dividend. */
  function JsRem(a: int, b: int): (r: int)
    requires b > 0
    ensures a >= 0 ==> 0 <= r < b
    ensures a < 0 ==> -b < r <= 0
    ensures (a - r) % b == 0
  {
    if a >= 0 then
      var q := a / b;
      MultipleRem(q, b);
      assert a - a % b == q * b;
      a % b
    else
      var q := (-a) / b;
      MultipleRem(-q, b);
      assert a + (-a) % b == (-q) * b;
      -((-a) % b)
  }

  /** A multiple of `b` leaves no remainder. */
  lemma MultipleRem(k: int, b: int)
    requires b > 0
    ensures (k * b) % b == 0
  {
    var x := k * b;
    var d := k - x / b;
    assert d * b == x % b;
    if d >= 1 {
      MulMonotone(1, d, b);
    } else if d <= -1 {
      MulMonotone(d, -1, b);
    }
  }

  /** `indexToCoords(index, cols)`: row by floor division, column by remainder. */
  function IndexToCoords(index: int, cols: int): (c: Coords)
    requires cols > 0
    ensures index >= 0 ==> 0 <= c.x < cols && 0 <= c.y && c.x + c.y * cols == index
    ensures index < 0 ==> c.y < 0
  {
    DivModFacts(index, cols);
    Coords(JsRem(index, cols), FloorDiv(index, cols))
  }

  lemma DivModFacts(index: int, cols: int)
    requires cols > 0
    ensures index >= 0 ==> index % cols + (index / cols) * cols == index && index / cols >= 0
    ensures index < 0 ==> index / cols < 0
  {
  }


  /** Multiplying by a non-negative factor keeps the order: the fact the
      lemmas below need about rows times columns. */
  lemma MulMonotone(a: int, b: int, c: int)
    requires a <= b && c >= 0
    ensures a * c <= b * c
  {
  }

  /** An id below `rows * cols` lands on a row of the board. */
  lemma IndexInBoard(index: int, rows: int, cols: int)
    requires cols > 0 && 0 <= index < rows * cols
    ensures var c := IndexToCoords(index, cols); 0 <= c.x < cols && 0 <= c.y < rows
  {
    var c := IndexToCoords(index, cols);
    if c.y >= rows {
      MulMonotone(rows, c.y, cols);
      assert false;
    }
  }

  /** `indexToCoords` inverts the id assignment of `initBoard`. */
  lemma CoordsOfId(x: int, y: int, cols: int)
    requires 0 <= x < cols && 0 <= y
    ensures IndexToCoords(x + y * cols, cols) == Coords(x, y)
  {
    var c := IndexToCoords(x + y * cols, cols);
    assert c.x + c.y * cols == x + y * cols && 0 <= c.x < cols;
    assert c.y == y by {
      if c.y < y {
        MulMonotone(c.y + 1, y, cols);
      } else if c.y > y {
        MulMonotone(y + 1, c.y, cols);
      }
    }
  }

  /** The id of a cell of a `rows` by `cols` board is below `rows * cols`. */
  lemma IdInRange(x: int, y: int, rows: int, cols: int)
    requires 0 <= x < cols && 0 <= y < rows
    ensures 0 <= x + y * cols < rows * cols
  {
    MulMonotone(y + 1, rows, cols);
  }

  /** An id lies below `rows * cols` exactly when `indexToCoords` maps it
      onto the board. */
  lemma IndexOnBoard(index: int, rows: int, cols: int)
    requires cols > 0
    ensures var c := IndexToCoords(index, cols);
      0 <= index < rows * cols <==> 0 <= c.x < cols && 0 <= c.y < rows
  {
    var c := IndexToCoords(index, cols);
    if 0 <= index < rows * cols {
      IndexInBoard(index, rows, cols);
    } else if 0 <= c.x < cols && 0 <= c.y < rows {
      IdInRange(c.x, c.y, rows, cols);
    }
  }
}
