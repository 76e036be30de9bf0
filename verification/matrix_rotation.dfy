/**
 * Matrix ring rotation (python/matrix_rotation.py): every ring of a
 * rectangular matrix is rotated `r` steps counter-clockwise, the outermost
 * ring first, while a ring still has two distinct rows and two distinct
 * columns. Reads come from a copy of the input, so each cell receives the
 * value `r` steps behind it on its ring.
 *
 * The walk along a ring is numbered from its top-left corner: down the left
 * column, right along the bottom, up the right column and left along the
 * top. `Pos` and `Coord` translate between cells and these numbers, and one
 * step of `Next` adds one modulo the ring's length. `Mod` is Python's `%`
 * on non-negative numbers.
 */
module MatrixRotation {
  import opened Wrappers
  import opened MinMax

  datatype Cell = Cell(row: int, col: int)

  /** `MatrixRing`: the four bounds of a ring. */
  datatype Ring = Ring(rowMin: int, colMin: int, rowMax: int, colMax: int)

  /** A ring the rotation processes: two distinct rows and two distinct columns. */
  predicate Proper(ring: Ring)
  {
    ring.rowMin < ring.rowMax && ring.colMin < ring.colMax
  }

  /** The cells of the ring: inside its bounds and on one of its four sides. */
  predicate OnRing(ring: Ring, p: Cell)
  {
    && ring.rowMin <= p.row <= ring.rowMax
    && ring.colMin <= p.col <= ring.colMax
    && (p.row == ring.rowMin || p.row == ring.rowMax || p.col == ring.colMin || p.col == ring.colMax)
  }

  /** `num_elements`: twice the rows plus twice the columns between the corners. */
  function NumElements(ring: Ring): (n: int)
    requires Proper(ring)
    ensures n == 2 * (ring.rowMax - ring.rowMin) + 2 * (ring.colMax - ring.colMin) && n >= 4
  {
    var rows := ring.rowMax - ring.rowMin + 1;
    var cols := ring.colMax - ring.colMin + 1;
    rows * 2 + (cols - 2) * 2
  }

  /** The cell numbered `i` on the counter-clockwise walk from the top-left corner. */
  function Coord(ring: Ring, i: int): (p: Cell)
    requires Proper(ring) && 0 <= i < NumElements(ring)
    ensures OnRing(ring, p)
  {
    var h := ring.rowMax - ring.rowMin;
    var w := ring.colMax - ring.colMin;
    if i < h then Cell(ring.rowMin + i, ring.colMin)
    else if i < h + w then Cell(ring.rowMax, ring.colMin + (i - h))
    else if i < 2 * h + w then Cell(ring.rowMax - (i - h - w), ring.colMax)
    else Cell(ring.rowMin, ring.colMax - (i - 2 * h - w))
  }

  /** The number of a ring cell on the walk. */
  function Pos(ring: Ring, p: Cell): (i: nat)
    requires Proper(ring) && OnRing(ring, p)
    ensures i < NumElements(ring)
  {
    var h := ring.rowMax - ring.rowMin;
    var w := ring.colMax - ring.colMin;
    if p.col == ring.colMin && p.row < ring.rowMax then p.row - ring.rowMin
    else if p.row == ring.rowMax && p.col < ring.colMax then h + (p.col - ring.colMin)
    else if p.col == ring.colMax && p.row > ring.rowMin then h + w + (ring.rowMax - p.row)
    else 2 * h + w + (ring.colMax - p.col)
  }

  /** Numbering is one-to-one: distinct numbers name distinct cells. */
  lemma CoordInjective(ring: Ring, i: int, j: int)
    requires Proper(ring) && 0 <= i < NumElements(ring) && 0 <= j < NumElements(ring)
    ensures Coord(ring, i) == Coord(ring, j) ==> i == j
  {
    if Coord(ring, i) == Coord(ring, j) {
      PosOfCoord(ring, i);
      PosOfCoord(ring, j);
    }
  }

  /** `Coord` undoes `Pos`. */
  lemma CoordOfPos(ring: Ring, p: Cell)
    requires Proper(ring) && OnRing(ring, p)
    ensures Coord(ring, Pos(ring, p)) == p
  {
  }

  /** `Pos` undoes `Coord`. */
  lemma PosOfCoord(ring: Ring, i: int)
    requires Proper(ring) && 0 <= i < NumElements(ring)
    ensures Pos(ring, Coord(ring, i)) == i
  {
    var h := ring.rowMax - ring.rowMin;
    var w := ring.colMax - ring.colMin;
    if i < h {
    } else if i < h + w {
    } else if i < 2 * h + w {
    } else {
    }
  }

  /** `x % n` for non-negative `x`, by repeated subtraction. */
  function Mod(x: nat, n: nat): (r: nat)
    requires n > 0
    ensures r < n
    decreases x
  {
    if x < n then x else Mod(x - n, n)
  }

  /** The walk number after `i`, wrapping from the last back to 0. */
  function Succ(i: nat, n: nat): nat
  {
    if i + 1 == n then 0 else i + 1
  }

  /** `x` brought back into `0..n` by at most one subtraction. */
  function Wrap(x: nat, n: nat): nat
  {
    if x < n then x else x - n
  }

  lemma {:induction false} ModSucc(y: nat, n: nat)
    requires n > 0
    ensures Succ(Mod(y, n), n) == Mod(y + 1, n)
    decreases y
  {
    if y >= n {
      ModSucc(y - n, n);
      assert Mod(y + 1, n) == Mod(y + 1 - n, n);
    } else if y + 1 == n {
      assert Mod(y + 1, n) == Mod(0, n);
    }
  }

  /** `getNextCoordinate`: one counter-clockwise step, the next number on the walk. */
  function Next(ring: Ring, p: Cell): (q: Cell)
    requires Proper(ring) && OnRing(ring, p)
    ensures OnRing(ring, q) && Pos(ring, q) == Succ(Pos(ring, p), NumElements(ring))
  {
    var q := if p.col == ring.colMin && p.row < ring.rowMax then Cell(p.row + 1, p.col)
      else if p.row == ring.rowMax && p.col < ring.colMax then Cell(p.row, p.col + 1)
      else if p.col == ring.colMax && p.row > ring.rowMin then Cell(p.row - 1, p.col)
      else Cell(p.row, p.col - 1);
    assert OnRing(ring, q);
    q
  }

  /** `n` steps of `getNextCoordinate` from `p`: `n` further along the walk, modulo its length. */
  function Iterate(ring: Ring, p: Cell, n: nat): (q: Cell)
    requires Proper(ring) && OnRing(ring, p)
    ensures OnRing(ring, q) && Pos(ring, q) == Mod(Pos(ring, p) + n, NumElements(ring))
  {
    if n == 0 then p
    else
      var q0 := Iterate(ring, p, n - 1);
      ModSucc(Pos(ring, p) + n - 1, NumElements(ring));
      Next(ring, q0)
  }

  /** One step from walk cell `i` reaches the walk cell after it. */
  lemma Advance(ring: Ring, i: nat)
    requires Proper(ring) && i < NumElements(ring)
    ensures Next(ring, Coord(ring, i)) == Coord(ring, Succ(i, NumElements(ring)))
  {
    var q := Next(ring, Coord(ring, i));
    PosOfCoord(ring, i);
    CoordOfPos(ring, q);
  }

  function TopLeft(ring: Ring): Cell
  {
    Cell(ring.rowMin, ring.colMin)
  }

  /**
   * The walk from the top-left corner visits every ring cell exactly once in
   * `num_elements` steps and is then back where it started.
   */
  lemma Orbit(ring: Ring)
    requires Proper(ring)
    ensures Iterate(ring, TopLeft(ring), NumElements(ring)) == TopLeft(ring)
    ensures forall i, j :: 0 <= i < j < NumElements(ring) ==> Iterate(ring, TopLeft(ring), i) != Iterate(ring, TopLeft(ring), j)
    ensures forall p :: OnRing(ring, p) ==> Iterate(ring, TopLeft(ring), Pos(ring, p)) == p
  {
    var n := NumElements(ring);
    assert Pos(ring, TopLeft(ring)) == 0;
    assert Mod(n, n) == Mod(0, n);
    assert Pos(ring, Iterate(ring, TopLeft(ring), n)) == 0;
    forall i, j | 0 <= i < j < n
      ensures Iterate(ring, TopLeft(ring), i) != Iterate(ring, TopLeft(ring), j)
    {
      assert Pos(ring, Iterate(ring, TopLeft(ring), i)) == i;
    }
    forall p | OnRing(ring, p)
      ensures Iterate(ring, TopLeft(ring), Pos(ring, p)) == p
    {
      var q := Iterate(ring, TopLeft(ring), Pos(ring, p));
      CoordOfPos(ring, p);
      CoordOfPos(ring, q);
    }
  }

  // ---------------------------------------------------------------------------
  // Rotation
  // ---------------------------------------------------------------------------

  /** A `rows` by `cols` matrix. */
  predicate Shape(m: seq<seq<int>>, rows: nat, cols: nat)
  {
    |m| == rows && forall a :: 0 <= a < |m| ==> |m[a]| == cols
  }

  /** A non-empty rectangular matrix and a ring inside it. */
  predicate Fits(ring: Ring, orig: seq<seq<int>>)
  {
    && Proper(ring) && |orig| > 0 && Shape(orig, |orig|, |orig[0]|)
    && 0 <= ring.rowMin && ring.rowMax < |orig| && 0 <= ring.colMin && ring.colMax < |orig[0]|
  }

  /** The walk number `rr` steps behind `x`. */
  function Back(x: nat, rr: nat, n: nat): (y: nat)
    requires x < n && rr < n
    ensures y < n && Wrap(y + rr, n) == x
  {
    if x >= rr then x - rr else x + n - rr
  }

  /**
   * Walk cell `i`'s value has reached walk cell `i + rr` if `i < k`;
   * otherwise that cell still holds what it held before.
   */
  predicate Moved(ring: Ring, m0: seq<seq<int>>, orig: seq<seq<int>>, m: seq<seq<int>>, rr: nat, k: int, i: int)
    requires Fits(ring, orig) && Shape(m0, |orig|, |orig[0]|) && Shape(m, |orig|, |orig[0]|)
    requires rr < NumElements(ring) && 0 <= i < NumElements(ring)
  {
    var q := Coord(ring, Wrap(i + rr, NumElements(ring)));
    var p := Coord(ring, i);
    m[q.row][q.col] == if i < k then orig[p.row][p.col] else m0[q.row][q.col]
  }

  /** The first `k` walk cells of the copy `orig` have been moved `rr` steps along; nothing off the ring changed. */
  ghost predicate RotatedUpTo(ring: Ring, m0: seq<seq<int>>, orig: seq<seq<int>>, m: seq<seq<int>>, rr: nat, k: int)
    requires Fits(ring, orig) && rr < NumElements(ring) && Shape(m0, |orig|, |orig[0]|)
  {
    && Shape(m, |orig|, |orig[0]|)
    && (forall a, b :: Kept(ring, m0, m, a, b))
    && (forall i :: 0 <= i < NumElements(ring) ==> Moved(ring, m0, orig, m, rr, k, i))
  }

  /** Cell `(a, b)` of `m`, if it exists and lies off the ring, still holds what it held in `m0`. */
  predicate Kept(ring: Ring, m0: seq<seq<int>>, m: seq<seq<int>>, a: int, b: int)
  {
    0 <= a < |m| && 0 <= b < |m[a]| && 0 <= a < |m0| && 0 <= b < |m0[a]| && !OnRing(ring, Cell(a, b)) ==> m[a][b] == m0[a][b]
  }

  /** Distinct walk cells have distinct destinations. */
  lemma DistinctTargets(ring: Ring, rr: nat, i: nat, k: nat)
    requires Proper(ring) && rr < NumElements(ring) && i < NumElements(ring) && k < NumElements(ring) && i != k
    ensures Coord(ring, Wrap(i + rr, NumElements(ring))) != Coord(ring, Wrap(k + rr, NumElements(ring)))
  {
    CoordInjective(ring, Wrap(i + rr, NumElements(ring)), Wrap(k + rr, NumElements(ring)));
  }

  /** Writing the value of walk cell `k` at walk cell `k + rr` extends the moved part by one. */
  lemma WriteStep(ring: Ring, m0: seq<seq<int>>, orig: seq<seq<int>>, m: seq<seq<int>>, rr: nat, k: nat)
    requires Fits(ring, orig) && rr < NumElements(ring) && Shape(m0, |orig|, |orig[0]|) && k < NumElements(ring)
    requires RotatedUpTo(ring, m0, orig, m, rr, k)
    ensures var q := Coord(ring, Wrap(k + rr, NumElements(ring)));
      var p := Coord(ring, k);
      RotatedUpTo(ring, m0, orig, m[q.row := m[q.row][q.col := orig[p.row][p.col]]], rr, k + 1)
  {
    var n := NumElements(ring);
    var q := Coord(ring, Wrap(k + rr, n));
    var p := Coord(ring, k);
    var m' := m[q.row := m[q.row][q.col := orig[p.row][p.col]]];
    var k1 := k + 1;
    forall a, b
      ensures Kept(ring, m0, m', a, b)
    {
      assert Kept(ring, m0, m, a, b);
    }
    forall i | 0 <= i < n
      ensures Moved(ring, m0, orig, m', rr, k1, i)
    {
      if i != k {
        assert Moved(ring, m0, orig, m, rr, k, i);
        DistinctTargets(ring, rr, i, k);
      }
    }
  }

  /** The loop state before the first copy: nothing moved yet, both cursors at their start. */
  lemma NothingWritten(ring: Ring, m0: seq<seq<int>>, orig: seq<seq<int>>, rr: nat)
    requires Fits(ring, orig) && Shape(m0, |orig|, |orig[0]|) && rr < NumElements(ring)
    ensures RotatedUpTo(ring, m0, orig, m0, rr, 0)
    ensures Coord(ring, 0) == TopLeft(ring)
  {
  }

  /**
   * `rotateRing`: unless `r` is a multiple of the ring's length, every walk
   * cell's value in the copy `orig` is written `r` steps further along the
   * walk, and nothing off the ring changes; otherwise nothing is written.
   */
  method RotateRing(ring: Ring, matrix: seq<seq<int>>, orig: seq<seq<int>>, r: nat) returns (m: seq<seq<int>>)
    requires Fits(ring, orig) && Shape(matrix, |orig|, |orig[0]|)
    ensures Mod(r, NumElements(ring)) == 0 ==> m == matrix
    ensures Mod(r, NumElements(ring)) != 0 ==> RotatedUpTo(ring, matrix, orig, m, Mod(r, NumElements(ring)), NumElements(ring))
  {
    var rr := Mod(r, NumElements(ring));
    m := matrix;
    if rr != 0 {
      var nw := Walk(ring, rr);
      m := CopyRing(ring, matrix, orig, rr, nw);
    }
  }

  /** The first loop of `rotateRing`: `rr` steps from the top-left corner. */
  method Walk(ring: Ring, rr: nat) returns (nw: Cell)
    requires Proper(ring) && rr < NumElements(ring)
    ensures nw == Coord(ring, rr)
  {
    nw := TopLeft(ring);
    var s := 0;
    while s < rr
      invariant 0 <= s <= rr && nw == Coord(ring, s)
    {
      Advance(ring, s);
      nw := Next(ring, nw);
      s := s + 1;
    }
  }

  /** The second loop of `rotateRing`: copy every walk cell `rr` steps along, reading the copy `orig`. */
  method CopyRing(ring: Ring, matrix: seq<seq<int>>, orig: seq<seq<int>>, rr: nat, start: Cell) returns (m: seq<seq<int>>)
    requires Fits(ring, orig) && Shape(matrix, |orig|, |orig[0]|) && rr < NumElements(ring)
    requires start == Coord(ring, rr)
    ensures RotatedUpTo(ring, matrix, orig, m, rr, NumElements(ring))
  {
    var n := NumElements(ring);
    var cur := TopLeft(ring);
    var nw := start;
    m := matrix;
    var k := 0;
    ghost var ci, ni := 0, rr;
    NothingWritten(ring, matrix, orig, rr);
    while k < n
      invariant 0 <= k <= n && ci == Wrap(k, n) && ni == Wrap(k + rr, n)
      invariant cur == Coord(ring, ci) && nw == Coord(ring, ni)
      invariant RotatedUpTo(ring, matrix, orig, m, rr, k)
    {
      m, cur, nw := Move(ring, matrix, orig, m, rr, k, cur, nw, ci, ni);
      k, ci, ni := k + 1, Succ(ci, n), Succ(ni, n);
    }
  }

  /** One pass of the rotation loop: copy walk cell `k` to walk cell `k + rr` and step both cursors. */
  method Move(ring: Ring, m0: seq<seq<int>>, orig: seq<seq<int>>, m: seq<seq<int>>, rr: nat, k: nat, cur: Cell, nw: Cell,
               ghost ci: nat, ghost ni: nat)
    returns (m': seq<seq<int>>, cur': Cell, nw': Cell)
    requires Fits(ring, orig) && rr < NumElements(ring) && Shape(m0, |orig|, |orig[0]|) && k < NumElements(ring)
    requires ci == k && ni == Wrap(k + rr, NumElements(ring)) && cur == Coord(ring, ci) && nw == Coord(ring, ni)
    requires RotatedUpTo(ring, m0, orig, m, rr, k)
    ensures cur' == Coord(ring, Succ(ci, NumElements(ring))) && nw' == Coord(ring, Succ(ni, NumElements(ring)))
    ensures RotatedUpTo(ring, m0, orig, m', rr, k + 1)
  {
    WriteStep(ring, m0, orig, m, rr, k);
    m' := m[nw.row := m[nw.row][nw.col := orig[cur.row][cur.col]]];
    Advance(ring, ci);
    Advance(ring, ni);
    cur' := Next(ring, cur);
    nw' := Next(ring, nw);
  }

  lemma {:induction false} ModShift(x: nat, r: nat, n: nat)
    requires x < n
    ensures Mod(x + r, n) == Wrap(x + Mod(r, n), n)
    decreases r
  {
    if r >= n {
      ModShift(x, r - n, n);
      assert Mod(x + r, n) == Mod(x + r - n, n);
    } else if x + r >= n {
      assert Mod(x + r, n) == Mod(x + r - n, n);
    }
  }

  /** `r` steps from `p` land on walk number `Pos(p) + r % n`, wrapped. */
  lemma PosIterate(ring: Ring, p: Cell, r: nat)
    requires Proper(ring) && OnRing(ring, p)
    ensures Pos(ring, Iterate(ring, p, r)) == Wrap(Pos(ring, p) + Mod(r, NumElements(ring)), NumElements(ring))
  {
    ModShift(Pos(ring, p), r, NumElements(ring));
  }

  /** `r` steps from `p` is walk cell `Pos(p) + r % n`, wrapped. */
  lemma IterateAt(ring: Ring, p: Cell, r: nat)
    requires Proper(ring) && OnRing(ring, p)
    ensures Iterate(ring, p, r) == Coord(ring, Wrap(Pos(ring, p) + Mod(r, NumElements(ring)), NumElements(ring)))
  {
    var q := Iterate(ring, p, r);
    PosIterate(ring, p, r);
    CoordOfPos(ring, q);
  }

  /**
   * The cell `rr = r % n` walk steps behind `c` is the one from which `r`
   * steps of `getNextCoordinate` reach `c`.
   */
  lemma BackIterate(ring: Ring, c: Cell, r: nat)
    requires Proper(ring) && OnRing(ring, c)
    ensures var p := Coord(ring, Back(Pos(ring, c), Mod(r, NumElements(ring)), NumElements(ring)));
      Iterate(ring, p, r) == c
  {
    var n := NumElements(ring);
    var y := Back(Pos(ring, c), Mod(r, n), n);
    PosOfCoord(ring, y);
    ArrivesAt(ring, Coord(ring, y), c, r);
  }

  /** From the cell numbered `r % n` behind `c`, `r` steps lead to `c`. */
  lemma ArrivesAt(ring: Ring, p: Cell, c: Cell, r: nat)
    requires Proper(ring) && OnRing(ring, p) && OnRing(ring, c)
    requires Pos(ring, p) == Back(Pos(ring, c), Mod(r, NumElements(ring)), NumElements(ring))
    ensures Iterate(ring, p, r) == c
  {
    PosIterate(ring, p, r);
    PosInjective(ring, Iterate(ring, p, r), c);
  }

  /** Numbering is one-to-one on the ring's cells. */
  lemma PosInjective(ring: Ring, p: Cell, q: Cell)
    requires Proper(ring) && OnRing(ring, p) && OnRing(ring, q) && Pos(ring, p) == Pos(ring, q)
    ensures p == q
  {
    CoordOfPos(ring, p);
    CoordOfPos(ring, q);
  }

  /** After a full turn each ring cell holds the copy's value `rr` walk steps behind it. */
  lemma RingCell(ring: Ring, m0: seq<seq<int>>, orig: seq<seq<int>>, m: seq<seq<int>>, rr: nat, a: int, b: int)
    requires Fits(ring, orig) && Shape(m0, |orig|, |orig[0]|) && rr < NumElements(ring)
    requires RotatedUpTo(ring, m0, orig, m, rr, NumElements(ring))
    requires 0 <= a < |orig| && 0 <= b < |orig[0]| && OnRing(ring, Cell(a, b))
    ensures var p := Coord(ring, Back(Pos(ring, Cell(a, b)), rr, NumElements(ring)));
      m[a][b] == orig[p.row][p.col]
  {
    var i := Back(Pos(ring, Cell(a, b)), rr, NumElements(ring));
    CoordOfPos(ring, Cell(a, b));
    assert Moved(ring, m0, orig, m, rr, NumElements(ring), i);
  }

  // ---------------------------------------------------------------------------
  // The whole matrix
  // ---------------------------------------------------------------------------

  /** The `l`-th ring of a `rows` by `cols` matrix, counting from the outside. */
  function RingAt(rows: int, cols: int, l: int): Ring
  {
    Ring(l, l, rows - 1 - l, cols - 1 - l)
  }

  /** How many rings lie outside cell `(a, b)`: its distance to the nearest border. */
  function Layer(rows: int, cols: int, a: int, b: int): int
  {
    Min(Min(a, b), Min(rows - 1 - a, cols - 1 - b))
  }

  /** A cell lies on ring `l` exactly when `l` rings lie outside it. */
  lemma OnLayer(rows: int, cols: int, a: int, b: int, l: int)
    requires 0 <= a < rows && 0 <= b < cols && 0 <= l
    ensures OnRing(RingAt(rows, cols, l), Cell(a, b)) <==> Layer(rows, cols, a, b) == l
  {
  }

  /**
   * The value that `matrixRotation` leaves at `(a, b)`: on a ring the loop
   * rotates, the copy's value `r % n` walk steps behind the cell; in the
   * middle that no ring covers, the cell's own value.
   */
  function Expected(orig: seq<seq<int>>, r: nat, a: int, b: int): int
    requires |orig| > 0 && Shape(orig, |orig|, |orig[0]|) && 0 <= a < |orig| && 0 <= b < |orig[0]|
  {
    var ring := RingAt(|orig|, |orig[0]|, Layer(|orig|, |orig[0]|, a, b));
    if Proper(ring) then
      OnLayer(|orig|, |orig[0]|, a, b, ring.rowMin);
      var n := NumElements(ring);
      var p := Coord(ring, Back(Pos(ring, Cell(a, b)), Mod(r, n), n));
      orig[p.row][p.col]
    else orig[a][b]
  }

  /** `matrix[0]` of an empty matrix raises `IndexError`. */
  datatype RotateError = EmptyMatrix

  /**
   * `matrixRotation`: an empty matrix fails where its first row is read;
   * otherwise every cell ends up holding its rotated value.
   */
  method Rotate(matrix: seq<seq<int>>, r: nat) returns (res: Result<seq<seq<int>>, RotateError>)
    requires |matrix| > 0 ==> Shape(matrix, |matrix|, |matrix[0]|)
    ensures res.Err? <==> |matrix| == 0
    ensures res.Ok? ==> |matrix| > 0 && Shape(res.value, |matrix|, |matrix[0]|)
    ensures res.Ok? ==> forall a, b :: 0 <= a < |res.value| && 0 <= b < |res.value[a]| ==> res.value[a][b] == Expected(matrix, r, a, b)
  {
    if |matrix| == 0 {
      return Err(EmptyMatrix);
    }
    var m := RotateRings(matrix, r);
    return Ok(m);
  }

  /**
   * The ring loop of `matrixRotation`: rotate the outermost ring, then the
   * next one in, while the ring still has two distinct rows and two distinct
   * columns; every ring reads from the untouched copy of the input.
   */
  method RotateRings(matrix: seq<seq<int>>, r: nat) returns (m: seq<seq<int>>)
    requires |matrix| > 0 && Shape(matrix, |matrix|, |matrix[0]|)
    ensures Shape(m, |matrix|, |matrix[0]|)
    ensures forall a, b :: 0 <= a < |m| && 0 <= b < |m[a]| ==> m[a][b] == Expected(matrix, r, a, b)
  {
    var rows, cols := |matrix|, |matrix[0]|;
    var orig := matrix;
    m := matrix;
    var l := 0;
    while Proper(RingAt(rows, cols, l))
      invariant 0 <= l && (l > 0 ==> Proper(RingAt(rows, cols, l - 1)))
      invariant Shape(m, rows, cols)
      invariant forall a, b :: 0 <= a < rows && 0 <= b < cols ==> Done(orig, m, r, l, a, b)
      decreases rows - l
    {
      var ring := RingAt(rows, cols, l);
      var m' := RotateRing(ring, m, orig, r);
      var l1 := l + 1;
      forall a, b | 0 <= a < rows && 0 <= b < cols
        ensures Done(orig, m', r, l1, a, b)
      {
        CellStep(orig, m, m', r, l, a, b);
      }
      m := m';
      l := l + 1;
    }
    forall a, b | 0 <= a < rows && 0 <= b < cols
      ensures m[a][b] == Expected(orig, r, a, b)
    {
      Finished(orig, m, r, l, a, b);
    }
  }

  /** Cell `(a, b)` holds its rotated value if its ring is among the first `l`, and the copy's value otherwise. */
  predicate Done(orig: seq<seq<int>>, m: seq<seq<int>>, r: nat, l: int, a: int, b: int)
    requires |orig| > 0 && Shape(orig, |orig|, |orig[0]|) && Shape(m, |orig|, |orig[0]|)
    requires 0 <= a < |orig| && 0 <= b < |orig[0]|
  {
    m[a][b] == if Layer(|orig|, |orig[0]|, a, b) < l then Expected(orig, r, a, b) else orig[a][b]
  }

  /** `m` is `m0` with `ring` rotated `r` steps, as `RotateRing` leaves it. */
  ghost predicate RingRotated(ring: Ring, m0: seq<seq<int>>, orig: seq<seq<int>>, m: seq<seq<int>>, r: nat)
    requires Fits(ring, orig) && Shape(m0, |orig|, |orig[0]|)
  {
    var rr := Mod(r, NumElements(ring));
    && (rr == 0 ==> m == m0)
    && (rr != 0 ==> RotatedUpTo(ring, m0, orig, m, rr, NumElements(ring)))
  }

  /** Rotating ring `l` finishes the cells on it and leaves every other cell alone. */
  lemma CellStep(orig: seq<seq<int>>, m: seq<seq<int>>, m': seq<seq<int>>, r: nat, l: int, a: int, b: int)
    requires |orig| > 0 && Shape(orig, |orig|, |orig[0]|) && Shape(m, |orig|, |orig[0]|) && 0 <= l
    requires 0 <= a < |orig| && 0 <= b < |orig[0]|
    requires Proper(RingAt(|orig|, |orig[0]|, l))
    requires RingRotated(RingAt(|orig|, |orig[0]|, l), m, orig, m', r)
    ensures Shape(m', |orig|, |orig[0]|)
    ensures Done(orig, m, r, l, a, b) ==> Done(orig, m', r, l + 1, a, b)
  {
    var rows, cols := |orig|, |orig[0]|;
    var ring := RingAt(rows, cols, l);
    var n := NumElements(ring);
    var rr := Mod(r, n);
    var c := Cell(a, b);
    OnLayer(rows, cols, a, b, l);
    if OnRing(ring, c) {
      if rr == 0 {
        CoordOfPos(ring, c);
      } else {
        RingCell(ring, m, orig, m', rr, a, b);
      }
    } else if rr != 0 {
      assert Kept(ring, m, m', a, b);
    }
  }

  /** Once the loop stops, every cell holds its rotated value. */
  lemma Finished(orig: seq<seq<int>>, m: seq<seq<int>>, r: nat, l: int, a: int, b: int)
    requires |orig| > 0 && Shape(orig, |orig|, |orig[0]|) && Shape(m, |orig|, |orig[0]|) && 0 <= l
    requires 0 <= a < |orig| && 0 <= b < |orig[0]|
    requires !Proper(RingAt(|orig|, |orig[0]|, l)) && (l > 0 ==> Proper(RingAt(|orig|, |orig[0]|, l - 1)))
    ensures Done(orig, m, r, l, a, b) ==> m[a][b] == Expected(orig, r, a, b)
  {
  }

  /** No value after `r % n` steps back and `r % n` steps forward is lost: `Back` undoes `Wrap`. */
  lemma BackWrap(y: nat, x: nat, rr: nat, n: nat)
    requires x < n && rr < n && y == Wrap(x + rr, n)
    ensures y < n && Back(y, rr, n) == x
  {
  }

  /**
   * What `matrixRotation` promises: every value on a rotated ring ends up `r`
   * steps of `getNextCoordinate` further along its ring.
   */
  lemma Forward(orig: seq<seq<int>>, r: nat, p: Cell)
    requires |orig| > 0 && Shape(orig, |orig|, |orig[0]|) && 0 <= p.row < |orig| && 0 <= p.col < |orig[0]|
    requires Proper(RingAt(|orig|, |orig[0]|, Layer(|orig|, |orig[0]|, p.row, p.col)))
    ensures var ring := RingAt(|orig|, |orig[0]|, Layer(|orig|, |orig[0]|, p.row, p.col));
      OnRing(ring, p) &&
      var q := Iterate(ring, p, r);
      0 <= q.row < |orig| && 0 <= q.col < |orig[0]| && Expected(orig, r, q.row, q.col) == orig[p.row][p.col]
  {
    var rows, cols := |orig|, |orig[0]|;
    var l := Layer(rows, cols, p.row, p.col);
    var ring := RingAt(rows, cols, l);
    OnLayer(rows, cols, p.row, p.col, l);
    var q := Iterate(ring, p, r);
    OnLayer(rows, cols, q.row, q.col, l);
    IterateBack(ring, p, r);
  }

  /** Going `r % n` walk steps back from where `r` steps of `getNextCoordinate` lead returns to the start. */
  lemma IterateBack(ring: Ring, p: Cell, r: nat)
    requires Proper(ring) && OnRing(ring, p)
    ensures Coord(ring, Back(Pos(ring, Iterate(ring, p, r)), Mod(r, NumElements(ring)), NumElements(ring))) == p
  {
    var n := NumElements(ring);
    PosIterate(ring, p, r);
    BackWrap(Pos(ring, Iterate(ring, p, r)), Pos(ring, p), Mod(r, n), n);
    CoordOfPos(ring, p);
  }
}
