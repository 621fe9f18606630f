/**
 * A sparse, logically infinite two-dimensional matrix (Matrix.h).
 *
 * The matrix stores cells in an ordered map keyed by position. Any
 * position without a cell reads as the default value. Write-style
 * indexing cannot know whether the caller will assign a value, so it
 * creates a default-valued slot and marks the position pending. The
 * aggregate queries (size, rows, cols) first compact: pending cells that
 * still hold the default are erased, and the others grow the cached
 * extents.
 */
module SparseMatrix {

  /** A cell position, ordered row-major. */
  datatype MatrixPos = MatrixPos(row: int, col: int) {

    /**
     * isValid: both coordinates are non-negative. The matrix never consults
     * it; the origin is the least valid position in the map's order.
     */
    predicate IsValid(): (r: bool)
      ensures r ==> this == MatrixPos(0, 0) || MatrixPos(0, 0).Less(this)
    {
      row >= 0 && col >= 0
    }

    /** operator==: exactly value equality of the pair. */
    predicate Equals(other: MatrixPos): (r: bool)
      ensures r <==> this == other
    {
      row == other.row && col == other.col
    }

    /** operator<, the order of the storage map: rows first, columns only within one row. */
    predicate Less(other: MatrixPos): (r: bool)
      ensures r <==> row < other.row || (row == other.row && col < other.col)
    {
      if row == other.row then col < other.col else row < other.row
    }
  }

  lemma LessIsIrreflexive(a: MatrixPos)
    ensures !a.Less(a)
  {
  }

  lemma LessIsTransitive(a: MatrixPos, b: MatrixPos, c: MatrixPos)
    requires a.Less(b) && b.Less(c)
    ensures a.Less(c)
  {
  }

  /** Exactly one of a < b, a == b, b < a holds: the order is total and agrees with ==. */
  lemma LessIsTrichotomous(a: MatrixPos, b: MatrixPos)
    ensures a.Less(b) || a.Equals(b) || b.Less(a)
    ensures !(a.Less(b) && a.Equals(b))
    ensures !(a.Less(b) && b.Less(a))
    ensures !(a.Equals(b) && b.Less(a))
  {
  }

  /** std::max */
  function Max(a: int, b: int): int {
    if a < b then b else a
  }

  /** What a read at `pos` yields: the stored value, else the default. */
  function Lookup<T>(values: map<MatrixPos, T>, dflt: T, pos: MatrixPos): T {
    if pos in values then values[pos] else dflt
  }

  /** The storage after compacting `pending`: pending cells that still hold the default are gone. */
  function Compacted<T(==)>(values: map<MatrixPos, T>, pending: set<MatrixPos>, dflt: T): (r: map<MatrixPos, T>)
    ensures r.Keys <= values.Keys
    ensures forall p :: p in r ==> r[p] == values[p]
    ensures forall p :: p in values && p !in pending ==> p in r
    ensures forall p :: p in values && p in pending ==> (p in r <==> values[p] != dflt)
  {
    map p | p in values && !(p in pending && values[p] == dflt) :: values[p]
  }

  /** The pending cells that compaction keeps because they hold a significant value. */
  function Survivors<T(==)>(values: map<MatrixPos, T>, pending: set<MatrixPos>, dflt: T): set<MatrixPos> {
    set p | p in pending && p in values && values[p] != dflt
  }

  /** The pending cells that compaction erases. */
  function Dropped<T(==)>(values: map<MatrixPos, T>, pending: set<MatrixPos>, dflt: T): set<MatrixPos> {
    set p | p in pending && p in values && values[p] == dflt
  }

  /** The row extent each of the given cells needs. */
  function RowNeeds(cells: set<MatrixPos>): set<int> {
    set p | p in cells :: p.row + 1
  }

  /** The column extent each of the given cells needs. */
  function ColNeeds(cells: set<MatrixPos>): set<int> {
    set p | p in cells :: p.col + 1
  }

  /** `e` is `e0` grown by max: the least value that is at least `e0` and every need. */
  ghost predicate GrownTo(e: int, e0: int, needs: set<int>) {
    && e >= e0
    && (forall x :: x in needs ==> x <= e)
    && (e == e0 || e in needs)
  }

  /** Compaction changes no read: every position reads as before. */
  lemma CompactedPreservesLookup<T>(values: map<MatrixPos, T>, pending: set<MatrixPos>, dflt: T, pos: MatrixPos)
    ensures Lookup(Compacted(values, pending, dflt), dflt, pos) == Lookup(values, dflt, pos)
  {
  }

  /** Compaction removes exactly the pending cells that hold the default. */
  lemma CompactedSize<T>(values: map<MatrixPos, T>, pending: set<MatrixPos>, dflt: T)
    ensures |Compacted(values, pending, dflt)| == |values| - |Dropped(values, pending, dflt)|
  {
    var r := Compacted(values, pending, dflt);
    var d := Dropped(values, pending, dflt);
    assert r.Keys == values.Keys - d;
    assert d <= values.Keys;
    assert values.Keys == r.Keys + d;
    assert r.Keys !! d;
    assert |values.Keys| == |r.Keys| + |d|;
  }

  /** Compacting again, with the same pending set or with none, changes nothing. */
  lemma CompactedIsIdempotent<T>(values: map<MatrixPos, T>, pending: set<MatrixPos>, dflt: T)
    ensures Compacted(Compacted(values, pending, dflt), pending, dflt) == Compacted(values, pending, dflt)
    ensures Compacted(values, {}, dflt) == values
  {
  }

  /** One compaction step that erases `key`, a pending cell holding the default. */
  lemma CompactionStepDrops<T>(values: map<MatrixPos, T>, done: set<MatrixPos>, key: MatrixPos, dflt: T)
    requires key in values && key !in done && values[key] == dflt
    ensures Compacted(values, done + {key}, dflt) == Compacted(values, done, dflt) - {key}
    ensures Survivors(values, done + {key}, dflt) == Survivors(values, done, dflt)
  {
  }

  /** One compaction step that keeps `key`, a pending cell holding a significant value. */
  lemma CompactionStepKeeps<T>(values: map<MatrixPos, T>, done: set<MatrixPos>, key: MatrixPos, dflt: T)
    requires key in values && key !in done && values[key] != dflt
    ensures Compacted(values, done + {key}, dflt) == Compacted(values, done, dflt)
    ensures RowNeeds(Survivors(values, done + {key}, dflt)) == RowNeeds(Survivors(values, done, dflt)) + {key.row + 1}
    ensures ColNeeds(Survivors(values, done + {key}, dflt)) == ColNeeds(Survivors(values, done, dflt)) + {key.col + 1}
  {
  }

  /** One compaction step over a position that holds no cell changes nothing. */
  lemma CompactionStepSkips<T>(values: map<MatrixPos, T>, done: set<MatrixPos>, key: MatrixPos, dflt: T)
    requires key !in values
    ensures Compacted(values, done + {key}, dflt) == Compacted(values, done, dflt)
    ensures Survivors(values, done + {key}, dflt) == Survivors(values, done, dflt)
  {
  }

  /** Growing by `max` with one more need keeps `e` the least cover. */
  lemma GrownToStep(e: int, e0: int, needs: set<int>, x: int)
    requires GrownTo(e, e0, needs)
    ensures GrownTo(Max(e, x), e0, needs + {x})
  {
  }

  /** A surviving cell is covered by the extents it needs. */
  lemma NeedsOfSurvivor<T>(values: map<MatrixPos, T>, pending: set<MatrixPos>, dflt: T, p: MatrixPos)
    requires p in pending && p in values && values[p] != dflt
    ensures p.row + 1 in RowNeeds(Survivors(values, pending, dflt))
    ensures p.col + 1 in ColNeeds(Survivors(values, pending, dflt))
  {
  }

  /** The cells compaction keeps lie inside the grown extents. */
  lemma CompactedCovered<T>(values: map<MatrixPos, T>, pending: set<MatrixPos>, dflt: T, r0: int, c0: int, r: int, c: int)
    requires forall p :: p in values && p !in pending ==> p.row < r0 && p.col < c0
    requires GrownTo(r, r0, RowNeeds(Survivors(values, pending, dflt)))
    requires GrownTo(c, c0, ColNeeds(Survivors(values, pending, dflt)))
    ensures forall p :: p in Compacted(values, pending, dflt) ==> p.row < r && p.col < c
  {
    forall p | p in Compacted(values, pending, dflt)
      ensures p.row < r && p.col < c
    {
      if p in pending {
        NeedsOfSurvivor(values, pending, dflt, p);
      }
    }
  }

  /**
   * The loop of compaction, over the pending positions in any order: a
   * pending cell that still holds the default is erased, any other one
   * grows the extents by max; a position without a cell is skipped.
   */
  method CompactPending<T(==)>(values: map<MatrixPos, T>, pending: set<MatrixPos>, dflt: T, rows: int, cols: int)
    returns (vals: map<MatrixPos, T>, r: int, c: int)
    ensures vals == Compacted(values, pending, dflt)
    ensures GrownTo(r, rows, RowNeeds(Survivors(values, pending, dflt)))
    ensures GrownTo(c, cols, ColNeeds(Survivors(values, pending, dflt)))
  {
    vals, r, c := values, rows, cols;
    var todo := pending;
    ghost var done: set<MatrixPos> := {};
    while todo != {}
      invariant todo + done == pending && todo !! done
      invariant vals == Compacted(values, done, dflt)
      invariant GrownTo(r, rows, RowNeeds(Survivors(values, done, dflt)))
      invariant GrownTo(c, cols, ColNeeds(Survivors(values, done, dflt)))
      decreases todo
    {
      var key :| key in todo;
      if key in vals {
        if vals[key] == dflt {
          vals := vals - {key};
          CompactionStepDrops(values, done, key, dflt);
        } else {
          CompactionStepKeeps(values, done, key, dflt);
          GrownToStep(c, cols, ColNeeds(Survivors(values, done, dflt)), key.col + 1);
          GrownToStep(r, rows, RowNeeds(Survivors(values, done, dflt)), key.row + 1);
          c := Max(c, key.col + 1);
          r := Max(r, key.row + 1);
        }
      } else {
        CompactionStepSkips(values, done, key, dflt);
      }
      todo := todo - {key};
      done := done + {key};
    }
  }

  /** A `Matrix<T, DefaultValue>`. */
  class Matrix<T(==)> {
    /** DefaultValue, fixed when the matrix is made. */
    const defaultValue: T
    /** m_values */
    var values: map<MatrixPos, T>
    /** m_undeterminateValues: positions handed out by write-style indexing since the last compaction */
    var pending: set<MatrixPos>
    /** m_rows */
    var rows: int
    /** m_cols */
    var cols: int

    /**
     * The extents never go below zero, only stored positions can be
     * pending, and every cell that is not pending lies inside the extents.
     */
    ghost predicate Valid()
      reads this
    {
      && rows >= 0
      && cols >= 0
      && pending <= values.Keys
      && (forall p :: p in values && p !in pending ==> p.row < rows && p.col < cols)
    }

    /** The state compaction leaves behind when it starts from v0, p0, r0 and c0. */
    ghost predicate CompactedFrom(v0: map<MatrixPos, T>, p0: set<MatrixPos>, r0: int, c0: int)
      reads this
    {
      && pending == {}
      && values == Compacted(v0, p0, defaultValue)
      && GrownTo(rows, r0, RowNeeds(Survivors(v0, p0, defaultValue)))
      && GrownTo(cols, c0, ColNeeds(Survivors(v0, p0, defaultValue)))
    }

    constructor (dflt: T)
      ensures Valid()
      ensures defaultValue == dflt
      ensures values == map[] && pending == {} && rows == 0 && cols == 0
    {
      defaultValue := dflt;
      values := map[];
      pending := {};
      rows := 0;
      cols := 0;
    }

    /** Upserts a cell and grows both extents to cover it; never erases. */
    method Insert(row: int, col: int, value: T)
      requires Valid()
      modifies this
      ensures Valid()
      ensures values == old(values)[MatrixPos(row, col) := value]
      ensures At(row, col) == value
      ensures forall r, c :: r != row || c != col ==> At(r, c) == old(At(r, c))
      ensures |values| == if MatrixPos(row, col) in old(values) then old(|values|) else old(|values|) + 1
      ensures pending == old(pending)
      ensures rows == Max(old(rows), row + 1) && cols == Max(old(cols), col + 1)
    {
      var pos := MatrixPos(row, col);
      values := values[pos := value];
      cols := Max(cols, col + 1);
      rows := Max(rows, row + 1);
    }

    /** Reads a cell without changing anything; absent cells read as the default. */
    function At(row: int, col: int): (v: T)
      reads this
      ensures MatrixPos(row, col) in values ==> v == values[MatrixPos(row, col)]
      ensures MatrixPos(row, col) !in values ==> v == defaultValue
      ensures Valid() && MatrixPos(row, col) !in pending && (row >= rows || col >= cols) ==> v == defaultValue
    {
      Lookup(values, defaultValue, MatrixPos(row, col))
    }

    /** Const indexing, `m[row][col]` on a const matrix. */
    function ConstIndex(row: int, col: int): (v: T)
      reads this
      ensures v == At(row, col)
    {
      var pos := MatrixPos(row, col);
      if pos in values then values[pos] else defaultValue
    }

    /**
     * Write-style indexing, `m[row][col]` on a mutable matrix: creates a
     * default-valued slot when none exists, always marks the position
     * pending, and yields the slot's current value.
     */
    method Index(row: int, col: int) returns (v: T)
      requires Valid()
      modifies this
      ensures Valid()
      ensures MatrixPos(row, col) in values && v == values[MatrixPos(row, col)]
      ensures values == if MatrixPos(row, col) in old(values) then old(values)
                        else old(values)[MatrixPos(row, col) := defaultValue]
      ensures pending == old(pending) + {MatrixPos(row, col)}
      ensures rows == old(rows) && cols == old(cols)
      ensures forall r, c :: At(r, c) == old(At(r, c))
    {
      var pos := MatrixPos(row, col);
      if pos !in values {
        values := values[pos := defaultValue];
      }
      pending := pending + {pos};
      v := values[pos];
    }

    /** Assignment through the slot that `Index` handed out, before any compaction. */
    method Assign(row: int, col: int, value: T)
      requires Valid()
      requires MatrixPos(row, col) in pending
      modifies this
      ensures Valid()
      ensures values == old(values)[MatrixPos(row, col) := value]
      ensures pending == old(pending) && rows == old(rows) && cols == old(cols)
    {
      values := values[MatrixPos(row, col) := value];
    }

    /**
     * Compaction: erases every pending cell that still holds the default,
     * grows the extents to cover every other pending cell, and empties
     * the pending set. No read changes.
     */
    method SolveUndeterminateValues()
      requires Valid()
      modifies this
      ensures Valid()
      ensures CompactedFrom(old(values), old(pending), old(rows), old(cols))
      ensures forall r, c :: At(r, c) == old(At(r, c))
      ensures forall p :: p in values && p in old(pending) ==> values[p] != defaultValue
      ensures old(pending) == {} ==> values == old(values) && rows == old(rows) && cols == old(cols)
    {
      ghost var v0, p0 := values, pending;
      if pending != {} {
        values, rows, cols := CompactPending(values, pending, defaultValue, rows, cols);
        pending := {};
        CompactedCovered(v0, p0, defaultValue, old(rows), old(cols), rows, cols);
      }
      forall r, c
        ensures At(r, c) == old(At(r, c))
      {
        CompactedPreservesLookup(v0, p0, defaultValue, MatrixPos(r, c));
      }
      CompactedIsIdempotent(v0, p0, defaultValue);
    }

    /** Number of stored cells, after compaction. */
    method Size() returns (n: int)
      requires Valid()
      modifies this
      ensures Valid()
      ensures CompactedFrom(old(values), old(pending), old(rows), old(cols))
      ensures n == |values| == old(|values|) - |Dropped(old(values), old(pending), defaultValue)|
      ensures old(pending) == {} ==> values == old(values) && rows == old(rows) && cols == old(cols)
    {
      ghost var v0, p0 := values, pending;
      SolveUndeterminateValues();
      n := |values|;
      CompactedSize(v0, p0, defaultValue);
    }

    /** Row extent, after compaction. */
    method Rows() returns (n: int)
      requires Valid()
      modifies this
      ensures Valid()
      ensures CompactedFrom(old(values), old(pending), old(rows), old(cols))
      ensures n == rows >= old(rows)
      ensures old(pending) == {} ==> values == old(values) && rows == old(rows) && cols == old(cols)
    {
      SolveUndeterminateValues();
      n := rows;
    }

    /** Column extent, after compaction. */
    method Cols() returns (n: int)
      requires Valid()
      modifies this
      ensures Valid()
      ensures CompactedFrom(old(values), old(pending), old(rows), old(cols))
      ensures n == cols >= old(cols)
      ensures old(pending) == {} ==> values == old(values) && rows == old(rows) && cols == old(cols)
    {
      SolveUndeterminateValues();
      n := cols;
    }
  }

  /** Two size() calls in a row agree: the second finds nothing pending. */
  method SizeTwice<T(==)>(m: Matrix<T>) returns (size1: int, size2: int)
    requires m.Valid()
    modifies m
    ensures size1 == size2
  {
    size1 := m.Size();
    size2 := m.Size();
  }

  /** Two rows() calls in a row agree, even when cells were pending before the first. */
  method RowsTwice<T(==)>(m: Matrix<T>) returns (rows1: int, rows2: int)
    requires m.Valid()
    modifies m
    ensures rows1 == rows2
  {
    rows1 := m.Rows();
    rows2 := m.Rows();
  }

  /** Two cols() calls in a row agree, even when cells were pending before the first. */
  method ColsTwice<T(==)>(m: Matrix<T>) returns (cols1: int, cols2: int)
    requires m.Valid()
    modifies m
    ensures cols1 == cols2
  {
    cols1 := m.Cols();
    cols2 := m.Cols();
  }

  /** Explicit inserts grow each extent independently. */
  method InsertGrowsExtents() returns (size: int, rows: int, cols: int)
    ensures size == 2 && rows == 41 && cols == 46
  {
    var m := new Matrix<int>(-1);
    m.Insert(40, 40, 1);
    m.Insert(10, 45, 2);
    size := m.Size();
    rows := m.Rows();
    cols := m.Cols();
  }

  /** Inserting the default value still stores a cell and grows the extents. */
  method InsertOfDefaultIsStored() returns (size: int, rows: int, cols: int)
    ensures size == 1 && rows == 41 && cols == 41
  {
    var m := new Matrix<int>(-1);
    m.Insert(40, 40, -1);
    size := m.Size();
    rows := m.Rows();
    cols := m.Cols();
  }

  /** Compacting one assigned slot and one slot only read keeps just the assigned one. */
  lemma CompactionOfOneAssignedOneRead()
    ensures Compacted(map[MatrixPos(1, 1) := 5, MatrixPos(2, 2) := 0], {MatrixPos(1, 1), MatrixPos(2, 2)}, 0)
            == map[MatrixPos(1, 1) := 5]
    ensures RowNeeds(Survivors(map[MatrixPos(1, 1) := 5, MatrixPos(2, 2) := 0], {MatrixPos(1, 1), MatrixPos(2, 2)}, 0)) == {2}
    ensures ColNeeds(Survivors(map[MatrixPos(1, 1) := 5, MatrixPos(2, 2) := 0], {MatrixPos(1, 1), MatrixPos(2, 2)}, 0)) == {2}
  {
  }

  /** A slot assigned a significant value survives compaction; a slot only read does not. */
  method IndexThenCompact() returns (read: int, size: int, rows: int, cols: int)
    ensures read == 0
    ensures size == 1 && rows == 2 && cols == 2
  {
    var m := new Matrix<int>(0);
    var _ := m.Index(1, 1);
    m.Assign(1, 1, 5);
    read := m.Index(2, 2);
    assert m.values == map[MatrixPos(1, 1) := 5, MatrixPos(2, 2) := 0];
    assert m.pending == {MatrixPos(1, 1), MatrixPos(2, 2)};
    CompactionOfOneAssignedOneRead();
    size := m.Size();
    rows := m.Rows();
    cols := m.Cols();
  }
}
