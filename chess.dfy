/** Saving a gomoku board as a sparse array: a header row
    `[width of row 0, width of row 1, count]` followed by one `[row, column, value]`
    triple per non-zero cell, in row-major order; and rebuilding a board from it. */
module SparseBoard {
  import opened Outcomes

  /** `b` has `rows` rows of `cols` cells each. */
  predicate Rectangular(b: seq<seq<int>>, rows: int, cols: int) {
    |b| == rows && forall r :: 0 <= r < |b| ==> |b[r]| == cols
  }

  /** A freshly allocated `int[rows][cols]`. */
  function Zeros(rows: nat, cols: nat): (z: seq<seq<int>>)
    ensures Rectangular(z, rows, cols)
    ensures forall r, c :: 0 <= r < rows && 0 <= c < cols ==> z[r][c] == 0
  {
    seq(rows, _ => seq(cols, _ => 0))
  }

  /** The number of non-zero cells of one row. */
  function CountRow(row: seq<int>): (n: nat)
    ensures n <= |row|
  {
    if row == [] then 0
    else CountRow(row[..|row| - 1]) + (if row[|row| - 1] != 0 then 1 else 0)
  }

  /** The number of non-zero cells of a board. */
  function CountRows(rows: seq<seq<int>>): nat {
    if rows == [] then 0
    else CountRows(rows[..|rows| - 1]) + CountRow(rows[|rows| - 1])
  }

  /** `t` is the triple of a non-zero cell of `b`. */
  predicate ListsCell(b: seq<seq<int>>, t: seq<int>) {
    |t| == 3 && 0 <= t[0] < |b| && 0 <= t[1] < |b[t[0]]| && t[2] == b[t[0]][t[1]] && t[2] != 0
  }

  /** The triples of the non-zero cells of `row`, which is row `i` of a board,
      left to right. */
  function TriplesRow(i: int, row: seq<int>): (ts: seq<seq<int>>)
    ensures |ts| == CountRow(row)
    ensures forall k :: 0 <= k < |ts| ==>
      |ts[k]| == 3 && ts[k][0] == i && 0 <= ts[k][1] < |row| && ts[k][2] == row[ts[k][1]] && ts[k][2] != 0
  {
    if row == [] then []
    else
      var c := |row| - 1;
      var front := TriplesRow(i, row[..c]);
      assert forall k :: 0 <= k < |front| ==> row[..c][front[k][1]] == row[front[k][1]];
      front + (if row[c] != 0 then [[i, c, row[c]]] else [])
  }

  /** The triples of the non-zero cells of a board, in row-major order. */
  function TriplesRows(rows: seq<seq<int>>): (ts: seq<seq<int>>)
    ensures |ts| == CountRows(rows)
    ensures forall k :: 0 <= k < |ts| ==> ListsCell(rows, ts[k])
  {
    if rows == [] then []
    else
      var m := |rows| - 1;
      var front := TriplesRows(rows[..m]);
      var last := TriplesRow(m, rows[m]);
      assert forall k :: 0 <= k < |front| ==> ListsCell(rows[..m], front[k]) ==> ListsCell(rows, front[k]);
      assert forall k :: 0 <= k < |last| ==> ListsCell(rows, last[k]);
      front + last
  }

  /** The sparse array `compressArr` builds; its header takes the widths of
      rows 0 and 1, so it needs at least two rows. */
  function Compress(arr: seq<seq<int>>): (chess: seq<seq<int>>)
    requires |arr| >= 2
    ensures |chess| == CountRows(arr) + 1
    ensures chess[0] == [|arr[0]|, |arr[1]|, CountRows(arr)]
    ensures forall k :: 1 <= k < |chess| ==> ListsCell(arr, chess[k])
  {
    [[|arr[0]|, |arr[1]|, CountRows(arr)]] + TriplesRows(arr)
  }

  /** `t` writes `v` into cell `(x, y)`. */
  predicate Writes(t: seq<int>, x: int, y: int, v: int) {
    |t| >= 3 && t[0] == x && t[1] == y && t[2] == v
  }

  /** Whether writing triple `t` into a board shaped like `g` stays in bounds. */
  predicate Fits(g: seq<seq<int>>, t: seq<int>) {
    |t| >= 3 && 0 <= t[0] < |g| && 0 <= t[1] < |g[t[0]]|
  }

  /** `temp[t[0]][t[1]] = t[2]`. */
  function Place(g: seq<seq<int>>, t: seq<int>): (r: Result<seq<seq<int>>>)
    ensures r.Ok? <==> Fits(g, t)
    ensures r.Err? ==> r.fault == ArrayIndexOutOfBounds
    ensures r.Ok? ==> |r.value| == |g| && (forall x :: 0 <= x < |g| ==> |r.value[x]| == |g[x]|)
    ensures r.Ok? ==> r.value[t[0]][t[1]] == t[2]
    ensures r.Ok? ==> forall x, y :: 0 <= x < |g| && 0 <= y < |g[x]| && (x != t[0] || y != t[1]) ==>
                        r.value[x][y] == g[x][y]
  {
    if Fits(g, t) then Ok(g[t[0] := g[t[0]][t[1] := t[2]]]) else Err(ArrayIndexOutOfBounds)
  }

  /** Writing the triples `ts` into `g` one after the other, stopping at the
      first one out of bounds. */
  function Apply(g: seq<seq<int>>, ts: seq<seq<int>>): (r: Result<seq<seq<int>>>)
    ensures r.Err? <==> exists k :: 0 <= k < |ts| && !Fits(g, ts[k])
    ensures r.Err? ==> r.fault == ArrayIndexOutOfBounds
    ensures r.Ok? ==> |r.value| == |g| && (forall x :: 0 <= x < |g| ==> |r.value[x]| == |g[x]|)
    ensures r.Ok? ==> forall x, y :: 0 <= x < |g| && 0 <= y < |g[x]| && r.value[x][y] != g[x][y] ==>
                        exists k :: 0 <= k < |ts| && Writes(ts[k], x, y, r.value[x][y])
    decreases |ts|
  {
    if ts == [] then Ok(g)
    else
      var front := ts[..|ts| - 1];
      var t := ts[|ts| - 1];
      var p := Apply(g, front);
      assert forall k :: 0 <= k < |front| ==> front[k] == ts[k];
      if p.Err? then p
      else
        var r := Place(p.value, t);
        assert r.Ok? ==> forall x, y :: 0 <= x < |g| && 0 <= y < |g[x]| && r.value[x][y] != g[x][y] ==>
                           exists k :: 0 <= k < |ts| && Writes(ts[k], x, y, r.value[x][y]) by {
          if r.Ok? {
            forall x, y | 0 <= x < |g| && 0 <= y < |g[x]| && r.value[x][y] != g[x][y]
              ensures exists k :: 0 <= k < |ts| && Writes(ts[k], x, y, r.value[x][y])
            {
              if x == t[0] && y == t[1] {
                assert Writes(ts[|ts| - 1], x, y, r.value[x][y]);
              } else {
                var k :| 0 <= k < |front| && Writes(front[k], x, y, p.value[x][y]);
                assert Writes(ts[k], x, y, r.value[x][y]);
              }
            }
          }
        }
        r
  }

  /** What `recoverArr` computes from a sparse array: a board of the header's
      size, zero except where the triples after the header write. */
  function Recover(chess: seq<seq<int>>): (r: Result<seq<seq<int>>>)
    ensures r.Ok? ==> |chess| >= 1 && |chess[0]| >= 2 && Rectangular(r.value, chess[0][0], chess[0][1])
    ensures r.Ok? ==> forall x, y :: 0 <= x < |r.value| && 0 <= y < |r.value[x]| && r.value[x][y] != 0 ==>
                        exists k :: 1 <= k < |chess| && Writes(chess[k], x, y, r.value[x][y])
  {
    if |chess| == 0 || |chess[0]| < 2 then Err(ArrayIndexOutOfBounds)
    else if chess[0][0] < 0 || chess[0][1] < 0 then Err(NegativeArraySize)
    else
      var r := Apply(Zeros(chess[0][0], chess[0][1]), chess[1..]);
      assert forall k :: 0 <= k < |chess| - 1 ==> chess[1..][k] == chess[k + 1];
      r
  }

  /** The contents of a two-dimensional array, row by row. */
  function Grid(a: array2<int>): (g: seq<seq<int>>)
    reads a
    ensures Rectangular(g, a.Length0, a.Length1)
    ensures forall r, c :: 0 <= r < a.Length0 && 0 <= c < a.Length1 ==> g[r][c] == a[r, c]
  {
    seq(a.Length0, r reads a => seq(a.Length1, c reads a => if 0 <= r < a.Length0 && 0 <= c < a.Length1 then a[r, c] else 0))
  }

  /** Two boards of the same shape with the same cells are equal. */
  lemma SameCells(a: seq<seq<int>>, b: seq<seq<int>>, rows: nat, cols: nat)
    requires Rectangular(a, rows, cols) && Rectangular(b, rows, cols)
    requires forall r, c :: 0 <= r < rows && 0 <= c < cols ==> a[r][c] == b[r][c]
    ensures a == b
  {
    forall r | 0 <= r < rows ensures a[r] == b[r] {
      assert forall c :: 0 <= c < cols ==> a[r][c] == b[r][c];
    }
  }

  class Chess {
    /** The field `chess`, null until a board has been compressed. */
    var chess: Option<seq<seq<int>>>

    constructor ()
      ensures chess == None
    {
      chess := None;
    }

    /** `compressArr(arr)`: counts the non-zero cells, then stores the header
        and the row-major triples in the field `chess`. */
    method CompressArr(arr: seq<seq<int>>) returns (s: Status)
      modifies this
      ensures |arr| < 2 ==> s == Failed(ArrayIndexOutOfBounds) && chess == old(chess)
      ensures |arr| >= 2 ==> s == Done && chess == Some(Compress(arr))
    {
      var num := CountNonZero(arr);
      if |arr| < 2 {
        return Failed(ArrayIndexOutOfBounds);
      }
      var sparse := new seq<int>[num + 1];
      sparse[0] := [|arr[0]|, |arr[1]|, num];
      FillTriples(arr, sparse);
      assert sparse[..] == [sparse[0]] + sparse[1..];
      chess := Some(sparse[..]);
      s := Done;
    }

    /** The first double loop of `compressArr`: the count `num`. */
    static method CountNonZero(arr: seq<seq<int>>) returns (num: nat)
      ensures num == CountRows(arr)
    {
      num := 0;
      for i := 0 to |arr|
        invariant num == CountRows(arr[..i])
      {
        for j := 0 to |arr[i]|
          invariant num == CountRows(arr[..i]) + CountRow(arr[i][..j])
        {
          assert arr[i][..j + 1][..j] == arr[i][..j];
          var value := arr[i][j];
          if value != 0 {
            num := num + 1;
          }
        }
        assert arr[i][..|arr[i]|] == arr[i];
        assert arr[..i + 1][..i] == arr[..i];
      }
      assert arr[..|arr|] == arr;
    }

    /** The second double loop of `compressArr`: row `rowNum` of the sparse
        array receives the triple of the next non-zero cell. */
    static method FillTriples(arr: seq<seq<int>>, sparse: array<seq<int>>)
      requires sparse.Length == CountRows(arr) + 1
      modifies sparse
      ensures sparse[0] == old(sparse[0])
      ensures sparse[1..] == TriplesRows(arr)
    {
      var rowNum := 1;
      for i := 0 to |arr|
        invariant sparse[0] == old(sparse[0])
        invariant rowNum == CountRows(arr[..i]) + 1 <= sparse.Length
        invariant sparse[1..rowNum] == TriplesRows(arr[..i])
      {
        CountRowsPrefix(arr, i);
        ghost var before := sparse[..];
        FillRow(arr, i, sparse, rowNum);
        RowFilled(arr, i, rowNum, before, sparse[..]);
        rowNum := rowNum + CountRow(arr[i]);
      }
      assert arr[..|arr|] == arr;
    }

    /** One round of the outer loop of `FillTriples`: the rows written for
        row `i` extend the triples of the rows before it. */
    static lemma RowFilled(arr: seq<seq<int>>, i: nat, rowNum: nat, before: seq<seq<int>>, after: seq<seq<int>>)
      requires i < |arr| && 1 <= rowNum && rowNum + CountRow(arr[i]) <= |after| == |before|
      requires before[1..rowNum] == TriplesRows(arr[..i])
      requires after[..rowNum] == before[..rowNum]
      requires after[rowNum..rowNum + CountRow(arr[i])] == TriplesRow(i, arr[i])
      ensures after[0] == before[0]
      ensures after[1..rowNum + CountRow(arr[i])] == TriplesRows(arr[..i + 1])
    {
      var upto := arr[..i + 1];
      assert upto[..i] == arr[..i] && upto[i] == arr[i];
      assert TriplesRows(upto) == TriplesRows(arr[..i]) + TriplesRow(i, arr[i]);
      var next := rowNum + CountRow(arr[i]);
      assert after[1..rowNum] == before[1..rowNum];
      assert after[1..next] == after[1..rowNum] + after[rowNum..next];
    }

    /** The inner loop of the second double loop, over row `i`. */
    static method FillRow(arr: seq<seq<int>>, i: nat, sparse: array<seq<int>>, rowNum: nat)
      requires i < |arr| && 1 <= rowNum && rowNum + CountRow(arr[i]) <= sparse.Length
      modifies sparse
      ensures sparse[..rowNum] == old(sparse[..rowNum])
      ensures sparse[rowNum..rowNum + CountRow(arr[i])] == TriplesRow(i, arr[i])
    {
      var next := rowNum;
      for j := 0 to |arr[i]|
        invariant next == rowNum + CountRow(arr[i][..j])
        invariant sparse[..rowNum] == old(sparse[..rowNum])
        invariant next <= rowNum + CountRow(arr[i])
        invariant sparse[rowNum..next] == TriplesRow(i, arr[i][..j])
      {
        CountRowPrefix(arr[i], j + 1);
        CountRowStep(arr[i], j);
        ghost var before, at := sparse[..], next;
        var value := arr[i][j];
        if value != 0 {
          sparse[next] := [i, j, value];
          next := next + 1;
        }
        CellFilled(i, arr[i], j, rowNum, at, before, sparse[..]);
      }
      assert arr[i][..|arr[i]|] == arr[i];
    }

    /** One round of the inner loop of `FillRow`: a non-zero cell adds its
        triple after those of the cells before it. */
    static lemma CellFilled(i: nat, row: seq<int>, j: nat, rowNum: nat, next: nat,
                            before: seq<seq<int>>, after: seq<seq<int>>)
      requires j < |row| && rowNum <= next <= |before| == |after|
      requires before[rowNum..next] == TriplesRow(i, row[..j])
      requires row[j] != 0 ==> next < |before| && after == before[next := [i, j, row[j]]]
      requires row[j] == 0 ==> after == before
      ensures after[..rowNum] == before[..rowNum]
      ensures row[j] != 0 ==> after[rowNum..next + 1] == TriplesRow(i, row[..j + 1])
      ensures row[j] == 0 ==> after[rowNum..next] == TriplesRow(i, row[..j + 1])
    {
      var upto := row[..j + 1];
      assert upto[..j] == row[..j] && upto[j] == row[j];
      if row[j] != 0 {
        assert TriplesRow(i, upto) == TriplesRow(i, row[..j]) + [[i, j, row[j]]];
        assert after[rowNum..next + 1] == before[rowNum..next] + [[i, j, row[j]]];
      } else {
        assert TriplesRow(i, upto) == TriplesRow(i, row[..j]) + [];
      }
    }

    /** `recoverArr(chess)`: allocates the header's `rows x cols` board and
        writes every triple after the header into it. */
    method RecoverArr(chess: seq<seq<int>>) returns (r: Result<array2<int>>)
      ensures r.Err? ==> Recover(chess) == Err(r.fault)
      ensures r.Ok? ==> fresh(r.value) && Recover(chess) == Ok(Grid(r.value))
    {
      if |chess| == 0 || |chess[0]| < 2 {
        return Err(ArrayIndexOutOfBounds);
      }
      if chess[0][0] < 0 || chess[0][1] < 0 {
        return Err(NegativeArraySize);
      }
      var temp := new int[chess[0][0], chess[0][1]]((_, _) => 0);
      SameCells(Grid(temp), Zeros(chess[0][0], chess[0][1]), chess[0][0], chess[0][1]);
      var ok := WriteTriples(chess, temp);
      RecoverIsApply(chess);
      r := if ok then Ok(temp) else Err(ArrayIndexOutOfBounds);
    }

    /** The loop of `recoverArr`: every row but the header is a triple
        written into `temp`. */
    static method WriteTriples(chess: seq<seq<int>>, temp: array2<int>) returns (ok: bool)
      requires |chess| >= 1
      modifies temp
      ensures ok ==> Apply(old(Grid(temp)), chess[1..]) == Ok(Grid(temp))
      ensures !ok ==> Apply(old(Grid(temp)), chess[1..]).Err?
    {
      ghost var g := Grid(temp);
      var triples := chess[1..];
      assert triples[..0] == [];
      for i := 0 to |chess|
        invariant Apply(g, triples[..if i == 0 then 0 else i - 1]) == Ok(Grid(temp))
      {
        if i != 0 {
          var t := chess[i];
          assert t == triples[i - 1];
          ApplyOneMore(g, triples, i - 1);
          if |t| < 3 || !(0 <= t[0] < temp.Length0) || !(0 <= t[1] < temp.Length1) {
            ApplyFails(g, triples, i - 1);
            return false;
          }
          WriteCell(temp, t);
        }
      }
      assert triples[..|chess| - 1] == triples;
      return true;
    }
  }

  /** `temp[t[0]][t[1]] = t[2]` on the array. */
  method WriteCell(temp: array2<int>, t: seq<int>)
    requires Fits(Grid(temp), t)
    modifies temp
    ensures Place(old(Grid(temp)), t) == Ok(Grid(temp))
  {
    ghost var before := Grid(temp);
    temp[t[0], t[1]] := t[2];
    SameCells(Grid(temp), Place(before, t).value, temp.Length0, temp.Length1);
  }

  /** Past the header checks, recovering is writing the triples into zeros. */
  lemma RecoverIsApply(chess: seq<seq<int>>)
    requires |chess| >= 1 && |chess[0]| >= 2 && chess[0][0] >= 0 && chess[0][1] >= 0
    ensures Recover(chess) == Apply(Zeros(chess[0][0], chess[0][1]), chess[1..])
  {
  }

  /** Writing one more triple. */
  lemma ApplyOneMore(g: seq<seq<int>>, ts: seq<seq<int>>, n: nat)
    requires n < |ts|
    ensures Apply(g, ts[..n + 1]) ==
            if Apply(g, ts[..n]).Err? then Apply(g, ts[..n]) else Place(Apply(g, ts[..n]).value, ts[n])
  {
    assert ts[..n + 1][..n] == ts[..n];
  }

  /** A triple out of bounds makes the whole recovery fail. */
  lemma ApplyFails(g: seq<seq<int>>, ts: seq<seq<int>>, n: nat)
    requires n < |ts| && !Fits(g, ts[n])
    ensures Apply(g, ts) == Err(ArrayIndexOutOfBounds)
  {
  }

  lemma {:induction false} CountRowPrefix(row: seq<int>, j: nat)
    requires j <= |row|
    ensures CountRow(row[..j]) <= CountRow(row)
    decreases |row| - j
  {
    if j == |row| {
      assert row[..j] == row;
    } else {
      CountRowPrefix(row, j + 1);
      assert row[..j + 1][..j] == row[..j];
    }
  }

  /** One more cell of a row counts one more exactly when it is non-zero. */
  lemma CountRowStep(row: seq<int>, j: nat)
    requires j < |row|
    ensures CountRow(row[..j + 1]) == CountRow(row[..j]) + (if row[j] != 0 then 1 else 0)
  {
    assert row[..j + 1][..j] == row[..j];
  }

  /** The cells of the first `i` rows and of row `i` are among all the cells. */
  lemma {:induction false} CountRowsPrefix(rows: seq<seq<int>>, i: nat)
    requires i < |rows|
    ensures CountRows(rows[..i]) + CountRow(rows[i]) == CountRows(rows[..i + 1]) <= CountRows(rows)
    decreases |rows| - i
  {
    assert rows[..i + 1][..i] == rows[..i];
    if i + 1 < |rows| {
      CountRowsPrefix(rows, i + 1);
    } else {
      assert rows[..i + 1] == rows;
    }
  }

  /** The board `b` with the cells before `(i, j)` in row-major order kept and
      the others zero. */
  function Overlay(b: seq<seq<int>>, i: int, j: int): (o: seq<seq<int>>)
    ensures |o| == |b| && forall r :: 0 <= r < |b| ==> |o[r]| == |b[r]|
    ensures forall r, c :: 0 <= r < |b| && 0 <= c < |b[r]| ==>
              o[r][c] == if r < i || (r == i && c < j) then b[r][c] else 0
  {
    seq(|b|, r requires 0 <= r < |b| =>
      seq(|b[r]|, c requires 0 <= c < |b[r]| => if r < i || (r == i && c < j) then b[r][c] else 0))
  }

  /** Boards with the same row lengths and the same cells are equal. */
  lemma SameShapeAndCells(a: seq<seq<int>>, b: seq<seq<int>>)
    requires |a| == |b| && forall r :: 0 <= r < |a| ==> |a[r]| == |b[r]|
    requires forall r, c :: 0 <= r < |a| && 0 <= c < |a[r]| ==> a[r][c] == b[r][c]
    ensures a == b
  {
    forall r | 0 <= r < |a| ensures a[r] == b[r] {
      assert forall c :: 0 <= c < |a[r]| ==> a[r][c] == b[r][c];
    }
  }

  /** One more cell of row `i` in row-major order: a non-zero cell is written,
      a zero cell is already there. */
  lemma OverlayStep(b: seq<seq<int>>, i: nat, j: nat)
    requires i < |b| && 0 < j <= |b[i]|
    ensures b[i][j - 1] != 0 ==> Place(Overlay(b, i, j - 1), [i, j - 1, b[i][j - 1]]) == Ok(Overlay(b, i, j))
    ensures b[i][j - 1] == 0 ==> Overlay(b, i, j - 1) == Overlay(b, i, j)
  {
    var o := Overlay(b, i, j - 1);
    var t := [i, j - 1, b[i][j - 1]];
    if b[i][j - 1] != 0 {
      SameShapeAndCells(Place(o, t).value, Overlay(b, i, j));
    } else {
      SameShapeAndCells(o, Overlay(b, i, j));
    }
  }

  /** Writing the triples of the cells before `(i, j)` into a zero board with
      `b`'s shape rebuilds those cells. */
  lemma {:induction false} ApplyTriplesPrefix(b: seq<seq<int>>, i: nat, j: nat)
    requires (i < |b| && j <= |b[i]|) || (i == |b| && j == 0)
    ensures Apply(Overlay(b, 0, 0), TriplesRows(b[..i]) + (if i < |b| then TriplesRow(i, b[i][..j]) else []))
            == Ok(Overlay(b, i, j))
    decreases i, j
  {
    if j > 0 {
      ApplyTriplesRowStep(b, i, j);
    } else if i > 0 {
      ApplyTriplesRowsStep(b, i);
    } else {
      assert b[..0] == [];
      assert TriplesRows(b[..0]) + (if 0 < |b| then TriplesRow(0, b[0][..0]) else []) == [] by {
        if 0 < |b| {
          assert b[0][..0] == [];
        }
      }
    }
  }

  lemma {:induction false} ApplyTriplesRowStep(b: seq<seq<int>>, i: nat, j: nat)
    requires i < |b| && 0 < j <= |b[i]|
    ensures Apply(Overlay(b, 0, 0), TriplesRows(b[..i]) + TriplesRow(i, b[i][..j])) == Ok(Overlay(b, i, j))
    decreases i, j, 0
  {
    var g := Overlay(b, 0, 0);
    var row, front := b[i][..j], b[i][..j - 1];
    assert row[..j - 1] == front;
    var done := TriplesRows(b[..i]);
    var ts := done + TriplesRow(i, front);
    ApplyTriplesPrefix(b, i, j - 1);
    assert Apply(g, ts) == Ok(Overlay(b, i, j - 1));
    OverlayStep(b, i, j);
    var v := b[i][j - 1];
    assert v == row[j - 1];
    if v != 0 {
      var t := [i, j - 1, v];
      assert TriplesRow(i, row) == TriplesRow(i, front) + [t];
      var all := ts + [t];
      assert done + TriplesRow(i, row) == all;
      assert all[..|all| - 1] == ts && all[|all| - 1] == t;
      assert Apply(g, all) == Place(Overlay(b, i, j - 1), t);
    } else {
      assert TriplesRow(i, row) == TriplesRow(i, front) + [];
      assert done + TriplesRow(i, row) == ts;
    }
  }

  lemma {:induction false} ApplyTriplesRowsStep(b: seq<seq<int>>, i: nat)
    requires 0 < i <= |b|
    ensures Apply(Overlay(b, 0, 0), TriplesRows(b[..i]) + (if i < |b| then TriplesRow(i, b[i][..0]) else []))
            == Ok(Overlay(b, i, 0))
    decreases i, 0, 0
  {
    var last := b[i - 1];
    assert b[..i][..i - 1] == b[..i - 1];
    assert last[..|last|] == last;
    ApplyTriplesPrefix(b, i - 1, |last|);
    var ts := TriplesRows(b[..i - 1]) + TriplesRow(i - 1, last);
    assert TriplesRows(b[..i]) == ts;
    EmptyRowHasNoTriples(b, i);
    assert ts + [] == ts;
    SameShapeAndCells(Overlay(b, i, 0), Overlay(b, i - 1, |last|));
  }

  lemma EmptyRowHasNoTriples(b: seq<seq<int>>, i: nat)
    requires i <= |b|
    ensures (if i < |b| then TriplesRow(i, b[i][..0]) else []) == []
  {
    if i < |b| {
      assert b[i][..0] == [];
    }
  }

  /** Writing all triples of a rectangular board into a zero board of its
      size rebuilds the board. */
  lemma TriplesRebuild(b: seq<seq<int>>, rows: nat, cols: nat)
    requires Rectangular(b, rows, cols)
    ensures Apply(Zeros(rows, cols), TriplesRows(b)) == Ok(b)
  {
    ApplyTriplesPrefix(b, |b|, 0);
    assert b[..|b|] == b;
    assert TriplesRows(b) + [] == TriplesRows(b);
    SameCells(Overlay(b, 0, 0), Zeros(rows, cols), rows, cols);
    SameCells(Overlay(b, |b|, 0), b, rows, cols);
  }

  /** The round trip holds for square boards of side at least two, where the
      widths of rows 0 and 1 are the board's height and width. */
  lemma RoundTripSquare(b: seq<seq<int>>, n: nat)
    requires n >= 2 && Rectangular(b, n, n)
    ensures Recover(Compress(b)) == Ok(b)
  {
    var chess := Compress(b);
    assert |b[0]| == n && |b[1]| == n;
    assert chess[0] == [n, n, CountRows(b)];
    assert chess[1..] == TriplesRows(b);
    RecoverIsApply(chess);
    TriplesRebuild(b, n, n);
  }

  /** As written, a board with two rows of three cells comes back with three
      rows: the header records the width of row 0 where the number of rows
      belongs, and the width of row 1 as the number of columns. */
  lemma NonSquareDoesNotRoundTrip()
    ensures var b := [[0, 0, 0], [0, 0, 0]];
            Recover(Compress(b)) == Ok(Zeros(3, 3)) && Recover(Compress(b)) != Ok(b)
  {
    var b: seq<seq<int>> := [[0, 0, 0], [0, 0, 0]];
    var row: seq<int> := [0, 0, 0];
    assert row[..2] == [0, 0] && row[..2][..1] == [0] && row[..2][..1][..0] == [];
    assert CountRow(row) == 0;
    assert b[..1] == [row] && b[..1][..0] == [];
    assert CountRows(b[..1]) == 0;
    assert CountRows(b) == 0;
    assert TriplesRows(b) == [];
    assert Compress(b) == [[3, 3, 0]];
    assert [[3, 3, 0]][1..] == [];
  }

  /** The sparse array with the header the code evidently intends:
      `[number of rows, width of row 0, count]`. */
  function CompressCorrected(arr: seq<seq<int>>): (chess: seq<seq<int>>)
    requires |arr| >= 1
    ensures |chess| == CountRows(arr) + 1
    ensures chess[0] == [|arr|, |arr[0]|, CountRows(arr)]
    ensures forall k :: 1 <= k < |chess| ==> ListsCell(arr, chess[k])
  {
    [[|arr|, |arr[0]|, CountRows(arr)]] + TriplesRows(arr)
  }

  /** With the corrected header every non-empty rectangular board round-trips. */
  lemma RoundTripCorrected(b: seq<seq<int>>, rows: nat, cols: nat)
    requires rows >= 1 && Rectangular(b, rows, cols)
    ensures Recover(CompressCorrected(b)) == Ok(b)
  {
    var chess := CompressCorrected(b);
    assert chess[1..] == TriplesRows(b);
    TriplesRebuild(b, rows, cols);
  }
}
