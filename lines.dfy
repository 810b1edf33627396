/** `remove_lines`: repair of column-correlated line defects.  Columns whose
    total is strictly above an upper or strictly below a lower percentile of
    the column totals are flagged; each pixel of a flagged column is then
    replaced, in place, by the median of the pixels at offsets -5..5 in its
    row, using numpy's indexing: an index past the end is skipped (the
    IndexError is swallowed), a negative index counts from the end of the
    row, and pixels repaired earlier are read with their new values. */
module Lines {
  import opened Results
  import opened Stats
  import opened Grids

  /** The default percentile limits of remove_lines. */
  const MaxLim: real := 95.0
  const MinLim: real := 10.0

  /** Sum of column `j` over the first `n` rows. */
  function ColumnSum(g: Image, j: nat, n: nat): real
    requires n <= g.rows && j < g.cols
  {
    if n == 0 then 0.0 else ColumnSum(g, j, n - 1) + g.px[n - 1][j]
  }

  /** np.sum(data, axis=0): one total per column. */
  function Profile(g: Image): (p: seq<real>)
    ensures |p| == g.cols
  {
    seq(g.cols, j requires 0 <= j < g.cols => ColumnSum(g, j, g.rows))
  }

  /** [index for index, value in enumerate(flags) if value == True]. */
  function IndicesWhere(flags: seq<bool>): (r: seq<nat>)
    ensures forall i :: i in r <==> 0 <= i < |flags| && flags[i]
    ensures forall a, b :: 0 <= a < b < |r| ==> r[a] < r[b]
    ensures forall n :: 0 <= n < |r| ==> r[n] < |flags|
    ensures (forall i :: 0 <= i < |flags| ==> !flags[i]) ==> r == []
  {
    if |flags| == 0 then []
    else
      var rest := IndicesWhere(flags[..|flags| - 1]);
      var r := rest + (if flags[|flags| - 1] then [|flags| - 1] else []);
      IndicesSnoc(flags, rest, r);
      r
  }

  /** The step of IndicesWhere: the indices of all but the last flag, then
      the last index if its flag is set. */
  lemma IndicesSnoc(flags: seq<bool>, rest: seq<nat>, r: seq<nat>)
    requires |flags| > 0 && r == rest + (if flags[|flags| - 1] then [|flags| - 1] else [])
    requires forall i :: i in rest <==> 0 <= i < |flags| - 1 && flags[i]
    requires forall a, b :: 0 <= a < b < |rest| ==> rest[a] < rest[b]
    requires forall n :: 0 <= n < |rest| ==> rest[n] < |flags| - 1
    requires (forall i :: 0 <= i < |flags| - 1 ==> !flags[i]) ==> rest == []
    ensures forall i :: i in r <==> 0 <= i < |flags| && flags[i]
    ensures forall a, b :: 0 <= a < b < |r| ==> r[a] < r[b]
    ensures forall n :: 0 <= n < |r| ==> r[n] < |flags|
    ensures (forall i :: 0 <= i < |flags| ==> !flags[i]) ==> r == []
  {
  }

  /** Columns whose total exceeds the `maxLim`-th percentile, ascending. */
  function BrightColumns(g: Image, maxLim: real): (r: seq<nat>)
    requires g.cols > 0 && 0.0 <= maxLim <= 100.0
    ensures forall c: nat :: c in r <==> c < g.cols && Profile(g)[c] > Percentile(Profile(g), maxLim)
    ensures (forall c :: 0 <= c < g.cols ==> Profile(g)[c] <= Percentile(Profile(g), maxLim)) ==> r == []
    ensures forall a, b :: 0 <= a < b < |r| ==> r[a] < r[b]
  {
    var p := Profile(g);
    var t := Percentile(p, maxLim);
    IndicesWhere(seq(|p|, j requires 0 <= j < |p| => p[j] > t))
  }

  /** Columns whose total is below the `minLim`-th percentile, ascending. */
  function DarkColumns(g: Image, minLim: real): (r: seq<nat>)
    requires g.cols > 0 && 0.0 <= minLim <= 100.0
    ensures forall c: nat :: c in r <==> c < g.cols && Profile(g)[c] < Percentile(Profile(g), minLim)
    ensures (forall c :: 0 <= c < g.cols ==> Profile(g)[c] >= Percentile(Profile(g), minLim)) ==> r == []
    ensures forall a, b :: 0 <= a < b < |r| ==> r[a] < r[b]
  {
    var p := Profile(g);
    var t := Percentile(p, minLim);
    IndicesWhere(seq(|p|, j requires 0 <= j < |p| => p[j] < t))
  }

  /** The columns in the order they are repaired: bright, then dark. */
  function Flagged(g: Image, maxLim: real, minLim: real): (r: seq<nat>)
    requires g.cols > 0 && 0.0 <= maxLim <= 100.0 && 0.0 <= minLim <= 100.0
    ensures forall n :: 0 <= n < |r| ==> r[n] < g.cols
  {
    var b, d := BrightColumns(g, maxLim), DarkColumns(g, minLim);
    ConcatBelow(b, d, g.cols);
    b + d
  }

  /** Two lists of values below `m` joined are still below `m`. */
  lemma ConcatBelow(b: seq<nat>, d: seq<nat>, m: nat)
    requires forall c :: c in b ==> c < m
    requires forall c :: c in d ==> c < m
    ensures forall n :: 0 <= n < |b + d| ==> (b + d)[n] < m
  {
    forall n | 0 <= n < |b + d| ensures (b + d)[n] < m {
      if n < |b| { assert b[n] in b; } else { assert d[n - |b|] in d; }
    }
  }

  /** numpy's reading of an integer index into an axis of length `n`. */
  function PyIndex(idx: int, n: nat): Option<nat>
  {
    if 0 <= idx < n then Some(idx)
    else if -(n as int) <= idx < 0 then Some(idx + n)
    else None
  }

  /** What `index_list.append(row[idx])` adds: one value, or nothing when the
      index raises. */
  function Pick(row: seq<real>, idx: int): seq<real>
  {
    match PyIndex(idx, |row|)
    case Some(k) => [row[k]]
    case None => []
  }

  /** `index_list` after the offsets -5 .. hi - 1 around column `col`. */
  function Window(row: seq<real>, col: int, hi: int): (w: seq<real>)
    requires -5 <= hi <= 6
    ensures |w| <= hi + 5
    ensures 0 <= col < |row| && hi >= 1 ==> |w| >= 1
    decreases hi + 5
  {
    if hi == -5 then []
    else Window(row, col, hi - 1) + Pick(row, col + hi - 1)
  }

  /** The window around `col` in `row`: all eleven offsets. */
  function Neighbourhood(row: seq<real>, col: int): seq<real>
  {
    Window(row, col, 6)
  }

  /** One pixel repaired: row[col] replaced by the median of its window. */
  function RepairPixel(row: seq<real>, col: nat): (r: seq<real>)
    requires col < |row|
    ensures |r| == |row|
  {
    row[col := Median(Neighbourhood(row, col))]
  }

  /** Every row's pixel in column `col` repaired. */
  function RepairColumn(g: Image, col: nat): (r: Image)
    requires col < g.cols
    ensures SameShape(r, g)
  {
    Grid(g.rows, g.cols, seq(g.rows, i requires 0 <= i < g.rows => RepairPixel(g.px[i], col)))
  }

  /** The columns `cols` repaired one after the other, each reading the
      result of the ones before. */
  function RepairAll(g: Image, cols: seq<nat>): (r: Image)
    requires forall n :: 0 <= n < |cols| ==> cols[n] < g.cols
    ensures SameShape(r, g)
    decreases |cols|
  {
    if |cols| == 0 then g else RepairAll(RepairColumn(g, cols[0]), cols[1..])
  }

  /** What remove_lines returns for `img`. */
  function Cleaned(img: Image, maxLim: real, minLim: real): (r: Image)
    requires img.cols > 0 && 0.0 <= maxLim <= 100.0 && 0.0 <= minLim <= 100.0
    ensures SameShape(r, img)
  {
    RepairAll(img, Flagged(img, maxLim, minLim))
  }

  /** Concatenation of a list of column lists. */
  function Flatten(ls: seq<seq<nat>>): seq<nat>
  {
    if |ls| == 0 then [] else ls[0] + Flatten(ls[1..])
  }

  /** The array holds the pixels of `g`. */
  ghost predicate Mirrors(a: array2<real>, g: Image)
    reads a
  {
    a.Length0 == g.rows && a.Length1 == g.cols &&
    forall i, j :: 0 <= i < g.rows && 0 <= j < g.cols ==> a[i, j] == g.px[i][j]
  }

  /** The innermost loop of remove_lines: index_list for pixel (row, col),
      where `vals` is what row `row` of the array holds. */
  method CollectWindow(data: array2<real>, ghost vals: seq<real>, row: nat, col: nat) returns (indexList: seq<real>)
    requires row < data.Length0 && |vals| == data.Length1
    requires forall j :: 0 <= j < |vals| ==> data[row, j] == vals[j]
    ensures indexList == Neighbourhood(vals, col)
  {
    indexList := [];
    for n := -5 to 6
      invariant indexList == Window(vals, col, n)
    {
      var at := PyIndex(col + n, data.Length1);
      if at.Some? {
        indexList := indexList + [data[row, at.value]];
      }
    }
  }

  /** One pixel of remove_lines: data[row][col] set to the median of its
      window, read from the array as it stands. */
  method RepairPixelInPlace(data: array2<real>, ghost vals: seq<real>, row: nat, col: nat)
    requires row < data.Length0 && col < data.Length1 && |vals| == data.Length1
    requires forall j :: 0 <= j < |vals| ==> data[row, j] == vals[j]
    modifies data
    ensures data[row, col] == Median(Neighbourhood(vals, col))
    ensures forall r, j :: 0 <= r < data.Length0 && 0 <= j < data.Length1 && (r != row || j != col) ==> data[r, j] == old(data[r, j])
  {
    var indexList := CollectWindow(data, vals, row, col);
    data[row, col] := Median(indexList);
  }

  /** The loop over the rows for one flagged column: each pixel of the
      column is overwritten with the median of its window. */
  method RepairColumnInPlace(data: array2<real>, ghost g: Image, col: nat)
    requires Mirrors(data, g) && col < g.cols
    modifies data
    ensures Mirrors(data, RepairColumn(g, col))
  {
    ghost var meds := seq(g.rows, r requires 0 <= r < g.rows => Median(Neighbourhood(g.px[r], col)));
    for row := 0 to data.Length0
      invariant forall r, j :: 0 <= r < g.rows && 0 <= j < g.cols && j != col ==> data[r, j] == g.px[r][j]
      invariant forall r :: 0 <= r < row ==> data[r, col] == meds[r]
      invariant forall r :: row <= r < g.rows ==> data[r, col] == g.px[r][col]
    {
      assert |g.px[row]| == g.cols;
      RepairPixelInPlace(data, g.px[row], row, col);
      assert data[row, col] == meds[row];
    }
    RepairedColumnMirrors(data, g, col);
  }

  /** The array repaired in column `col` row by row mirrors RepairColumn. */
  lemma RepairedColumnMirrors(data: array2<real>, g: Image, col: nat)
    requires data.Length0 == g.rows && data.Length1 == g.cols && col < g.cols
    requires forall r, j :: 0 <= r < g.rows && 0 <= j < g.cols && j != col ==> data[r, j] == g.px[r][j]
    requires forall r :: 0 <= r < g.rows ==> data[r, col] == Median(Neighbourhood(g.px[r], col))
    ensures Mirrors(data, RepairColumn(g, col))
  {
    forall i, j | 0 <= i < g.rows && 0 <= j < g.cols
      ensures data[i, j] == RepairColumn(g, col).px[i][j]
    {
      assert RepairColumn(g, col).px[i] == RepairPixel(g.px[i], col);
    }
  }

  /** The loop over one list of flagged columns, in list order. */
  method RepairColumnsInPlace(data: array2<real>, ghost g: Image, cols: seq<nat>)
    requires Mirrors(data, g)
    requires forall n :: 0 <= n < |cols| ==> cols[n] < g.cols
    modifies data
    ensures Mirrors(data, RepairAll(g, cols))
  {
    ghost var cur: Image := g;
    for k := 0 to |cols|
      invariant Mirrors(data, cur) && SameShape(cur, g)
      invariant RepairAll(cur, cols[k..]) == RepairAll(g, cols)
    {
      assert cols[k..][1..] == cols[k + 1..];
      RepairColumnInPlace(data, cur, cols[k]);
      cur := RepairColumn(cur, cols[k]);
    }
    assert cols[|cols|..] == [];
  }

  /** Repairing two column lists one after the other is repairing their
      concatenation. */
  lemma {:induction false} RepairAllAppend(g: Image, a: seq<nat>, b: seq<nat>)
    requires forall n :: 0 <= n < |a| ==> a[n] < g.cols
    requires forall n :: 0 <= n < |b| ==> b[n] < g.cols
    ensures forall n :: 0 <= n < |a + b| ==> (a + b)[n] < g.cols
    ensures RepairAll(g, a + b) == RepairAll(RepairAll(g, a), b)
    decreases |a|
  {
    assert forall n :: 0 <= n < |a + b| ==> (a + b)[n] == if n < |a| then a[n] else b[n - |a|];
    if |a| > 0 {
      assert (a + b)[1..] == a[1..] + b;
      RepairAllAppend(RepairColumn(g, a[0]), a[1..], b);
    } else {
      assert a + b == b;
    }
  }

  /** img.copy(): a fresh array holding the pixels of `img`. */
  method CopyIn(img: Image) returns (data: array2<real>)
    ensures fresh(data) && Mirrors(data, img)
  {
    data := new real[img.rows, img.cols];
    forall i, j | 0 <= i < img.rows && 0 <= j < img.cols {
      data[i, j] := img.px[i][j];
    }
  }

  /** The array's pixels as an image. */
  method ReadBack(data: array2<real>, ghost g: Image) returns (out: Image)
    requires Mirrors(data, g)
    ensures out == g
  {
    out := Grid(data.Length0, data.Length1, seq(data.Length0, i requires 0 <= i < data.Length0 reads data =>
                 seq(data.Length1, j requires 0 <= j < data.Length1 reads data => data[i, j])));
    forall i | 0 <= i < g.rows ensures out.px[i] == g.px[i] {
      assert |g.px[i]| == g.cols;
    }
    assert out.px == g.px;
  }

  /** remove_lines(img, max_lim, min_lim) as the pipeline runs it: copy the
      image into an array, flag columns, and repair them in place, the
      bright list first and then the dark one, each in ascending order. */
  method RemoveLines(img: Image, maxLim: real, minLim: real) returns (out: Image)
    requires img.cols > 0 && 0.0 <= maxLim <= 100.0 && 0.0 <= minLim <= 100.0
    ensures out == Cleaned(img, maxLim, minLim)
  {
    var data := CopyIn(img);
    var bright := BrightColumns(img, maxLim);
    var dark := DarkColumns(img, minLim);
    var lineLists: seq<seq<nat>> := [bright, dark];
    assert Flatten(lineLists) == Flagged(img, maxLim, minLim) by {
      assert lineLists[1..] == [dark] && lineLists[2..] == [];
      assert Flatten(lineLists[1..]) == dark + Flatten(lineLists[2..]);
    }
    ghost var cur: Image := img;
    ghost var target := Cleaned(img, maxLim, minLim);
    for li := 0 to 2
      invariant Mirrors(data, cur) && SameShape(cur, img)
      invariant forall n :: 0 <= n < |Flatten(lineLists[li..])| ==> Flatten(lineLists[li..])[n] < img.cols
      invariant RepairAll(cur, Flatten(lineLists[li..])) == target
    {
      var line := lineLists[li];
      ghost var later := Flatten(lineLists[li + 1..]);
      assert Flatten(lineLists[li..]) == line + later by {
        assert lineLists[li..][1..] == lineLists[li + 1..];
      }
      assert forall n :: 0 <= n < |line| ==> line[n] == (line + later)[n];
      RepairColumnsInPlace(data, cur, line);
      RepairAllAppend(cur, line, later);
      cur := RepairAll(cur, line);
    }
    out := ReadBack(data, cur);
  }

  // ----- properties -----

  /** With the lower limit at most the upper one, no column is both bright
      and dark. */
  lemma FlagsDisjoint(g: Image, maxLim: real, minLim: real)
    requires g.cols > 0 && 0.0 <= minLim <= maxLim <= 100.0
    ensures forall c :: c in BrightColumns(g, maxLim) ==> c !in DarkColumns(g, minLim)
  {
    PercentileMonotone(Profile(g), minLim, maxLim);
  }

  /** The default limits are percentiles with min_lim below max_lim, so
      with them no column is both a bright and a dark line. */
  lemma DefaultLimitsDisjoint(g: Image)
    requires g.cols > 0
    ensures 0.0 <= MinLim <= MaxLim <= 100.0
    ensures forall c :: c in BrightColumns(g, MaxLim) ==> c !in DarkColumns(g, MinLim)
  {
    FlagsDisjoint(g, MaxLim, MinLim);
  }

  /** One offset more: the window grows by what that offset picks. */
  lemma WindowStep(row: seq<real>, col: int, hi: int)
    requires -5 < hi <= 6
    ensures Window(row, col, hi) == Window(row, col, hi - 1) + Pick(row, col + hi - 1)
  {
  }

  lemma AppendAssoc(a: seq<real>, b: seq<real>, c: seq<real>)
    ensures (a + b) + c == a + (b + c)
  {
  }

  lemma PrefixOfAppend(a: seq<real>, b: seq<real>, c: seq<real>)
    requires a <= b
    ensures a <= b + c
  {
    assert (b + c)[..|a|] == b[..|a|];
  }

  /** A slice is its shorter slice followed by its last element. */
  lemma SliceSnoc(row: seq<real>, i: int, j: int)
    requires 0 <= i < j <= |row|
    ensures row[i .. j] == row[i .. j - 1] + [row[j - 1]]
  {
  }

  /** A shorter window is the beginning of a longer one. */
  lemma {:induction false} WindowPrefix(row: seq<real>, col: int, lo: int, hi: int)
    requires -5 <= lo <= hi <= 6
    ensures Window(row, col, lo) <= Window(row, col, hi)
    decreases hi - lo
  {
    if lo < hi {
      WindowPrefix(row, col, lo, hi - 1);
      WindowStep(row, col, hi);
      PrefixOfAppend(Window(row, col, lo), Window(row, col, hi - 1), Pick(row, col + hi - 1));
    }
  }

  /** Every value of a window is a pixel of the row. */
  lemma {:induction false} WindowFromRow(row: seq<real>, col: int, hi: int)
    requires -5 <= hi <= 6
    ensures forall x :: x in Window(row, col, hi) ==> x in row
    decreases hi + 5
  {
    if hi > -5 {
      WindowFromRow(row, col, hi - 1);
    }
  }

  /** The pixel being repaired is one of the values its median is taken of. */
  lemma NeighbourhoodHasCentre(row: seq<real>, col: nat)
    requires col < |row|
    ensures row[col] in Neighbourhood(row, col)
  {
    WindowPrefix(row, col, 1, 6);
    WindowStep(row, col, 1);
    PickDirect(row, col);
    assert Window(row, col, 1) == Window(row, col, 0) + [row[col]];
  }

  /** An index inside the row picks that pixel. */
  lemma PickDirect(row: seq<real>, idx: int)
    requires 0 <= idx < |row|
    ensures Pick(row, idx) == [row[idx]]
  {
  }

  /** A negative index not below -|row| picks from the far end. */
  lemma PickWrapped(row: seq<real>, idx: int)
    requires -|row| <= idx < 0
    ensures Pick(row, idx) == [row[idx + |row|]]
  {
  }

  /** An index past the end picks nothing. */
  lemma PickBeyond(row: seq<real>, idx: int)
    requires |row| <= idx
    ensures Pick(row, idx) == []
  {
  }

  /** Offsets whose column lies inside the row read the row directly. */
  lemma {:induction false} WindowInRange(row: seq<real>, col: int, lo: int, hi: int)
    requires -5 <= lo <= hi <= 6 && 0 <= col + lo && col + hi <= |row|
    ensures Window(row, col, hi) == Window(row, col, lo) + row[col + lo .. col + hi]
    decreases hi - lo
  {
    if lo < hi {
      WindowInRange(row, col, lo, hi - 1);
      WindowStep(row, col, hi);
      PickDirect(row, col + hi - 1);
      SliceSnoc(row, col + lo, col + hi);
      AppendAssoc(Window(row, col, lo), row[col + lo .. col + hi - 1], [row[col + hi - 1]]);
    } else {
      assert row[col + lo .. col + hi] == [];
    }
  }

  /** Offsets whose column is negative, but not below -|row|, read the row
      from its far end. */
  lemma {:induction false} WindowWrapped(row: seq<real>, col: int, lo: int, hi: int)
    requires -5 <= lo <= hi <= 6 && -|row| <= col + lo && col + hi <= 0
    ensures Window(row, col, hi) == Window(row, col, lo) + row[col + lo + |row| .. col + hi + |row|]
    decreases hi - lo
  {
    var n := |row|;
    var i, j := col + lo + n, col + hi + n;
    if lo < hi {
      WindowWrapped(row, col, lo, hi - 1);
      assert Window(row, col, hi - 1) == Window(row, col, lo) + row[i .. j - 1];
      WindowStep(row, col, hi);
      PickWrapped(row, col + hi - 1);
      assert Pick(row, col + hi - 1) == [row[j - 1]];
      SliceSnoc(row, i, j);
      AppendAssoc(Window(row, col, lo), row[i .. j - 1], [row[j - 1]]);
    } else {
      assert row[i .. j] == [];
    }
  }

  /** Offsets past the end of the row add nothing. */
  lemma {:induction false} WindowBeyond(row: seq<real>, col: int, lo: int, hi: int)
    requires -5 <= lo <= hi <= 6 && |row| <= col + lo
    ensures Window(row, col, hi) == Window(row, col, lo)
    decreases hi - lo
  {
    if lo < hi {
      WindowBeyond(row, col, lo, hi - 1);
      WindowStep(row, col, hi);
      PickBeyond(row, col + hi - 1);
      assert Window(row, col, hi - 1) + [] == Window(row, col, hi - 1);
    }
  }

  /** Away from the edges the window is the eleven pixels centred on `col`. */
  lemma NeighbourhoodInterior(row: seq<real>, col: nat)
    requires 5 <= col && col + 6 <= |row|
    ensures Neighbourhood(row, col) == row[col - 5 .. col + 6]
  {
    WindowInRange(row, col, -5, 6);
    assert Window(row, col, -5) == [];
    assert Window(row, col, -5) + row[col - 5 .. col + 6] == row[col - 5 .. col + 6];
  }

  /** In the first column the five offsets to the left wrap round to the last
      five pixels of the row. */
  lemma NeighbourhoodFirstColumn(row: seq<real>)
    requires |row| >= 6
    ensures Neighbourhood(row, 0) == row[|row| - 5..] + row[..6]
  {
    var n := |row|;
    WindowWrapped(row, 0, -5, 0);
    WindowInRange(row, 0, 0, 6);
    assert Window(row, 0, -5) == [];
    assert row[n - 5 .. n] == row[n - 5..];
    assert row[0 .. 6] == row[..6];
  }

  /** In the last column the five offsets to the right are skipped. */
  lemma NeighbourhoodLastColumn(row: seq<real>)
    requires |row| >= 6
    ensures Neighbourhood(row, |row| - 1) == row[|row| - 6..]
  {
    WindowInRange(row, |row| - 1, -5, 1);
    WindowBeyond(row, |row| - 1, 1, 6);
  }

  /** A column whose total is strictly above every other column's total is
      a bright line, for any image of two or more columns. */
  lemma BrightestColumnFlagged(g: Image, c: nat)
    requires 2 <= g.cols && c < g.cols
    requires forall j :: 0 <= j < g.cols && j != c ==> Profile(g)[j] < Profile(g)[c]
    ensures c in BrightColumns(g, MaxLim)
  {
    PercentileBelowUniqueMax(Profile(g), MaxLim, c);
  }

  /** A column whose total is strictly below every other column's total is
      a dark line, for any image of two or more columns. */
  lemma DarkestColumnFlagged(g: Image, c: nat)
    requires 2 <= g.cols && c < g.cols
    requires forall j :: 0 <= j < g.cols && j != c ==> Profile(g)[j] > Profile(g)[c]
    ensures c in DarkColumns(g, MinLim)
  {
    PercentileAboveUniqueMin(Profile(g), MinLim, c);
  }

  /** Every pixel of `g` lies in [lo, hi]. */
  predicate Bounded(g: Image, lo: real, hi: real)
  {
    forall i, j :: 0 <= i < g.rows && 0 <= j < g.cols ==> lo <= g.px[i][j] <= hi
  }

  /** A repaired pixel lies between the smallest and the largest pixel of its
      row. */
  lemma RepairPixelBetween(row: seq<real>, col: nat)
    requires col < |row|
    ensures SeqMin(row) <= RepairPixel(row, col)[col] <= SeqMax(row)
  {
    var w := Neighbourhood(row, col);
    WindowFromRow(row, col, 6);
    MedianBetween(w);
    assert SeqMin(w) in row && SeqMax(w) in row;
  }

  /** Repairing a column keeps every pixel within bounds the image keeps. */
  lemma RepairColumnBounded(g: Image, col: nat, lo: real, hi: real)
    requires col < g.cols && Bounded(g, lo, hi)
    ensures Bounded(RepairColumn(g, col), lo, hi)
  {
    forall i | 0 <= i < g.rows
      ensures forall j :: 0 <= j < g.cols ==> lo <= RepairColumn(g, col).px[i][j] <= hi
    {
      var row := g.px[i];
      assert |row| == g.cols;
      assert forall x :: x in row ==> lo <= x <= hi;
      RepairPixelBetween(row, col);
      assert RepairColumn(g, col).px[i] == RepairPixel(row, col);
    }
  }

  /** Repairing any list of columns keeps the pixels within the image's
      bounds: medians never leave the range of what they are taken of. */
  lemma {:induction false} RepairAllBounded(g: Image, cols: seq<nat>, lo: real, hi: real)
    requires forall n :: 0 <= n < |cols| ==> cols[n] < g.cols
    requires Bounded(g, lo, hi)
    ensures Bounded(RepairAll(g, cols), lo, hi)
    decreases |cols|
  {
    if |cols| > 0 {
      RepairColumnBounded(g, cols[0], lo, hi);
      RepairAllBounded(RepairColumn(g, cols[0]), cols[1..], lo, hi);
    }
  }

  /** A column outside the list is left as it was. */
  lemma {:induction false} RepairAllKeeps(g: Image, cols: seq<nat>, i: nat, j: nat)
    requires forall n :: 0 <= n < |cols| ==> cols[n] < g.cols
    requires i < g.rows && j < g.cols && j !in cols
    ensures RepairAll(g, cols).px[i][j] == g.px[i][j]
    decreases |cols|
  {
    if |cols| > 0 {
      var h := RepairColumn(g, cols[0]);
      assert h.px[i] == RepairPixel(g.px[i], cols[0]);
      assert j !in cols[1..];
      RepairAllKeeps(h, cols[1..], i, j);
    }
  }

  /** remove_lines keeps every pixel within the range of the input, and leaves
      the columns whose totals lie between the two percentiles untouched. */
  lemma CleanedFacts(img: Image, maxLim: real, minLim: real, lo: real, hi: real)
    requires img.cols > 0 && 0.0 <= maxLim <= 100.0 && 0.0 <= minLim <= 100.0
    requires Bounded(img, lo, hi)
    ensures Bounded(Cleaned(img, maxLim, minLim), lo, hi)
    ensures forall i, j ::
      (0 <= i < img.rows && 0 <= j < img.cols &&
       Percentile(Profile(img), minLim) <= Profile(img)[j] <= Percentile(Profile(img), maxLim)) ==>
      Cleaned(img, maxLim, minLim).px[i][j] == img.px[i][j]
  {
    var cols := Flagged(img, maxLim, minLim);
    var b, d := BrightColumns(img, maxLim), DarkColumns(img, minLim);
    assert cols == b + d;
    RepairAllBounded(img, cols, lo, hi);
    forall i, j | 0 <= i < img.rows && 0 <= j < img.cols &&
      Percentile(Profile(img), minLim) <= Profile(img)[j] <= Percentile(Profile(img), maxLim)
      ensures Cleaned(img, maxLim, minLim).px[i][j] == img.px[i][j]
    {
      assert j !in b && j !in d;
      RepairAllKeeps(img, cols, i, j);
    }
  }

  /** Column totals of a uniform image. */
  lemma {:induction false} ColumnSumUniform(g: Image, v: real, j: nat, n: nat)
    requires n <= g.rows && j < g.cols && Uniform(g, v)
    ensures ColumnSum(g, j, n) == v * n as real
  {
    if n > 0 {
      ColumnSumUniform(g, v, j, n - 1);
      assert v * (n - 1) as real + v == v * n as real;
    }
  }

  /** Every column total of a uniform image is the same. */
  lemma UniformProfile(img: Image, v: real)
    requires Uniform(img, v)
    ensures forall j :: 0 <= j < |Profile(img)| ==> Profile(img)[j] == v * img.rows as real
  {
    var p := Profile(img);
    forall j | 0 <= j < |p| ensures p[j] == v * img.rows as real {
      ColumnSumUniform(img, v, j, img.rows);
    }
  }

  /** Every percentile of a constant profile is that constant. */
  lemma ConstantPercentile(p: seq<real>, c: real, q: real)
    requires |p| > 0 && 0.0 <= q <= 100.0
    requires forall j :: 0 <= j < |p| ==> p[j] == c
    ensures Percentile(p, q) == c
  {
    assert SeqMin(p) == c && SeqMax(p) == c;
    PercentileBetween(p, q);
  }

  /** A uniform image has no column total strictly above or below a
      percentile, so nothing is flagged. */
  lemma UniformNotFlagged(img: Image, v: real, maxLim: real, minLim: real)
    requires img.cols > 0 && 0.0 <= maxLim <= 100.0 && 0.0 <= minLim <= 100.0
    requires Uniform(img, v)
    ensures Flagged(img, maxLim, minLim) == []
  {
    var p := Profile(img);
    var c := v * img.rows as real;
    UniformProfile(img, v);
    ConstantPercentile(p, c, maxLim);
    ConstantPercentile(p, c, minLim);
    var b, d := BrightColumns(img, maxLim), DarkColumns(img, minLim);
    assert b == [] && d == [];
    assert Flagged(img, maxLim, minLim) == b + d;
  }

  /** A uniform image comes back from remove_lines unchanged. */
  lemma CleanedUniform(img: Image, v: real, maxLim: real, minLim: real)
    requires img.cols > 0 && 0.0 <= maxLim <= 100.0 && 0.0 <= minLim <= 100.0
    requires Uniform(img, v)
    ensures Cleaned(img, maxLim, minLim) == img
  {
    UniformNotFlagged(img, v, maxLim, minLim);
  }
}
