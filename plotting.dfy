/**
 * The data side of `Plotter.plot`: the x values, one series per y column
 * (Python's `zip(*[pt.ys for pt in points])`), and the line style each
 * series is drawn with. The drawing itself is recorded as a sequence of
 * draw calls instead of being sent to a plotting library.
 */
module Plotting {
  import opened Parsing

  /** The four line styles, each with circle markers: solid, dashed, dash-dot, dotted. */
  const Styles: seq<string> := ["-o", "--o", "-.o", ":o"]

  /** The style of series `i`: the styles are used in turn, starting again after the fourth. */
  function StyleFor(i: nat): (style: string)
    ensures style in Styles
  {
    Styles[i % |Styles|]
  }

  /** Two series share a style exactly when their indices are equal modulo the four styles. */
  lemma StyleCycle(i: nat, j: nat)
    ensures StyleFor(i) == StyleFor(j) <==> i % |Styles| == j % |Styles|
  {
    assert Styles[0] != Styles[1] && Styles[0] != Styles[2] && Styles[0] != Styles[3];
    assert Styles[1] != Styles[2] && Styles[1] != Styles[3];
    assert Styles[2][1] != Styles[3][1];
  }

  /** `[pt.x for pt in points]`. */
  function Xs<N>(points: seq<Point<N>>): (xs: seq<N>)
    ensures |xs| == |points|
    ensures forall j | 0 <= j < |points| :: xs[j] == points[j].x
  {
    if |points| == 0 then [] else [points[0].x] + Xs(points[1..])
  }

  /** `[pt.ys for pt in points]`. */
  function Rows<N>(points: seq<Point<N>>): (rows: seq<seq<N>>)
    ensures |rows| == |points|
    ensures forall j | 0 <= j < |points| :: rows[j] == points[j].ys
  {
    if |points| == 0 then [] else [points[0].ys] + Rows(points[1..])
  }

  /** The length of the shortest row; zero when there are no rows at all. */
  function Shortest<T>(rows: seq<seq<T>>): (m: nat)
    ensures rows == [] ==> m == 0
    ensures forall j | 0 <= j < |rows| :: m <= |rows[j]|
    ensures rows != [] ==> exists j | 0 <= j < |rows| :: m == |rows[j]|
  {
    if |rows| == 0 then 0
    else if |rows| == 1 then |rows[0]|
    else
      var rest := Shortest(rows[1..]);
      assert forall j | 1 <= j < |rows| :: rows[j] == rows[1..][j - 1];
      if |rows[0]| <= rest then |rows[0]| else rest
  }

  /** Every row has a next element. */
  predicate NoneExhausted<T>(rows: seq<seq<T>>) {
    forall j | 0 <= j < |rows| :: |rows[j]| > 0
  }

  /** The next element of every row: one tuple of `zip`. */
  function Heads<T>(rows: seq<seq<T>>): seq<T>
    requires NoneExhausted(rows)
  {
    seq(|rows|, j requires 0 <= j < |rows| => rows[j][0])
  }

  /** Every row with its first element consumed. */
  function Tails<T>(rows: seq<seq<T>>): seq<seq<T>>
    requires NoneExhausted(rows)
  {
    seq(|rows|, j requires 0 <= j < |rows| => rows[j][1..])
  }

  /**
   * `list(zip(*rows))`: as long as no row is exhausted, take the next
   * element of every row; no rows at all give no tuples.
   */
  function Zip<T>(rows: seq<seq<T>>): (zipped: seq<seq<T>>)
    ensures rows == [] ==> zipped == []
    ensures forall i | 0 <= i < |zipped| :: |zipped[i]| == |rows|
    ensures forall j | 0 <= j < |rows| :: |zipped| <= |rows[j]|
    decreases if rows == [] then 0 else |rows[0]|
  {
    if rows == [] || !NoneExhausted(rows) then []
    else
      var rest := Zip(Tails(rows));
      assert forall j | 0 <= j < |rows| :: |Tails(rows)[j]| == |rows[j]| - 1;
      assert forall i | 0 < i < |rest| + 1 :: ([Heads(rows)] + rest)[i] == rest[i - 1];
      [Heads(rows)] + rest
  }

  /** Consuming one element of every row shortens the shortest row by one. */
  lemma ShortestTails<T>(rows: seq<seq<T>>)
    requires rows != [] && NoneExhausted(rows)
    ensures Shortest(Tails(rows)) == Shortest(rows) - 1
  {
    var tails := Tails(rows);
    var m := Shortest(rows);
    var j0 :| 0 <= j0 < |rows| && m == |rows[j0]|;
    var j1 :| 0 <= j1 < |tails| && Shortest(tails) == |tails[j1]|;
    assert Shortest(tails) <= |tails[j0]|;
    assert m <= |rows[j1]|;
  }

  /**
   * Zip is the transpose cut to the shortest row: as many tuples as the
   * shortest row is long, each with one element per row, the `i`-th
   * element of row `j` in position `j` of tuple `i`.
   */
  lemma {:induction false} ZipTransposes<T>(rows: seq<seq<T>>)
    ensures |Zip(rows)| == Shortest(rows)
    ensures forall i | 0 <= i < |Zip(rows)| :: |Zip(rows)[i]| == |rows|
    ensures forall i, j | 0 <= i < |Zip(rows)| && 0 <= j < |rows| ::
      i < |rows[j]| && Zip(rows)[i][j] == rows[j][i]
    decreases if rows == [] then 0 else |rows[0]|
  {
    if rows != [] && NoneExhausted(rows) {
      var tails := Tails(rows);
      var rest := Zip(tails);
      var zip := [Heads(rows)] + rest;
      assert Zip(rows) == zip;
      ZipTransposes(tails);
      ShortestTails(rows);
      forall i | 0 <= i < |zip| ensures |zip[i]| == |rows| {
        if i > 0 { assert zip[i] == rest[i - 1]; }
      }
      forall i, j | 0 <= i < |zip| && 0 <= j < |rows|
        ensures i < |rows[j]| && zip[i][j] == rows[j][i]
      {
        assert i < Shortest(rows) <= |rows[j]|;
        if i > 0 {
          assert zip[i] == rest[i - 1];
          assert rest[i - 1][j] == tails[j][i - 1];
        }
      }
    } else if rows != [] {
      var j :| 0 <= j < |rows| && |rows[j]| == 0;
      assert Shortest(rows) <= |rows[j]|;
    }
  }

  /**
   * What `Plotter.plot` draws: the x values, and each series with its
   * style, in series order.
   */
  function Layout<N>(points: seq<Point<N>>): (layout: (seq<N>, seq<(seq<N>, string)>))
    ensures |layout.0| == |points|
    ensures points == [] ==> layout.1 == []
    ensures forall i | 0 <= i < |layout.1| :: |layout.1[i].0| == |points| && layout.1[i].1 in Styles
    ensures forall j | 0 <= j < |points| :: |layout.1| <= |points[j].ys|
  {
    var rows := Rows(points);
    var vals := Zip(rows);
    assert forall j | 0 <= j < |points| :: |rows[j]| == |points[j].ys|;
    (Xs(points), seq(|vals|, i requires 0 <= i < |vals| => (vals[i], StyleFor(i))))
  }

  /**
   * The layout in terms of the points: the x values in point order; as
   * many series as the shortest `ys` is long (none without points); series
   * `i` holds the `i`-th y value of every point, in point order, and is
   * drawn with style `i % |Styles|`.
   */
  lemma LayoutSpec<N>(points: seq<Point<N>>)
    ensures |Layout(points).0| == |points|
    ensures forall j | 0 <= j < |points| :: Layout(points).0[j] == points[j].x
    ensures points == [] ==> Layout(points).1 == []
    ensures forall j | 0 <= j < |points| :: |Layout(points).1| <= |points[j].ys|
    ensures points != [] ==> exists j | 0 <= j < |points| :: |Layout(points).1| == |points[j].ys|
    ensures forall i | 0 <= i < |Layout(points).1| ::
      |Layout(points).1[i].0| == |points| && Layout(points).1[i].1 == Styles[i % |Styles|]
    ensures forall i, j | 0 <= i < |Layout(points).1| && 0 <= j < |points| ::
      i < |points[j].ys| && Layout(points).1[i].0[j] == points[j].ys[i]
  {
    var rows := Rows(points);
    ZipTransposes(rows);
    if points != [] {
      var j :| 0 <= j < |rows| && Shortest(rows) == |rows[j]|;
      assert |points[j].ys| == |Layout(points).1|;
    }
  }

  /** One `plt.plot(xs, ys, style)` call. */
  datatype DrawCall<N> = DrawCall(xs: seq<N>, ys: seq<N>, style: string)

  /**
   * The loop over `enumerate(vals)`: one draw call per series, in series
   * order, each with all the x values, that series and its style.
   */
  method DrawSeries<N>(points: seq<Point<N>>) returns (calls: seq<DrawCall<N>>)
    ensures |calls| == |Layout(points).1|
    ensures forall i | 0 <= i < |calls| ::
      calls[i] == DrawCall(Layout(points).0, Layout(points).1[i].0, Layout(points).1[i].1)
  {
    var xs := Xs(points);
    var vals := Zip(Rows(points));
    calls := [];
    for i := 0 to |vals|
      invariant |calls| == i
      invariant forall k | 0 <= k < i :: calls[k] == DrawCall(xs, vals[k], Styles[k % |Styles|])
    {
      calls := calls + [DrawCall(xs, vals[i], Styles[i % |Styles|])];
    }
  }
}
