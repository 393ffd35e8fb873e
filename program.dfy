/**
 * The `plot(args)` entry point: every input line is parsed into a Point,
 * in input order, and the points are then laid out for drawing. Standard
 * input is the sequence `lines`; the separator and the number conversion
 * are the parser's configuration.
 */
module Program {
  import opened Wrappers
  import opened Parsing
  import opened Plotting

  /** `lines[k]` is the first line that does not parse. */
  ghost predicate FirstBadLine<N>(lines: seq<string>, sep: string, conv: string -> Option<N>, k: int)
  {
    && 0 <= k < |lines|
    && Parse(lines[k], sep, conv).Failure?
    && forall m | 0 <= m < k :: Parse(lines[m], sep, conv).Success?
  }

  /**
   * The loop that appends one parsed Point per line. It succeeds exactly
   * when every line parses, and then point `k` is line `k` parsed; the
   * first line that fails aborts the whole collection with its error.
   */
  method CollectPoints<N>(lines: seq<string>, sep: string, conv: string -> Option<N>)
    returns (r: Result<seq<Point<N>>, ParseError>)
    ensures r.Success? <==> forall k | 0 <= k < |lines| :: Parse(lines[k], sep, conv).Success?
    ensures r.Success? ==>
      && |r.value| == |lines|
      && forall k | 0 <= k < |lines| :: r.value[k] == Parse(lines[k], sep, conv).value
    ensures r.Failure? ==>
      exists k :: FirstBadLine(lines, sep, conv, k) && r.error == Parse(lines[k], sep, conv).error
  {
    var points: seq<Point<N>> := [];
    for i := 0 to |lines|
      invariant |points| == i
      invariant forall k | 0 <= k < i ::
        Parse(lines[k], sep, conv).Success? && points[k] == Parse(lines[k], sep, conv).value
    {
      var p := Parse(lines[i], sep, conv);
      if p.Failure? {
        assert FirstBadLine(lines, sep, conv, i);
        return Failure(p.error);
      }
      points := points + [p.value];
    }
    return Success(points);
  }

  /**
   * `plot(args)` without the drawing library: the draw calls made for the
   * input lines, or the error of the first line that does not parse, in
   * which case nothing at all is drawn.
   */
  method Plot<N>(lines: seq<string>, sep: string, conv: string -> Option<N>)
    returns (r: Result<seq<DrawCall<N>>, ParseError>)
    ensures r.Success? <==> forall k | 0 <= k < |lines| :: Parse(lines[k], sep, conv).Success?
    ensures r.Failure? ==>
      exists k :: FirstBadLine(lines, sep, conv, k) && r.error == Parse(lines[k], sep, conv).error
    ensures r.Success? && lines == [] ==> r.value == []
    ensures r.Success? ==> forall j | 0 <= j < |lines| ::
      |r.value| <= |Parse(lines[j], sep, conv).value.ys|
    ensures r.Success? && lines != [] ==> exists j | 0 <= j < |lines| ::
      |r.value| == |Parse(lines[j], sep, conv).value.ys|
    ensures r.Success? ==> forall i | 0 <= i < |r.value| ::
      && r.value[i].style == StyleFor(i)
      && |r.value[i].xs| == |lines|
      && |r.value[i].ys| == |lines|
      && forall j | 0 <= j < |lines| ::
           && r.value[i].xs[j] == Parse(lines[j], sep, conv).value.x
           && r.value[i].ys[j] == Parse(lines[j], sep, conv).value.ys[i]
  {
    var collected := CollectPoints(lines, sep, conv);
    if collected.Failure? {
      return Failure(collected.error);
    }
    var points := collected.value;
    LayoutSpec(points);
    var calls := DrawSeries(points);
    if points != [] {
      var j :| 0 <= j < |points| && |Layout(points).1| == |points[j].ys|;
      assert |calls| == |Parse(lines[j], sep, conv).value.ys|;
    }
    return Success(calls);
  }
}
