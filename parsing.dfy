/**
 * The line parser: one input line becomes a Point whose `x` is the first
 * field and whose `ys` are the remaining fields, in order.
 *
 * Python's `float(...)` is not modelled: the number conversion is the
 * parameter `conv`, a partial function from a field's text to a number of
 * type `N` (`None` where `float` raises).
 */
module Parsing {
  import opened Wrappers
  import opened PyStr

  /** One parsed input record. */
  datatype Point<N> = Point(x: N, ys: seq<N>)

  /**
   * Why a line does not parse: `float` could not convert a field (the
   * error names it), or `split` was given an empty separator.
   */
  datatype ParseError = NotANumber(text: string) | EmptySeparator

  /** The fields of a line: `line.strip("\n").split(sep)`. */
  function Fields(line: string, sep: string): (items: seq<string>)
    requires |sep| > 0
    ensures |items| >= 1
  {
    Split(Strip(line), sep)
  }

  /** Converts the texts left to right, stopping at the first one that is not a number. */
  function ConvertAll<N>(texts: seq<string>, conv: string -> Option<N>): (r: Result<seq<N>, ParseError>)
    ensures r.Success? ==> |r.value| == |texts|
    ensures r.Failure? ==> r.error.NotANumber? && r.error.text in texts
  {
    if |texts| == 0 then Success([])
    else match conv(texts[0])
      case None => Failure(NotANumber(texts[0]))
      case Some(v) =>
        match ConvertAll(texts[1..], conv)
        case Failure(e) => Failure(e)
        case Success(vs) => Success([v] + vs)
  }

  /** Every text converts. */
  ghost predicate AllNumbers<N>(texts: seq<string>, conv: string -> Option<N>) {
    forall k | 0 <= k < |texts| :: conv(texts[k]).Some?
  }

  /** `texts[k]` is the first text that does not convert. */
  ghost predicate FirstNonNumber<N>(texts: seq<string>, conv: string -> Option<N>, k: int) {
    && 0 <= k < |texts|
    && conv(texts[k]).None?
    && forall m | 0 <= m < k :: conv(texts[m]).Some?
  }

  lemma {:induction false} ConvertAllSpec<N>(texts: seq<string>, conv: string -> Option<N>)
    ensures ConvertAll(texts, conv).Success? <==> AllNumbers(texts, conv)
    ensures ConvertAll(texts, conv).Success? ==>
      && |ConvertAll(texts, conv).value| == |texts|
      && forall k | 0 <= k < |texts| :: ConvertAll(texts, conv).value[k] == conv(texts[k]).value
    ensures ConvertAll(texts, conv).Failure? ==>
      exists k :: FirstNonNumber(texts, conv, k) && ConvertAll(texts, conv).error == NotANumber(texts[k])
  {
    if |texts| > 0 {
      var tail := texts[1..];
      ConvertAllSpec(tail, conv);
      assert forall k | 1 <= k < |texts| :: texts[k] == tail[k - 1];
      if conv(texts[0]).None? {
        assert FirstNonNumber(texts, conv, 0);
      } else if ConvertAll(tail, conv).Failure? {
        var k :| FirstNonNumber(tail, conv, k) && ConvertAll(tail, conv).error == NotANumber(tail[k]);
        assert FirstNonNumber(texts, conv, k + 1);
      }
    }
  }

  /**
   * `x` is the first field converted, `ys` the other fields converted in
   * order; the first field that does not convert is the error.
   */
  function PointOf<N>(items: seq<string>, conv: string -> Option<N>): (r: Result<Point<N>, ParseError>)
    requires |items| >= 1
    ensures r.Success? ==> conv(items[0]) == Some(r.value.x) && |r.value.ys| == |items| - 1
    ensures r.Failure? ==> r.error.NotANumber? && r.error.text in items
  {
    match conv(items[0])
    case None => Failure(NotANumber(items[0]))
    case Some(x) =>
      match ConvertAll(items[1..], conv)
      case Failure(e) => Failure(e)
      case Success(ys) => Success(Point(x, ys))
  }

  /** `Parser(sep).parse(line)`; `split` refuses an empty separator. */
  function Parse<N>(line: string, sep: string, conv: string -> Option<N>): (r: Result<Point<N>, ParseError>)
    ensures r == Failure(EmptySeparator) <==> sep == ""
    ensures sep != "" && r.Success? ==> |r.value.ys| == |Fields(line, sep)| - 1
    ensures sep != "" && r.Failure? ==> r.error.NotANumber? && r.error.text in Fields(line, sep)
  {
    if sep == "" then Failure(EmptySeparator) else PointOf(Fields(line, sep), conv)
  }

  /**
   * What parsing a line yields: a Point exactly when every field converts,
   * with `x` from field 0 and `ys[k]` from field `k + 1`; otherwise the
   * error names the first field that does not convert, and no Point at all
   * is produced. An empty separator fails whatever the line.
   */
  lemma ParseSpec<N>(line: string, sep: string, conv: string -> Option<N>)
    ensures sep == "" ==> Parse(line, sep, conv) == Failure(EmptySeparator)
    ensures sep != "" ==> (Parse(line, sep, conv).Success? <==> AllNumbers(Fields(line, sep), conv))
    ensures sep != "" && Parse(line, sep, conv).Success? ==>
      && Parse(line, sep, conv).value.x == conv(Fields(line, sep)[0]).value
      && |Parse(line, sep, conv).value.ys| == |Fields(line, sep)| - 1
      && forall k | 0 <= k < |Fields(line, sep)| - 1 ::
           Parse(line, sep, conv).value.ys[k] == conv(Fields(line, sep)[k + 1]).value
    ensures sep != "" && Parse(line, sep, conv).Failure? ==>
      exists k :: FirstNonNumber(Fields(line, sep), conv, k)
               && Parse(line, sep, conv).error == NotANumber(Fields(line, sep)[k])
  {
    if sep != "" {
      var items := Fields(line, sep);
      var tail := items[1..];
      ConvertAllSpec(tail, conv);
      assert forall k | 1 <= k < |items| :: items[k] == tail[k - 1];
      if conv(items[0]).None? {
        assert FirstNonNumber(items, conv, 0);
      } else if ConvertAll(tail, conv).Failure? {
        var k :| FirstNonNumber(tail, conv, k) && ConvertAll(tail, conv).error == NotANumber(tail[k]);
        assert FirstNonNumber(items, conv, k + 1);
      }
    }
  }

  /** A line without the separator is a single field: the Point has `x` only. */
  lemma ParseXOnly<N>(line: string, sep: string, conv: string -> Option<N>)
    requires |sep| > 0 && Free(Strip(line), sep)
    ensures Fields(line, sep) == [Strip(line)]
    ensures Parse(line, sep, conv) ==
      match conv(Strip(line))
      case Some(x) => Success(Point(x, []))
      case None => Failure(NotANumber(Strip(line)))
  {
    var t := Strip(line);
    assert t[0..] == t;
    FindFromNone(t, sep, 0);
  }

  /**
   * An empty line (or one made of newlines only) has one empty field, so it
   * fails in the conversion of that field and never for want of a field.
   */
  lemma ParseBlankLine<N>(line: string, sep: string, conv: string -> Option<N>)
    requires |sep| > 0
    requires forall k | 0 <= k < |line| :: line[k] == '\n'
    ensures Fields(line, sep) == [""]
    ensures Parse(line, sep, conv) ==
      match conv("")
      case Some(x) => Success(Point(x, []))
      case None => Failure(NotANumber(""))
  {
    StripUnique(line, |line|, |line|);
  }

  /** No character of any field is `c`. */
  ghost predicate Avoids(fields: seq<string>, c: char) {
    forall k, m | 0 <= k < |fields| && 0 <= m < |fields[k]| :: fields[k][m] != c
  }

  lemma {:induction false} JoinAvoids(fields: seq<string>, sep: string, c: char)
    requires Avoids(fields, c) && forall m | 0 <= m < |sep| :: sep[m] != c
    ensures forall m | 0 <= m < |Join(fields, sep)| :: Join(fields, sep)[m] != c
  {
    if |fields| > 1 {
      var tail := fields[1..];
      assert Avoids(tail, c) by {
        assert forall k | 0 <= k < |tail| :: tail[k] == fields[k + 1];
      }
      JoinAvoids(tail, sep, c);
      assert fields[0] + sep + Join(tail, sep) == Join(fields, sep);
    }
  }

  /**
   * A record written as fields separated by a one-character separator and
   * ended by newlines is split back into exactly those fields.
   */
  lemma FieldsOfRecord(fields: seq<string>, sep: string, nl: string)
    requires |sep| == 1 && sep[0] != '\n' && |fields| >= 1
    requires Avoids(fields, sep[0]) && Avoids(fields, '\n')
    requires forall k | 0 <= k < |nl| :: nl[k] == '\n'
    ensures Fields(Join(fields, sep) + nl, sep) == fields
  {
    var t := Join(fields, sep);
    JoinAvoids(fields, sep, '\n');
    StripTrailingNewlines(t, nl);
    forall k | 0 <= k < |fields| ensures Free(fields[k], sep) {
      assert sep == [sep[0]];
      FreeOfChar(fields[k], sep[0]);
    }
    SplitUnique(t, sep, fields);
  }

  /**
   * The same numbers written with spaces and with commas parse to the same
   * result, each with its own separator configured.
   */
  lemma ParseSeparatorIndependent<N>(fields: seq<string>, nl: string, conv: string -> Option<N>)
    requires |fields| >= 1
    requires Avoids(fields, ' ') && Avoids(fields, ',') && Avoids(fields, '\n')
    requires forall k | 0 <= k < |nl| :: nl[k] == '\n'
    ensures Parse(Join(fields, " ") + nl, " ", conv) == Parse(Join(fields, ",") + nl, ",", conv)
    ensures Parse(Join(fields, " ") + nl, " ", conv) == PointOf(fields, conv)
  {
    FieldsOfRecord(fields, " ", nl);
    FieldsOfRecord(fields, ",", nl);
  }

  /** The three fields of the sample record and what they convert to. */
  lemma SampleRecord(conv: string -> Option<real>, sep: string, nl: string)
    requires conv("100") == Some(100.0) && conv("1.2") == Some(1.2) && conv("1.4") == Some(1.4)
    requires sep == " " || sep == ","
    requires nl == "" || nl == "\n"
    ensures Parse(Join(["100", "1.2", "1.4"], sep) + nl, sep, conv) == Success(Point(100.0, [1.2, 1.4]))
  {
    var fields := ["100", "1.2", "1.4"];
    assert Avoids(fields, sep[0]) && Avoids(fields, '\n') by {
      forall k, m | 0 <= k < 3 && 0 <= m < |fields[k]|
        ensures fields[k][m] != sep[0] && fields[k][m] != '\n'
      {
        assert fields[k][m] in "0123456789.";
      }
    }
    FieldsOfRecord(fields, sep, nl);
    var none: seq<string> := [];
    var one: seq<string> := ["1.4"];
    var two: seq<string> := ["1.2", "1.4"];
    assert fields[1..] == two && two[1..] == one && one[1..] == none;
    assert ConvertAll(none, conv) == Success([]);
    assert one[0] == "1.4" && two[0] == "1.2";
    assert conv(one[0]) == Some(1.4) && conv(two[0]) == Some(1.2);
    assert ConvertAll(one, conv).Success? && ConvertAll(one, conv).value == [1.4];
    assert ConvertAll(two, conv).Success? && ConvertAll(two, conv).value == [1.2, 1.4];
  }

  /**
   * The record `100 1.2 1.4` read with a space as separator, with or
   * without its line end, and the same record with commas read with a
   * comma as separator, all give the Point (100, (1.2, 1.4)).
   */
  lemma ParseSampleRecords(conv: string -> Option<real>)
    requires conv("100") == Some(100.0) && conv("1.2") == Some(1.2) && conv("1.4") == Some(1.4)
    ensures Parse("100 1.2 1.4", " ", conv) == Success(Point(100.0, [1.2, 1.4]))
    ensures Parse("100 1.2 1.4\n", " ", conv) == Success(Point(100.0, [1.2, 1.4]))
    ensures Parse("100,1.2,1.4", ",", conv) == Success(Point(100.0, [1.2, 1.4]))
  {
    var fields := ["100", "1.2", "1.4"];
    assert Join(fields, " ") + "" == "100 1.2 1.4";
    assert Join(fields, " ") + "\n" == "100 1.2 1.4\n";
    assert Join(fields, ",") + "" == "100,1.2,1.4";
    SampleRecord(conv, " ", "");
    SampleRecord(conv, " ", "\n");
    SampleRecord(conv, ",", "");
  }

  /**
   * With the wrong separator configured the whole line is one field, so
   * its conversion decides: a conversion that rejects the spaced text
   * makes the line fail.
   */
  lemma ParseWrongSeparator<N>(conv: string -> Option<N>)
    requires conv("100 1.2 1.4") == None
    ensures Fields("100 1.2 1.4", ",") == ["100 1.2 1.4"]
    ensures Parse("100 1.2 1.4", ",", conv) == Failure(NotANumber("100 1.2 1.4"))
  {
    var line := "100 1.2 1.4";
    assert Clean(line);
    StripUnique(line, 0, |line|);
    assert line[0..|line|] == line;
    FreeOfChar(line, ',');
    ParseXOnly(line, ",", conv);
  }
}
