# plotter, modelled in Dafny

`plotter.py` reads numeric rows from standard input, one row per line, and
draws them as a line chart. Each line is stripped of newlines at both ends
and split on a configurable separator (a space by default). Field 0 becomes
the point's `x`; the other fields become its `ys`, in order. All points are
collected first. Then `xs` is the list of `x` values, and the `ys` are
transposed with `zip` into one series per column. Each series is drawn with
one of four line styles, chosen by series index modulo four.

This project models that data path:

- `wrappers.dfy`: `Option` and `Result`. A Python exception becomes a
  `Failure`.
- `pystr.dfy` (module `PyStr`): the Python string operations the parser
  uses, over `seq<char>`.
  - `str.strip("\n")` scans inward from both ends, as CPython does.
  - `str.split(sep)` cuts at the leftmost occurrence of the separator and
    carries on after it.
  - `sep.join` is there as the inverse of the split.
- `parsing.dfy` (module `Parsing`): `Point`, and `Parser.parse` as `Parse`.
  `float(...)` is a parameter `conv: string -> Option<N>`: a partial
  conversion from a field's text to a number of some type `N`.
- `plotting.dfy` (module `Plotting`): the data part of `Plotter.plot`.
  - the `xs` projection
  - `zip(*[pt.ys ...])`, with Python's iterator semantics
  - the style table
  - the `enumerate(vals)` loop as `DrawSeries`, a method that returns the
    draw calls it would make
- `program.dfy` (module `Program`): `plot(args)`. Standard input is a
  `seq<string>` of lines. `CollectPoints` is the loop that appends one
  parsed point per line.

Three consequences of what `plotter.py` actually does:

- `strip("\n")` removes newlines from both ends of the line, not only a
  trailing one.
- `split` with a non-empty separator always returns at least one field
  (`""` for an empty line). So `items[0]` always exists, and an empty line
  fails in the number conversion, never at `items[0]` (`ParseBlankLine`).
- `split("")` raises in Python, so `Parse` returns
  `Failure(EmptySeparator)` for an empty separator.

## Model

| member | source | states |
|---|---|---|
| `PyStr.SkipLeading` | plotter.py:26 | The left scan of `strip`: every character it passes is a newline, and it stops at the end or at a non-newline. |
| `PyStr.SkipTrailing` | plotter.py:26 | The right scan of `strip`: every character it passes is a newline, and it stops at the left bound or after a non-newline. |
| `PyStr.Strip` | plotter.py:26 | `strip("\n")` yields a slice `s[i..j]` of the line with no newline at either end. Everything cut off before `i` and after `j` is a newline, so interior characters are untouched. |
| `PyStr.StripUnique` | plotter.py:26 | Any slice that is framed by newlines only and has no newline at either end is exactly the stripped line. This makes the stripped line unique. |
| `PyStr.StripIdempotent` | plotter.py:26 | Stripping a stripped line changes nothing. |
| `PyStr.StripTrailingNewlines` | plotter.py:26 | A clean line followed by any number of newlines (a line as read from stdin) strips back to the clean line. |
| `PyStr.FindFrom` | plotter.py:26 | The search that `split` uses returns the leftmost occurrence of the separator at or after the start index. No occurrence exists between the start and the result, and none at all when it returns `None`. |
| `PyStr.SplitFrom` | plotter.py:26 | The split of the string from index `i`: it cuts at the leftmost occurrence of the separator (`FindFrom`) and carries on after it, so it always has at least one field. `SplitJoin`, `SplitFree` and `SplitCount` state the round trip, the separator-free fields and the field count. |
| `PyStr.Split` | plotter.py:26 | `split(sep)` with a non-empty separator returns at least one field, so `items[0]` always exists. |
| `PyStr.SplitJoin` | plotter.py:26 | Joining the fields with the separator gives back the split string. |
| `PyStr.SplitFree` | plotter.py:26 | No field contains the separator. |
| `PyStr.SplitCount` | plotter.py:26 | The number of fields is the number of non-overlapping separator occurrences, counted left to right, plus one. |
| `PyStr.SplitCountChar` | plotter.py:26 | For a one-character separator, the number of fields is the number of separator characters in the line plus one. |
| `PyStr.SplitUnique` | plotter.py:26 | For a one-character separator, the split is the only list of separator-free fields that joins back to the line. |
| `Parsing.Fields` | plotter.py:26 | `line.strip("\n").split(sep)` has at least one field. |
| `Parsing.ConvertAll` | plotter.py:28 | The generator `float(y) for y in items[1:]`: on success there is one value per field; a failure always names a field that did not convert. `ConvertAllSpec` gives the full characterisation. |
| `Parsing.ConvertAllSpec` | plotter.py:28 | Converting the fields in order succeeds exactly when every field converts. Value `k` is then field `k` converted. Otherwise the error names the first field that does not convert. |
| `Parsing.PointOf` | plotter.py:27-29 | Building the `Point` from the fields: on success `x` is field 0 converted and `ys` has one entry per remaining field; a failure always names one of the fields. |
| `Parsing.Parse` | plotter.py:18-29 | `Parser.parse` (the `Point` record of plotter.py:10 is `Parsing.Point`): it fails with `EmptySeparator` exactly when the separator is empty. Otherwise a result has one y per field after the first, and a failure names one of the line's fields. `ParseSpec` gives the full characterisation. |
| `Parsing.ParseSpec` | plotter.py:26-29 | `parse` returns a Point exactly when every field converts. `x` is field 0 converted, `|ys|` is the field count minus one, and `ys[k]` is field `k+1` converted. Otherwise the error is the first field that does not convert, never a partial Point. An empty separator always fails. |
| `Parsing.ParseXOnly` | plotter.py:26-29 | A line without the separator is one field, so it parses to a Point with empty `ys` or fails on that one field. |
| `Parsing.ParseBlankLine` | plotter.py:26-28 | An empty line, or one made of newlines only, has the single field `""`. Its outcome is the conversion of that single field `""` (which `float` rejects), never an indexing error. |
| `Parsing.FieldsOfRecord` | plotter.py:26 | Fields joined by a one-character separator, plus trailing newlines, split back into exactly those fields. |
| `Parsing.ParseSeparatorIndependent` | test_plotter.py:11-21 | The same fields written with spaces and with commas parse to the same result when the matching separator is configured. |
| `Parsing.ParseSampleRecords` | test_plotter.py:11-21 | `"100 1.2 1.4"` (with or without its newline) with separator `" "`, and `"100,1.2,1.4"` with `","`, both parse to `Point(100, (1.2, 1.4))`. |
| `Parsing.ParseWrongSeparator` | plotter.py:26-28 | With `","` configured, `"100 1.2 1.4"` is one field. If conversion rejects that text, the line fails. |
| `Plotting.StyleFor` | plotter.py:50-53 | The style of series `i` is always one of the four styles, so the index `i % len(styles)` is always in bounds. |
| `Plotting.StyleCycle` | plotter.py:50-53 | Series `i` and `j` share a style exactly when `i % len(styles) == j % len(styles)`, with four styles. In particular, series `i` and `i + 4` look alike. |
| `Plotting.Xs` | plotter.py:48 | `xs` has one entry per point, in point order, and entry `j` is `points[j].x`. |
| `Plotting.Rows` | plotter.py:49 | The rows given to `zip` are the points' `ys`, in point order. |
| `Plotting.Shortest` | plotter.py:49 | The length of the shortest row: at most the length of every row and equal to the length of one of them. It is 0 when there are no rows. |
| `Plotting.Zip` | plotter.py:49 | `list(zip(*rows))` with Python's iterator semantics: no rows give no tuples, every tuple has one element per row, and there are never more tuples than the shortest row is long. `ZipTransposes` gives the exact transpose. |
| `Plotting.ZipTransposes` | plotter.py:49 | `zip(*rows)` yields as many tuples as the shortest row is long. Tuple `i` has one element per row, and element `j` is `rows[j][i]`. |
| `Plotting.Layout` | plotter.py:48-53 | The `xs` and the styled series of `Plotter.plot`: one x per point, no series without points, no more series than any point has y values, and every series has one value per point and a style from the table. `LayoutSpec` gives the exact contents. |
| `Plotting.LayoutSpec` | plotter.py:48-53 | In terms of the points: `xs` keeps length and order. There are no series without points. Otherwise the number of series is the minimum `|ys|` over the points. Series `i` has length `|points|`, holds `points[j].ys[i]` at `j`, and has style `i % len(styles)`. |
| `Plotting.DrawSeries` | plotter.py:52-53 | The `enumerate(vals)` loop makes one draw call per series, in order. Each call carries all of `xs`, that series, and its style. |
| `Program.CollectPoints` | plotter.py:79-81 | The collection loop succeeds exactly when every line parses, and then point `k` is line `k` parsed. Otherwise the error is that of the first line that fails. |
| `Program.Plot` | plotter.py:71-83 | `plot(args)` draws only when every line parses. Any failing line aborts with the first failure and nothing is drawn. Otherwise the series count is the minimum `|ys|` (0 for no lines). Series `i` pairs every line's `x` with its `i`-th y value, in line order, with style `i % len(styles)`. |

## Left out

- The number conversion `float(...)` (plotter.py:27-28) is not modelled. It is the parameter `conv`, because floating-point parsing and IEEE values are out of scope. Facts that depend on what `float` accepts, such as `float` rejecting a field with a space between two numbers (`"100 1.2 1.4"`, the assumption of `ParseWrongSeparator`), are stated as assumptions on `conv`. `float` itself ignores leading and trailing whitespace, so with `","` configured the line `"100, 1.2"` does parse in Python; the model leaves that to `conv`.
- All drawing goes through matplotlib, which is not modelled: `plt.plot`, `legend`, `title`, `xlabel`, `ylabel`, `savefig`, `show` and `get_backend` (plotter.py:53-68). It is a foreign library with global figure state. The model returns the draw calls as data instead.
- The legend, title, axis labels and the choice between saving and showing (plotter.py:54-68) only configure those library calls, so they are left out with them. Nothing checks that the number of legend entries matches the number of series.
- The advisory message on standard error (plotter.py:66-67) and reading `sys.stdin` (plotter.py:80) are I/O. The lines are a `seq<string>` given to `Program.Plot`.
- Python's newline translation when reading text from stdin (`\r\n` to `\n`) is not modelled. A `\r` that reached `strip("\n")` would be kept.
- Argument parsing and the `__main__` block (plotter.py:86-111) are command-line plumbing. The separator is a parameter.
- The `Parser` and `Plotter` constructors (plotter.py:15-16, 34-40) only store their arguments. The separator is passed to `Parse` directly.
- `PyStr.SplitUnique`: uniqueness is proved only for one-character separators. For a separator that overlaps itself, such as `"aa"`, different lists of separator-free fields can join to the same string, and Python picks the leftmost cut. `PyStr.SplitFrom` models that choice for every separator.
