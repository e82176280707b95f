/**
 * The contribution matrix of formatContributions.py: a tab-separated table
 * with one row per author, whose header names the contribution categories
 * after the first `ignore` columns. `make_contribs_dict` collects, per
 * category and in row order, the initials of every author whose cell for
 * that category is non-empty; `main` writes `categ: i1, i2; ` per category
 * and one newline.
 */
module Contributions {
  import opened Wrappers
  import opened Text
  import opened OrderedDict

  /** The one exception `make_contribs_dict` raises itself: `line_vals[initials_col-1]` out of range. */
  datatype Fault = IndexError

  /** `contrib_dict`: category to the initials recorded for it, in dict order. */
  type Contribs = ODict<string, seq<string>>

  function Min(a: nat, b: nat): nat { if a < b then a else b }

  /** `line.rstrip().split('\t')`: the fields of one line, none holding a tab. */
  function Fields(line: string): (vals: seq<string>)
    ensures |vals| >= 1
    ensures forall i :: 0 <= i < |vals| ==> '\t' !in vals[i]
  {
    Split(RStrip(line), '\t')
  }

  /** `f.readline().rstrip().split('\t')[ignore:]`. */
  function Categories(header: string, ignore: int): (r: seq<string>)
    ensures 0 <= ignore <= |Fields(header)| ==> |r| == |Fields(header)| - ignore
    ensures forall i :: 0 <= i < |r| ==> '\t' !in r[i]
  {
    PyDrop(Fields(header), ignore)
  }

  /** `{categ : [] for categ in categs}`: every category, once, with no contributors yet. */
  function InitialDict(categs: seq<string>): (d: Contribs)
    ensures d.Valid()
    ensures forall c :: c in d.entries <==> c in categs
    ensures forall c :: c in d.entries ==> d.entries[c] == []
  {
    if |categs| == 0 then Empty()
    else InitialDict(categs[..|categs| - 1]).Put(categs[|categs| - 1], [])
  }

  predicate Distinct<T(==)>(s: seq<T>) {
    forall i, j :: 0 <= i < j < |s| ==> s[i] != s[j]
  }

  /** With distinct categories, the dict lists them in header order. */
  lemma {:induction false} InitialDictKeys(categs: seq<string>)
    requires Distinct(categs)
    ensures InitialDict(categs).keys == categs
  {
    if |categs| > 0 {
      var init, last := categs[..|categs| - 1], categs[|categs| - 1];
      DistinctSnoc(categs);
      InitialDictKeys(init);
      InitialDictSnoc(init, last);
      assert categs == init + [last];
    }
  }

  /** Dropping the last element keeps a distinct sequence distinct, and that element is not in the rest. */
  lemma DistinctSnoc<T>(s: seq<T>)
    requires |s| > 0 && Distinct(s)
    ensures Distinct(s[..|s| - 1])
    ensures s[|s| - 1] !in s[..|s| - 1]
  {
  }

  /** A new category goes to the end of the dict. */
  lemma InitialDictSnoc(init: seq<string>, last: string)
    requires last !in init
    ensures InitialDict(init + [last]).keys == InitialDict(init).keys + [last]
  {
    assert (init + [last])[..|init|] == init;
  }

  // ---------------------------------------------------------------------
  // One row (lines 37-43)
  // ---------------------------------------------------------------------

  /** `''.join(['{}.'.format(x[0]) for x in xs if x != ''])`. */
  function InitialsOf(xs: seq<string>): string
  {
    if |xs| == 0 then ""
    else (if xs[0] == "" then "" else [xs[0][0], '.']) + InitialsOf(xs[1..])
  }

  /**
   * Automatic initials use the first three fields (first name, middle
   * initial, last name): at most three letters, each followed by '.'.
   */
  function AutoInitials(vals: seq<string>): (r: string)
    ensures |r| <= 6 && |r| % 2 == 0
  {
    InitialsShape(PyTake(vals, 3));
    InitialsOf(PyTake(vals, 3))
  }

  /** The automatic initials are the first letter of each non-empty field, each followed by '.'. */
  lemma {:induction false} InitialsShape(xs: seq<string>)
    ensures var ne := NonEmpty(xs);
            var r := InitialsOf(xs);
            && |r| == 2 * |ne|
            && forall i :: 0 <= i < |ne| ==> r[2 * i] == ne[i][0] && r[2 * i + 1] == '.'
  {
    if |xs| > 0 {
      InitialsShape(xs[1..]);
      var ne, rest := NonEmpty(xs[1..]), InitialsOf(xs[1..]);
      if xs[0] != "" {
        assert NonEmpty(xs) == [xs[0]] + ne;
        assert InitialsOf(xs) == [xs[0][0], '.'] + rest;
        forall i | 1 <= i < |ne| + 1
          ensures InitialsOf(xs)[2 * i] == NonEmpty(xs)[i][0] && InitialsOf(xs)[2 * i + 1] == '.'
        {
          assert InitialsOf(xs)[2 * i] == rest[2 * (i - 1)];
          assert InitialsOf(xs)[2 * i + 1] == rest[2 * (i - 1) + 1];
        }
      } else {
        assert NonEmpty(xs) == ne;
        assert InitialsOf(xs) == rest;
      }
    }
  }

  lemma FullNameInitials()
    ensures AutoInitials(["Ryan", "L", "Collins", "RLC", "x"]) == "R.L.C."
  {
    var vals := ["Ryan", "L", "Collins", "RLC", "x"];
    assert PyTake(vals, 3) == ["Ryan", "L", "Collins"];
    assert InitialsOf(["Collins"][1..]) == "";
    assert InitialsOf(["Collins"]) == "C.";
    assert ["L", "Collins"][1..] == ["Collins"];
    assert InitialsOf(["L", "Collins"]) == "L.C.";
    assert ["Ryan", "L", "Collins"][1..] == ["L", "Collins"];
  }

  lemma MissingMiddleNameInitials()
    ensures AutoInitials(["Ryan", "", "Collins"]) == "R.C."
  {
    var vals := ["Ryan", "", "Collins"];
    assert PyTake(vals, 3) == vals;
    assert InitialsOf(["Collins"][1..]) == "";
    assert InitialsOf(["Collins"]) == "C.";
    assert ["", "Collins"][1..] == ["Collins"];
    assert InitialsOf(["", "Collins"]) == "C.";
    assert vals[1..] == ["", "Collins"];
  }

  /**
   * The initials of one row: automatic, or the field at 1-based column
   * `initials_col`, which raises IndexError when `initials_col - 1` is out
   * of Python's index range (0 and negative columns count from the end:
   * 0 is the last field).
   */
  function RowInitials(vals: seq<string>, initialsCol: Option<int>): (r: Result<string, Fault>)
    ensures initialsCol.None? ==> r == Success(AutoInitials(vals))
    ensures initialsCol.Some? ==> (r.Success? <==> -|vals| < initialsCol.value <= |vals|)
    ensures initialsCol.Some? && 1 <= initialsCol.value <= |vals| ==> r == Success(vals[initialsCol.value - 1])
    ensures initialsCol.Some? && -|vals| < initialsCol.value <= 0 ==> r == Success(vals[|vals| + initialsCol.value - 1])
  {
    match initialsCol
    case None => Success(AutoInitials(vals))
    case Some(c) =>
      match PyIndex(vals, c - 1)
      case None => Failure(IndexError)
      case Some(x) => Success(x)
  }

  /** `[x != '' for x in line_vals[ignore:]]`. */
  function Indicators(vals: seq<string>, ignore: int): (inds: seq<bool>)
    ensures |inds| == |PyDrop(vals, ignore)|
    ensures forall i :: 0 <= i < |inds| ==> inds[i] == (PyDrop(vals, ignore)[i] != "")
  {
    var cells := PyDrop(vals, ignore);
    seq(|cells|, i requires 0 <= i < |cells| => cells[i] != "")
  }

  /** `sum(inds)`: the number of marked cells. */
  function CountTrue(inds: seq<bool>): nat
  {
    if |inds| == 0 then 0 else (if inds[0] then 1 else 0) + CountTrue(inds[1..])
  }

  /** A row is marked in exactly as many cells as it has non-empty cells after `ignore`. */
  lemma IndicatorsCount(vals: seq<string>, ignore: int)
    ensures CountTrue(Indicators(vals, ignore)) == |NonEmpty(PyDrop(vals, ignore))|
  {
    MarksCount(Indicators(vals, ignore), PyDrop(vals, ignore));
  }

  lemma {:induction false} MarksCount(inds: seq<bool>, cells: seq<string>)
    requires |inds| == |cells|
    requires forall i :: 0 <= i < |cells| ==> inds[i] == (cells[i] != "")
    ensures CountTrue(inds) == |NonEmpty(cells)|
  {
    if |cells| > 0 {
      MarksCount(inds[1..], cells[1..]);
    }
  }

  /** The first k pairs of `zip(categs, indicators)`: append the initials to each marked category. */
  function AddRow(d: Contribs, categs: seq<string>, inds: seq<bool>, initials: string, k: nat): (r: Contribs)
    requires k <= |categs| && k <= |inds|
    requires forall i :: 0 <= i < |categs| ==> categs[i] in d.entries
    ensures r.keys == d.keys && r.entries.Keys == d.entries.Keys
    ensures d.Valid() ==> r.Valid()
  {
    if k == 0 then d
    else
      var before := AddRow(d, categs, inds, initials, k - 1);
      if inds[k - 1] then before.Put(categs[k - 1], before.entries[categs[k - 1]] + [initials]) else before
  }

  /** With distinct categories, a row adds its initials to category j exactly when j is paired and marked. */
  lemma {:induction false} AddRowDistinct(d: Contribs, categs: seq<string>, inds: seq<bool>, initials: string, k: nat, j: nat)
    requires k <= |categs| && k <= |inds|
    requires forall i :: 0 <= i < |categs| ==> categs[i] in d.entries
    requires Distinct(categs) && j < |categs|
    ensures AddRow(d, categs, inds, initials, k).entries[categs[j]]
         == d.entries[categs[j]] + (if j < k && inds[j] then [initials] else [])
  {
    if k > 0 {
      AddRowDistinct(d, categs, inds, initials, k - 1, j);
      if j == k - 1 && !inds[j] {
        assert d.entries[categs[j]] + [] == d.entries[categs[j]];
      }
    } else {
      assert d.entries[categs[j]] + [] == d.entries[categs[j]];
    }
  }

  // ---------------------------------------------------------------------
  // All rows (lines 31-49)
  // ---------------------------------------------------------------------

  /** One data line: its initials, then its marks paired with the categories by `zip`. */
  function LineStep(d: Contribs, categs: seq<string>, line: string, ignore: int, initialsCol: Option<int>): (r: Result<Contribs, Fault>)
    requires forall i :: 0 <= i < |categs| ==> categs[i] in d.entries
    ensures r.Failure? <==> RowInitials(Fields(line), initialsCol).Failure?
    ensures r.Success? ==> r.value.keys == d.keys && r.value.entries.Keys == d.entries.Keys
    ensures r.Success? && d.Valid() ==> r.value.Valid()
  {
    var vals := Fields(line);
    match RowInitials(vals, initialsCol)
    case Failure(e) => Failure(e)
    case Success(initials) =>
      var inds := Indicators(vals, ignore);
      Success(AddRow(d, categs, inds, initials, Min(|categs|, |inds|)))
  }

  /** `contrib_dict` after the given data lines, or the IndexError of a bad initials column. */
  function ContribsFrom(categs: seq<string>, lines: seq<string>, ignore: int, initialsCol: Option<int>): (r: Result<Contribs, Fault>)
    ensures r.Success? ==> r.value.Valid() && r.value.keys == InitialDict(categs).keys
                           && r.value.entries.Keys == InitialDict(categs).entries.Keys
  {
    if |lines| == 0 then Success(InitialDict(categs))
    else
      match ContribsFrom(categs, lines[..|lines| - 1], ignore, initialsCol)
      case Failure(e) => Failure(e)
      case Success(d) => LineStep(d, categs, lines[|lines| - 1], ignore, initialsCol)
  }

  lemma ContribsFromSnoc(categs: seq<string>, lines: seq<string>, n: nat, ignore: int, initialsCol: Option<int>)
    requires n < |lines|
    ensures var before := ContribsFrom(categs, lines[..n], ignore, initialsCol);
            (ContribsFrom(categs, lines[..n + 1], ignore, initialsCol)
             == if before.Failure? then Failure(before.error) else LineStep(before.value, categs, lines[n], ignore, initialsCol))
  {
    assert lines[..n + 1][..n] == lines[..n];
  }

  /** One more line with initials: its marks are added to the table built so far. */
  lemma ContribsFromStep(categs: seq<string>, lines: seq<string>, n: nat, ignore: int, initialsCol: Option<int>, d: Contribs)
    requires n < |lines| && ContribsFrom(categs, lines[..n], ignore, initialsCol) == Success(d)
    requires RowInitials(Fields(lines[n]), initialsCol).Success?
    ensures forall i :: 0 <= i < |categs| ==> categs[i] in d.entries
    ensures var vals := Fields(lines[n]);
            var inds := Indicators(vals, ignore);
            ContribsFrom(categs, lines[..n + 1], ignore, initialsCol)
            == Success(AddRow(d, categs, inds, RowInitials(vals, initialsCol).value, Min(|categs|, |inds|)))
  {
    var d0 := InitialDict(categs);
    assert d.entries.Keys == d0.entries.Keys;
    forall i | 0 <= i < |categs| ensures categs[i] in d.entries {
      assert categs[i] in d0.entries;
    }
    ContribsFromSnoc(categs, lines, n, ignore, initialsCol);
  }

  /** A line whose initials column is out of range makes the whole call raise IndexError. */
  lemma BadInitialsColumnFails(categs: seq<string>, lines: seq<string>, n: nat, ignore: int, initialsCol: Option<int>)
    requires n < |lines| && RowInitials(Fields(lines[n]), initialsCol).Failure?
    ensures ContribsFrom(categs, lines, ignore, initialsCol) == Failure(IndexError)
  {
    ContribsSucceedsIff(categs, lines, ignore, initialsCol);
    assert !AllInitials(lines, initialsCol);
    var r := ContribsFrom(categs, lines, ignore, initialsCol);
    assert r.Failure? && r.error == IndexError;
  }

  /** What `make_contribs_dict` returns for a header line and the data lines after it. */
  function MakeContribsSpec(header: string, lines: seq<string>, ignore: int, initialsCol: Option<int>): Result<Contribs, Fault>
  {
    ContribsFrom(Categories(header, ignore), lines, ignore, initialsCol)
  }

  /** Every line has initials (always so without an initials column). */
  predicate AllInitials(lines: seq<string>, initialsCol: Option<int>) {
    forall i :: 0 <= i < |lines| ==> RowInitials(Fields(lines[i]), initialsCol).Success?
  }

  lemma AllInitialsSnoc(lines: seq<string>, initialsCol: Option<int>)
    requires |lines| > 0
    ensures AllInitials(lines, initialsCol)
        <==> AllInitials(lines[..|lines| - 1], initialsCol) && RowInitials(Fields(lines[|lines| - 1]), initialsCol).Success?
  {
    var init := lines[..|lines| - 1];
    assert forall i :: 0 <= i < |init| ==> init[i] == lines[i];
  }

  /** The table is built exactly when no line's initials column is out of range. */
  lemma {:induction false} ContribsSucceedsIff(categs: seq<string>, lines: seq<string>, ignore: int, initialsCol: Option<int>)
    ensures ContribsFrom(categs, lines, ignore, initialsCol).Success? <==> AllInitials(lines, initialsCol)
  {
    if |lines| > 0 {
      ContribsSucceedsIff(categs, lines[..|lines| - 1], ignore, initialsCol);
      AllInitialsSnoc(lines, initialsCol);
    }
  }

  /** The initials a line records for column j (after `ignore`), when its cell is non-empty. */
  function RowMark(line: string, j: nat, ignore: int, initialsCol: Option<int>): (r: seq<string>)
    ensures |r| <= 1
  {
    var vals := Fields(line);
    var inds := Indicators(vals, ignore);
    var ini := RowInitials(vals, initialsCol);
    if j < |inds| && inds[j] && ini.Success? then [ini.value] else []
  }

  /** Independent reference: the initials of the rows whose cell j is non-empty, in row order. */
  function Marked(j: nat, lines: seq<string>, ignore: int, initialsCol: Option<int>): (r: seq<string>)
    ensures |r| <= |lines|
  {
    if |lines| == 0 then []
    else Marked(j, lines[..|lines| - 1], ignore, initialsCol) + RowMark(lines[|lines| - 1], j, ignore, initialsCol)
  }

  /**
   * With distinct categories, the list for the j-th category holds the
   * initials of exactly the rows whose j-th cell is non-empty, in row order;
   * so no list is longer than the number of rows.
   */
  lemma {:induction false} ContribsPerCategory(categs: seq<string>, lines: seq<string>, ignore: int, initialsCol: Option<int>, j: nat)
    requires Distinct(categs) && j < |categs|
    requires ContribsFrom(categs, lines, ignore, initialsCol).Success?
    ensures var d := ContribsFrom(categs, lines, ignore, initialsCol).value;
            && categs[j] in d.entries
            && d.entries[categs[j]] == Marked(j, lines, ignore, initialsCol)
            && |d.entries[categs[j]]| <= |lines|
  {
    if |lines| > 0 {
      var init, last := lines[..|lines| - 1], lines[|lines| - 1];
      ContribsPerCategory(categs, init, ignore, initialsCol, j);
      var d := ContribsFrom(categs, init, ignore, initialsCol).value;
      LineStepMarks(d, categs, last, ignore, initialsCol, j);
    }
  }

  /** One line adds to category j exactly what RowMark says. */
  lemma LineStepMarks(d: Contribs, categs: seq<string>, line: string, ignore: int, initialsCol: Option<int>, j: nat)
    requires forall i :: 0 <= i < |categs| ==> categs[i] in d.entries
    requires Distinct(categs) && j < |categs|
    requires LineStep(d, categs, line, ignore, initialsCol).Success?
    ensures categs[j] in LineStep(d, categs, line, ignore, initialsCol).value.entries
    ensures LineStep(d, categs, line, ignore, initialsCol).value.entries[categs[j]]
         == d.entries[categs[j]] + RowMark(line, j, ignore, initialsCol)
  {
    var vals := Fields(line);
    var inds := Indicators(vals, ignore);
    var initials := RowInitials(vals, initialsCol).value;
    AddRowDistinct(d, categs, inds, initials, Min(|categs|, |inds|), j);
  }

  /** What a line records column by column: RowMark of each of its cells after `ignore`. */
  function RowMarks(line: string, ignore: int, initialsCol: Option<int>): (r: seq<seq<string>>)
    ensures |r| == |Indicators(Fields(line), ignore)|
  {
    var n := |Indicators(Fields(line), ignore)|;
    seq(n, j requires 0 <= j < n => RowMark(line, j, ignore, initialsCol))
  }

  /** The marks of the first k columns that are named c, in column order; columns without a cell give nothing. */
  function CategoryMarks(marks: seq<seq<string>>, categs: seq<string>, c: string, k: nat): seq<string>
    requires k <= |categs|
  {
    if k == 0 then []
    else CategoryMarks(marks, categs, c, k - 1) + (if categs[k - 1] == c && k - 1 < |marks| then marks[k - 1] else [])
  }

  /** Independent reference for any header: category c's initials, row by row, once per marked column named c. */
  function MarkedCategory(c: string, categs: seq<string>, lines: seq<string>, ignore: int, initialsCol: Option<int>): seq<string>
  {
    if |lines| == 0 then []
    else
      MarkedCategory(c, categs, lines[..|lines| - 1], ignore, initialsCol)
      + CategoryMarks(RowMarks(lines[|lines| - 1], ignore, initialsCol), categs, c, |categs|)
  }

  /**
   * For any header, repeated category names included, the list of category c
   * holds each row's initials once for every column named c whose cell is
   * non-empty, row after row.
   */
  lemma {:induction false} ContribsPerAnyCategory(categs: seq<string>, lines: seq<string>, ignore: int, initialsCol: Option<int>, c: string)
    requires c in categs
    requires ContribsFrom(categs, lines, ignore, initialsCol).Success?
    ensures var d := ContribsFrom(categs, lines, ignore, initialsCol).value;
            c in d.entries && d.entries[c] == MarkedCategory(c, categs, lines, ignore, initialsCol)
  {
    if |lines| > 0 {
      var init, last := lines[..|lines| - 1], lines[|lines| - 1];
      ContribsPerAnyCategory(categs, init, ignore, initialsCol, c);
      var d := ContribsFrom(categs, init, ignore, initialsCol).value;
      LineStepCategory(d, categs, last, ignore, initialsCol, c);
    }
  }

  /** One line adds to category c exactly what CategoryMarks of its RowMarks says. */
  lemma LineStepCategory(d: Contribs, categs: seq<string>, line: string, ignore: int, initialsCol: Option<int>, c: string)
    requires forall i :: 0 <= i < |categs| ==> categs[i] in d.entries
    requires c in d.entries
    requires LineStep(d, categs, line, ignore, initialsCol).Success?
    ensures c in LineStep(d, categs, line, ignore, initialsCol).value.entries
    ensures LineStep(d, categs, line, ignore, initialsCol).value.entries[c]
         == d.entries[c] + CategoryMarks(RowMarks(line, ignore, initialsCol), categs, c, |categs|)
  {
    var vals := Fields(line);
    var inds := Indicators(vals, ignore);
    var initials := RowInitials(vals, initialsCol).value;
    var marks := RowMarks(line, ignore, initialsCol);
    RowMarksOfLine(line, ignore, initialsCol);
    AddRowCategory(d, categs, inds, initials, Min(|categs|, |inds|), c, marks);
    CategoryMarksBeyond(marks, categs, c, |categs|);
  }

  /** A line with initials marks exactly its non-empty cells with them. */
  lemma RowMarksOfLine(line: string, ignore: int, initialsCol: Option<int>)
    requires RowInitials(Fields(line), initialsCol).Success?
    ensures var inds := Indicators(Fields(line), ignore);
            var marks := RowMarks(line, ignore, initialsCol);
            forall j :: 0 <= j < |marks| ==>
              marks[j] == if inds[j] then [RowInitials(Fields(line), initialsCol).value] else []
  {
  }

  /** The first k pairs of `zip` append the initials to c once per marked column named c. */
  lemma {:induction false} AddRowCategory(d: Contribs, categs: seq<string>, inds: seq<bool>, initials: string, k: nat, c: string,
                                          marks: seq<seq<string>>)
    requires k <= |categs| && k <= |inds|
    requires forall i :: 0 <= i < |categs| ==> categs[i] in d.entries
    requires c in d.entries
    requires |marks| == |inds| && forall j :: 0 <= j < |marks| ==> marks[j] == if inds[j] then [initials] else []
    ensures AddRow(d, categs, inds, initials, k).entries[c] == d.entries[c] + CategoryMarks(marks, categs, c, k)
  {
    if k == 0 {
      assert d.entries[c] + [] == d.entries[c];
    } else {
      AddRowCategory(d, categs, inds, initials, k - 1, c, marks);
      var cm := CategoryMarks(marks, categs, c, k - 1);
      if categs[k - 1] == c && inds[k - 1] {
        assert d.entries[c] + cm + [initials] == d.entries[c] + (cm + [initials]);
      } else {
        assert cm + [] == cm;
      }
    }
  }

  /** Columns past the row's cells are not paired by `zip` and record nothing. */
  lemma {:induction false} CategoryMarksBeyond(marks: seq<seq<string>>, categs: seq<string>, c: string, k: nat)
    requires Min(|categs|, |marks|) <= k <= |categs|
    ensures CategoryMarks(marks, categs, c, k) == CategoryMarks(marks, categs, c, Min(|categs|, |marks|))
  {
    if k > Min(|categs|, |marks|) {
      CategoryMarksBeyond(marks, categs, c, k - 1);
      var cm := CategoryMarks(marks, categs, c, k - 1);
      assert cm + [] == cm;
    }
  }

  /** With no data lines every category is listed with no contributors. */
  lemma HeaderOnly(header: string, ignore: int, initialsCol: Option<int>)
    ensures MakeContribsSpec(header, [], ignore, initialsCol) == Success(InitialDict(Categories(header, ignore)))
  {
  }

  /** A line of three tab-separated fields, the last not ending in whitespace. */
  lemma FieldsOfThree(a: string, b: string, c: string)
    requires '\t' !in a && '\t' !in b && '\t' !in c
    requires |c| > 0 && !IsSpace(c[|c| - 1])
    ensures Fields(a + "\t" + b + "\t" + c) == [a, b, c]
  {
    var line := a + "\t" + b + "\t" + c;
    assert line[|line| - 1] == c[|c| - 1];
    assert RStrip(line) == line;
    assert line == a + ['\t'] + (b + "\t" + c);
    SplitAfterPart(a, '\t', b + "\t" + c);
    assert b + "\t" + c == b + ['\t'] + c;
    SplitAfterPart(b, '\t', c);
    SplitNoSeparator(c, '\t');
  }

  /** Two marked columns of one category both append the row's initials to it. */
  lemma TwoMarksOneCategory(d: Contribs, initials: string)
    requires "X" in d.entries
    ensures AddRow(d, ["X", "X"], [true, true], initials, 2).entries["X"] == d.entries["X"] + [initials, initials]
  {
    var categs, inds := ["X", "X"], [true, true];
    assert AddRow(d, categs, inds, initials, 0) == d;
    var d1 := AddRow(d, categs, inds, initials, 1);
    assert d1 == d.Put("X", d.entries["X"] + [initials]);
    assert d1.entries["X"] == d.entries["X"] + [initials];
    assert AddRow(d, categs, inds, initials, 2) == d1.Put("X", d1.entries["X"] + [initials]);
  }

  lemma DuplicateHeaderCategories()
    ensures Categories("Name\tX\tX", 1) == ["X", "X"]
  {
    assert "Name" + "\t" + "X" + "\t" + "X" == "Name\tX\tX";
    FieldsOfThree("Name", "X", "X");
    assert PyDrop(["Name", "X", "X"], 1) == ["X", "X"];
  }

  lemma MarkedTwiceRow()
    ensures var vals := Fields("R\tx\tx");
            RowInitials(vals, Some(1)) == Success("R") && Indicators(vals, 1) == [true, true]
  {
    assert "R" + "\t" + "x" + "\t" + "x" == "R\tx\tx";
    FieldsOfThree("R", "x", "x");
    var vals := ["R", "x", "x"];
    assert PyDrop(vals, 1) == ["x", "x"];
  }

  /** A category named twice in the header gets a row's initials once per marked column. */
  lemma DuplicateCategoryCollectsTwice()
    ensures var r := MakeContribsSpec("Name\tX\tX", ["R\tx\tx"], 1, Some(1));
            r.Success? && "X" in r.value.entries && r.value.entries["X"] == ["R", "R"]
  {
    DuplicateHeaderCategories();
    var categs := ["X", "X"];
    var d0 := InitialDict(categs);
    assert "X" in d0.entries && d0.entries["X"] == [];
    var lines := ["R\tx\tx"];
    assert lines[..0] == [];
    assert ContribsFrom(categs, lines, 1, Some(1)) == LineStep(d0, categs, lines[0], 1, Some(1));
    MarkedTwiceRowStep(d0);
    TwoMarksOneCategory(d0, "R");
    var d1 := AddRow(d0, categs, [true, true], "R", 2);
    assert MakeContribsSpec("Name\tX\tX", lines, 1, Some(1)) == Success(d1);
    assert d1.entries["X"] == [] + ["R", "R"] == ["R", "R"];
  }

  /** The row of DuplicateCategoryCollectsTwice, recorded under the two columns named X. */
  lemma MarkedTwiceRowStep(d: Contribs)
    requires "X" in d.entries
    ensures LineStep(d, ["X", "X"], "R\tx\tx", 1, Some(1)) == Success(AddRow(d, ["X", "X"], [true, true], "R", 2))
  {
    MarkedTwiceRow();
    LineStepRecords(d, ["X", "X"], "R\tx\tx", 1, Some(1));
  }

  /** A line with initials adds them to the categories of its marked cells. */
  lemma LineStepRecords(d: Contribs, categs: seq<string>, line: string, ignore: int, initialsCol: Option<int>)
    requires forall i :: 0 <= i < |categs| ==> categs[i] in d.entries
    requires RowInitials(Fields(line), initialsCol).Success?
    ensures var inds := Indicators(Fields(line), ignore);
            LineStep(d, categs, line, ignore, initialsCol)
            == Success(AddRow(d, categs, inds, RowInitials(Fields(line), initialsCol).value, Min(|categs|, |inds|)))
  {
  }

  /** `for categ, indicator in zip(categs, indicators): if indicator: contrib_dict[categ].append(initials)`. */
  method RecordRow(contribDict: Contribs, categs: seq<string>, indicators: seq<bool>, initials: string) returns (d: Contribs)
    requires forall i :: 0 <= i < |categs| ==> categs[i] in contribDict.entries
    ensures d == AddRow(contribDict, categs, indicators, initials, Min(|categs|, |indicators|))
  {
    d := contribDict;
    for k := 0 to Min(|categs|, |indicators|)
      invariant d == AddRow(contribDict, categs, indicators, initials, k)
    {
      if indicators[k] {
        d := d.Put(categs[k], d.entries[categs[k]] + [initials]);
      }
    }
  }

  /** `make_contribs_dict` as the source runs it: a loop over the lines, each recorded in place. */
  method MakeContribsDict(header: string, lines: seq<string>, ignore: int, initialsCol: Option<int>)
    returns (r: Result<Contribs, Fault>)
    ensures r == MakeContribsSpec(header, lines, ignore, initialsCol)
  {
    var categs := PyDrop(Split(RStrip(header), '\t'), ignore);
    var contribDict := InitialDict(categs);
    for n := 0 to |lines|
      invariant ContribsFrom(categs, lines[..n], ignore, initialsCol) == Success(contribDict)
    {
      var lineVals := Split(RStrip(lines[n]), '\t');
      var initials := RowInitials(lineVals, initialsCol);
      if initials.Failure? {
        BadInitialsColumnFails(categs, lines, n, ignore, initialsCol);
        return Failure(IndexError);
      }
      var indicators := Indicators(lineVals, ignore);
      ContribsFromStep(categs, lines, n, ignore, initialsCol, contribDict);
      contribDict := RecordRow(contribDict, categs, indicators, initials.value);
    }
    assert lines[..|lines|] == lines;
    return Success(contribDict);
  }

  // ---------------------------------------------------------------------
  // Rendering (lines 78-80)
  // ---------------------------------------------------------------------

  /** `'{}: {}; '.format(categ, ', '.join(initials))`. */
  function Segment(categ: string, initials: seq<string>): string
  {
    categ + ": " + Join(initials, ", ") + "; "
  }

  function Segments(items: seq<(string, seq<string>)>): string
  {
    if |items| == 0 then ""
    else Segments(items[..|items| - 1]) + Segment(items[|items| - 1].0, items[|items| - 1].1)
  }

  /** The contributions statement: one segment per category in dict order, then a newline. */
  method WriteContribs(contribs: Contribs) returns (out: string)
    requires contribs.Valid()
    ensures out == Segments(contribs.Items()) + "\n"
  {
    var items := contribs.Items();
    out := "";
    for i := 0 to |items|
      invariant out == Segments(items[..i])
    {
      var (categ, initials) := items[i];
      assert items[..i + 1][..i] == items[..i];
      out := out + Segment(categ, initials);
    }
    assert items[..|items|] == items;
    out := out + "\n";
  }

  /** A segment whose category and initials hold no ';' ends in the only ';' it has. */
  lemma SegmentHasOneTerminator(categ: string, initials: seq<string>)
    requires ';' !in categ
    requires forall k :: 0 <= k < |initials| ==> ';' !in initials[k]
    ensures Occurrences(Segment(categ, initials), ';') == 1
    ensures Segment(categ, initials)[|Segment(categ, initials)| - 2] == ';'
  {
    var joined := Join(initials, ", ");
    JoinAvoids(initials, ", ", ';');
    OccurrencesAbsent(categ + ": " + joined, ';');
    OccurrencesAppend(categ + ": " + joined, "; ", ';');
    assert Occurrences("; ", ';') == 1 by {
      assert "; "[1..] == " " && " "[1..] == "";
    }
  }

  /**
   * When no category name and no initials hold ';', the statement has
   * exactly one ';' per category: the segments can be told apart.
   */
  lemma {:induction false} SegmentsCountTerminators(items: seq<(string, seq<string>)>)
    requires forall i :: 0 <= i < |items| ==> ';' !in items[i].0
    requires forall i, k :: 0 <= i < |items| && 0 <= k < |items[i].1| ==> ';' !in items[i].1[k]
    ensures Occurrences(Segments(items), ';') == |items|
  {
    if |items| > 0 {
      var init, last := items[..|items| - 1], items[|items| - 1];
      assert forall i :: 0 <= i < |init| ==> init[i] == items[i];
      SegmentsCountTerminators(init);
      SegmentHasOneTerminator(last.0, last.1);
      OccurrencesAppend(Segments(init), Segment(last.0, last.1), ';');
    }
  }

  /** When no category name and no initials hold a newline, the statement is one line. */
  lemma {:induction false} SegmentsAvoidNewline(items: seq<(string, seq<string>)>)
    requires forall i :: 0 <= i < |items| ==> '\n' !in items[i].0
    requires forall i, k :: 0 <= i < |items| && 0 <= k < |items[i].1| ==> '\n' !in items[i].1[k]
    ensures '\n' !in Segments(items)
  {
    if |items| > 0 {
      var init := items[..|items| - 1];
      assert forall i :: 0 <= i < |init| ==> init[i] == items[i];
      SegmentsAvoidNewline(init);
      JoinAvoids(items[|items| - 1].1, ", ", '\n');
    }
  }

  /** Two categories, the first with two contributors and the second with none. */
  lemma StatementExample()
    ensures Segments([("Design", ["R.L.C.", "A.B."]), ("Writing", [])]) + "\n"
         == "Design: R.L.C., A.B.; Writing: ; \n"
  {
    var items := [("Design", ["R.L.C.", "A.B."]), ("Writing", [])];
    assert Segments(items[..1]) == "Design: R.L.C., A.B.; " by {
      assert items[..1] == [("Design", ["R.L.C.", "A.B."])];
      assert items[..1][..0] == [];
      TwoContributorsSegment();
    }
    assert Segment("Writing", []) == "Writing: ; ";
  }

  lemma TwoContributorsSegment()
    ensures Segment("Design", ["R.L.C.", "A.B."]) == "Design: R.L.C., A.B.; "
  {
    JoinSnoc(["R.L.C."], "A.B.", ", ");
    assert ["R.L.C."] + ["A.B."] == ["R.L.C.", "A.B."];
  }
}
