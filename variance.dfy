/**
 * The week-by-week variance table of the May / April comparison page
 * (pages/2_Ecarts_Mai_Avril.py): header clean-up, selection of the eleven
 * metrics indexed by `Semaine`, realignment of the reference weeks on the
 * current weeks, percentage change with a zero reference giving an undefined
 * cell, rounding to two decimals, the `MOYENNE` row of column means, and the
 * long form handed to the chart.
 */
module Variance {
  import opened Wrappers
  import opened Strings
  import opened Sequences

  /** A cell as read from the workbook: a number, a piece of text, or empty (NaN). */
  datatype Cell = Num(x: real) | Text(s: string) | Blank

  /** A sheet: its header row and its data rows; a row shorter than the header reads as empty cells. */
  datatype Sheet = Sheet(headers: seq<string>, rows: seq<seq<Cell>>)

  /** A row indexed by its `Semaine` label, with one cell per metric column. */
  datatype Row<T> = Row(week: Cell, cells: map<string, T>)

  /** The selected columns of a sheet, still as read. */
  type Frame = seq<Row<Cell>>

  /** A numeric table; None is a missing or undefined cell. */
  type Table = seq<Row<Option<real>>>

  datatype Error =
    | MissingColumns(names: seq<string>)  // KeyError: a selected column is not in the sheet
    | MissingWeeks(weeks: seq<Cell>)      // KeyError: a current week is not in the reference
    | NonNumericCell                      // TypeError: text met by the arithmetic

  const WeekColumn: string := "Semaine"

  const Metrics: seq<string> := [
    "Planifiés", "Ok", "Nok", "Reportés",
    "Taux Réussite", "Taux Echec", "Taux Report", "Taux Cloture",
    "Montant prévu", "Montant réel", "Montant echec"
  ]

  const MetricSet: set<string> := set m | m in Metrics

  /** The label of the appended row of column means. */
  const Average: Cell := Text("MOYENNE")

  /** Every row has exactly the eleven metric columns. */
  predicate WellShaped<T>(t: seq<Row<T>>) {
    forall i :: 0 <= i < |t| ==> t[i].cells.Keys == MetricSet
  }

  /** The index of a table. */
  function Weeks<T>(t: seq<Row<T>>): seq<Cell> {
    seq(|t|, i requires 0 <= i < |t| => t[i].week)
  }

  // ----- Sequence helpers -----

  /** The position of the first `x` in `s`, or `|s|` when there is none. */
  function IndexOf<T(==)>(s: seq<T>, x: T): (r: nat)
    ensures r <= |s|
    ensures r < |s| ==> s[r] == x
    ensures forall j :: 0 <= j < r ==> s[j] != x
    ensures r == |s| <==> x !in s
  {
    if s == [] then 0
    else if s[0] == x then 0
    else
      var r := 1 + IndexOf(s[1..], x);
      assert forall j :: 1 <= j < |s| ==> s[j] == s[1..][j - 1];
      r
  }

  /** The elements of `xs` that are not in `ys`, in order. */
  function Without<T(==,!new)>(xs: seq<T>, ys: seq<T>): (r: seq<T>)
    ensures forall x :: x in r <==> x in xs && x !in ys
  {
    if xs == [] then []
    else
      assert xs == [xs[0]] + xs[1..];
      (if xs[0] in ys then [] else [xs[0]]) + Without(xs[1..], ys)
  }

  lemma {:induction false} WithoutSameMembers<T(!new)>(xs: seq<T>, ys: seq<T>, zs: seq<T>)
    requires forall x :: x in xs ==> (x in ys <==> x in zs)
    ensures Without(xs, ys) == Without(xs, zs)
  {
    if xs != [] {
      assert xs[0] in xs;
      assert forall x :: x in xs[1..] ==> x in xs;
      WithoutSameMembers(xs[1..], ys, zs);
    }
  }

  /** `s` with repetitions removed, first occurrences kept. */
  function Dedup<T(==,!new)>(s: seq<T>): (r: seq<T>)
    ensures forall x :: x in r <==> x in s
    ensures forall i, j :: 0 <= i < j < |r| ==> r[i] != r[j]
  {
    if s == [] then []
    else
      var init := s[..|s| - 1];
      var d := Dedup(init);
      assert s == init + [s[|s| - 1]];
      if s[|s| - 1] in d then d else d + [s[|s| - 1]]
  }

  // ----- Header clean-up and column selection -----

  /** `df.columns = df.columns.str.strip()`. */
  function StripHeaders(s: Sheet): (r: Sheet)
    ensures |r.headers| == |s.headers| && r.rows == s.rows
    ensures forall j :: 0 <= j < |r.headers| ==> r.headers[j] == Strip(s.headers[j])
  {
    Sheet(seq(|s.headers|, j requires 0 <= j < |s.headers| => Strip(s.headers[j])), s.rows)
  }

  /** A header padded with whitespace, such as `" Ok "`, selects its metric once stripped. */
  lemma PaddedHeaderSelected(s: Sheet, j: nat, a: string, m: string, b: string)
    requires j < |s.headers| && s.headers[j] == a + m + b
    requires AllSpace(a) && AllSpace(b) && Trimmed(m)
    requires forall k :: 0 <= k < j ==> Strip(s.headers[k]) != m
    ensures IndexOf(StripHeaders(s).headers, m) == j
  {
    StripPadded(a, m, b);
  }

  /** The cell of `row` in column `j`. */
  function CellAt(row: seq<Cell>, j: nat): Cell {
    if j < |row| then row[j] else Blank
  }

  /** The columns `df[["Semaine"] + cols_to_compare]` asks for. */
  function Required(): seq<string> {
    [WeekColumn] + Metrics
  }

  /**
   * `df[["Semaine"] + cols_to_compare].set_index("Semaine")`: every required
   * column must be present; a header that occurs twice is read from its first
   * occurrence.
   */
  function Select(s: Sheet): (r: Result<Frame, Error>)
    ensures r.Ok? <==> forall n :: n in Required() ==> n in s.headers
    ensures r.Err? ==> r.error.MissingColumns? && r.error.names != []
    ensures r.Err? ==> forall n :: n in r.error.names <==> n in Required() && n !in s.headers
    ensures r.Ok? ==> |r.value| == |s.rows| && WellShaped(r.value)
    ensures r.Ok? ==> forall i :: 0 <= i < |s.rows| ==>
      && r.value[i].week == CellAt(s.rows[i], IndexOf(s.headers, WeekColumn))
      && forall m :: m in MetricSet ==> r.value[i].cells[m] == CellAt(s.rows[i], IndexOf(s.headers, m))
  {
    var missing := Without(Required(), s.headers);
    if missing != [] then
      assert missing[0] in missing;
      Err(MissingColumns(missing))
    else
      Ok(seq(|s.rows|, i requires 0 <= i < |s.rows| =>
        Row(CellAt(s.rows[i], IndexOf(s.headers, WeekColumn)),
            map m | m in MetricSet :: CellAt(s.rows[i], IndexOf(s.headers, m)))))
  }

  // ----- Realignment: avril.loc[mai.index] -----

  /** The reference rows with a week in `ws`, in their order. */
  function OnlyWeeks(ref: Frame, ws: seq<Cell>): (r: Frame)
    ensures forall i :: 0 <= i < |r| ==> r[i] in ref && r[i].week in ws
  {
    if ref == [] then []
    else (if ref[0].week in ws then [ref[0]] else []) + OnlyWeeks(ref[1..], ws)
  }

  /**
   * The reference rows in the order of the current weeks. A current week the
   * reference lacks is an error naming every such week; a week that only the
   * reference has is dropped.
   */
  function Align(cur: Frame, ref: Frame): (r: Result<Frame, Error>)
    ensures r.Ok? <==> AllWeeksIn(cur, ref)
    ensures r.Err? ==> r.error.MissingWeeks? && r.error.weeks != []
    ensures r.Err? ==> forall w :: w in r.error.weeks <==> w in Weeks(cur) && w !in Weeks(ref)
    ensures r.Err? ==> forall i, j :: 0 <= i < j < |r.error.weeks| ==> r.error.weeks[i] != r.error.weeks[j]
    ensures r.Ok? ==> |r.value| == |cur| && forall i :: 0 <= i < |cur| ==>
      && r.value[i].week == cur[i].week
      && r.value[i] == ref[IndexOf(Weeks(ref), cur[i].week)]
    ensures r.Ok? && WellShaped(ref) ==> WellShaped(r.value)
  {
    var missing := Dedup(Without(Weeks(cur), Weeks(ref)));
    AbsentWeeksEmpty(cur, ref);
    if missing != [] then Err(MissingWeeks(missing)) else Ok(Lookup(cur, ref))
  }

  /** Every current week occurs in the reference. */
  predicate AllWeeksIn(cur: Frame, ref: Frame) {
    forall i :: 0 <= i < |cur| ==> cur[i].week in Weeks(ref)
  }

  lemma AbsentWeeksEmpty(cur: Frame, ref: Frame)
    ensures Dedup(Without(Weeks(cur), Weeks(ref))) == [] <==> AllWeeksIn(cur, ref)
  {
    var missing := Dedup(Without(Weeks(cur), Weeks(ref)));
    if missing == [] {
      forall i | 0 <= i < |cur| ensures cur[i].week in Weeks(ref) {
        assert Weeks(cur)[i] == cur[i].week;
        assert cur[i].week !in missing;
      }
    } else {
      assert missing[0] in missing;
      var i :| 0 <= i < |cur| && Weeks(cur)[i] == missing[0];
      assert cur[i].week !in Weeks(ref);
    }
  }

  /** The reference row of each current week, in current order. */
  function Lookup(cur: Frame, ref: Frame): (r: Frame)
    requires AllWeeksIn(cur, ref)
    ensures |r| == |cur|
    ensures forall i :: 0 <= i < |cur| ==> r[i].week == cur[i].week
    ensures forall i :: 0 <= i < |cur| ==> r[i] == ref[IndexOf(Weeks(ref), cur[i].week)]
    ensures WellShaped(ref) ==> WellShaped(r)
  {
    seq(|cur|, i requires 0 <= i < |cur| => ref[IndexOf(Weeks(ref), cur[i].week)])
  }

  lemma WeeksCons<T>(r: Row<T>, t: seq<Row<T>>)
    ensures Weeks([r] + t) == [r.week] + Weeks(t)
  {
  }

  lemma IndexOfCons<T>(a: T, s: seq<T>, x: T)
    ensures IndexOf([a] + s, x) == if a == x then 0 else 1 + IndexOf(s, x)
  {
    assert ([a] + s)[1..] == s;
  }

  lemma {:induction false} OnlyWeeksMember(ref: Frame, ws: seq<Cell>, w: Cell)
    requires w in ws
    ensures w in Weeks(OnlyWeeks(ref, ws)) <==> w in Weeks(ref)
  {
    if ref != [] {
      var head := ref[0];
      var tail := OnlyWeeks(ref[1..], ws);
      OnlyWeeksMember(ref[1..], ws, w);
      assert ref == [head] + ref[1..];
      WeeksCons(head, ref[1..]);
      if head.week in ws {
        assert OnlyWeeks(ref, ws) == [head] + tail;
        WeeksCons(head, tail);
      } else {
        assert OnlyWeeks(ref, ws) == tail;
      }
    }
  }

  lemma WeeksUncons<T>(t: seq<Row<T>>)
    requires t != []
    ensures Weeks(t) == [t[0].week] + Weeks(t[1..])
  {
  }

  lemma {:induction false} OnlyWeeksLookup(ref: Frame, ws: seq<Cell>, w: Cell)
    requires w in ws && w in Weeks(ref)
    ensures w in Weeks(OnlyWeeks(ref, ws))
    ensures OnlyWeeks(ref, ws)[IndexOf(Weeks(OnlyWeeks(ref, ws)), w)] == ref[IndexOf(Weeks(ref), w)]
  {
    var head := ref[0];
    var tail := OnlyWeeks(ref[1..], ws);
    WeeksUncons(ref);
    IndexOfCons(head.week, Weeks(ref[1..]), w);
    if head.week == w {
      assert OnlyWeeks(ref, ws) == [head] + tail;
      WeeksCons(head, tail);
      IndexOfCons(w, Weeks(tail), w);
    } else {
      OnlyWeeksLookup(ref[1..], ws, w);
      if head.week in ws {
        assert OnlyWeeks(ref, ws) == [head] + tail;
        WeeksCons(head, tail);
        IndexOfCons(head.week, Weeks(tail), w);
      } else {
        assert OnlyWeeks(ref, ws) == tail;
      }
    }
  }

  /** Reference weeks that the current table does not have play no part in the alignment. */
  lemma AlignIgnoresExtraWeeks(cur: Frame, ref: Frame)
    ensures Align(cur, OnlyWeeks(ref, Weeks(cur))) == Align(cur, ref)
  {
    var only := OnlyWeeks(ref, Weeks(cur));
    forall w | w in Weeks(cur)
      ensures (w in Weeks(only) <==> w in Weeks(ref))
      ensures w in Weeks(ref) ==> only[IndexOf(Weeks(only), w)] == ref[IndexOf(Weeks(ref), w)]
    {
      OnlyWeeksMember(ref, Weeks(cur), w);
      if w in Weeks(ref) {
        OnlyWeeksLookup(ref, Weeks(cur), w);
      }
    }
    WithoutSameMembers(Weeks(cur), Weeks(only), Weeks(ref));
    assert forall i :: 0 <= i < |cur| ==> cur[i].week in Weeks(cur) by {
      forall i | 0 <= i < |cur| ensures cur[i].week in Weeks(cur) {
        assert Weeks(cur)[i] == cur[i].week;
      }
    }
    var a1 := Align(cur, only);
    var a2 := Align(cur, ref);
    if a2.Ok? {
      assert a1.Ok?;
      forall i | 0 <= i < |cur| ensures a1.value[i] == a2.value[i] {
        assert cur[i].week in Weeks(ref);
      }
      assert a1.value == a2.value;
    }
  }

  // ----- Numeric cells -----

  /**
   * A number is its value; an empty cell is missing. A text cell is missing
   * too: the arithmetic only lets text through opposite an empty cell (see
   * `Clash`), and there the pair gives an undefined change anyway.
   */
  function Numeric(c: Cell): (r: Option<real>)
    ensures r.Some? <==> c.Num?
    ensures r.Some? ==> r.value == c.x
  {
    match c
    case Num(x) => Some(x)
    case _ => None
  }

  /**
   * A current cell and its aligned reference cell that `mai - avril` cannot
   * subtract: text against a cell that is present (a zero included, since
   * zeros are replaced only in the divisor). pandas retries an object column
   * cell by cell, skipping the pairs where either side is empty, so text
   * opposite an empty cell raises nothing.
   */
  predicate Clash(cur: Cell, ref: Cell): (r: bool)
    ensures !r <==> cur.Blank? || ref.Blank? || (cur.Num? && ref.Num?)
  {
    (cur.Text? && !ref.Blank?) || (ref.Text? && !cur.Blank?)
  }

  /** Some metric of some week pairs text with a present cell. */
  predicate HasClash(cur: Frame, aligned: Frame): (r: bool)
    ensures !r <==> forall i, m ::
      (0 <= i < |cur| && i < |aligned| && m in MetricSet && m in cur[i].cells && m in aligned[i].cells) ==>
        && (cur[i].cells[m].Text? ==> aligned[i].cells[m].Blank?)
        && (aligned[i].cells[m].Text? ==> cur[i].cells[m].Blank?)
  {
    exists i, m :: 0 <= i < |cur| && i < |aligned| && m in MetricSet
      && m in cur[i].cells && m in aligned[i].cells
      && Clash(cur[i].cells[m], aligned[i].cells[m])
  }

  /** Every cell read as a number, in place. */
  function ToNumbers(f: Frame): (r: Table)
    ensures |r| == |f| && Weeks(r) == Weeks(f)
    ensures forall i :: 0 <= i < |f| ==>
      && r[i].week == f[i].week
      && r[i].cells.Keys == f[i].cells.Keys
      && forall m :: m in f[i].cells ==> r[i].cells[m] == Numeric(f[i].cells[m])
    ensures WellShaped(f) ==> WellShaped(r)
  {
    var r := seq(|f|, i requires 0 <= i < |f| =>
      Row(f[i].week, map m | m in f[i].cells :: Numeric(f[i].cells[m])));
    assert forall i :: 0 <= i < |f| ==> Weeks(r)[i] == Weeks(f)[i];
    r
  }

  // ----- Percentage change: (mai - avril) / avril.replace(0, NA) * 100 -----

  /**
   * The change of `cur` relative to `ref`, in percent; undefined when either
   * cell is missing or the reference is zero.
   */
  function Change(cur: Option<real>, ref: Option<real>): (r: Option<real>)
    ensures r.None? <==> cur.None? || ref.None? || ref.value == 0.0
    ensures r.Some? ==> cur.value == ref.value * (1.0 + r.value / 100.0)
    ensures r.Some? ==> (r.value == 0.0 <==> cur.value == ref.value)
  {
    if cur.None? || ref.None? || ref.value == 0.0 then None
    else
      var v := (cur.value - ref.value) / ref.value * 100.0;
      assert ref.value * (v / 100.0) == cur.value - ref.value;
      Some(v)
  }

  /** The change table: the current weeks, each cell the change of current over aligned reference. */
  function Changes(cur: Table, ref: Table): (r: Table)
    requires |cur| == |ref| && WellShaped(cur) && WellShaped(ref)
    ensures |r| == |cur| && WellShaped(r) && Weeks(r) == Weeks(cur)
    ensures forall i, m :: 0 <= i < |r| && m in MetricSet ==>
      r[i].cells[m] == Change(cur[i].cells[m], ref[i].cells[m])
  {
    seq(|cur|, i requires 0 <= i < |cur| =>
      Row(cur[i].week, map m | m in MetricSet :: Change(cur[i].cells[m], ref[i].cells[m])))
  }

  // ----- Rounding: ecarts.round(2) -----

  /** `x` has at most two decimals. */
  predicate IsCents(x: real) {
    (x * 100.0).Floor as real == x * 100.0
  }

  /**
   * numpy's rounding to two decimals: the nearest value with two decimals,
   * a tie going to the one whose last digit is even.
   */
  function Round2(x: real): (r: real)
    ensures IsCents(r)
    ensures -1.0 / 200.0 <= r - x <= 1.0 / 200.0
    ensures r - x == 1.0 / 200.0 || r - x == -1.0 / 200.0 ==> (r * 100.0).Floor % 2 == 0
  {
    var y := x * 100.0 + 0.5;
    var n := y.Floor;
    var k := if n as real == y && n % 2 != 0 then n - 1 else n;
    var r := k as real / 100.0;
    assert r * 100.0 == k as real;
    assert (k as real).Floor == k;
    r
  }

  /** A value that already has two decimals is left as it is, so rounding twice is rounding once. */
  lemma RoundCentsFixed(x: real)
    requires IsCents(x)
    ensures Round2(x) == x
  {
    var n := (x * 100.0).Floor;
    assert x * 100.0 + 0.5 == n as real + 0.5;
    assert (x * 100.0 + 0.5).Floor == n;
    assert n as real != x * 100.0 + 0.5;
  }

  function RoundCell(v: Option<real>): Option<real> {
    if v.Some? then Some(Round2(v.value)) else None
  }

  /** Every defined cell rounded to two decimals, within half a cent of its unrounded value. */
  function Rounded(t: Table): (r: Table)
    ensures |r| == |t| && Weeks(r) == Weeks(t)
    ensures forall i :: 0 <= i < |r| ==> r[i].cells.Keys == t[i].cells.Keys
    ensures forall i, m :: 0 <= i < |r| && m in r[i].cells ==>
      && (r[i].cells[m].Some? <==> t[i].cells[m].Some?)
      && (r[i].cells[m].Some? ==> IsCents(r[i].cells[m].value))
      && (r[i].cells[m].Some? ==> -1.0 / 200.0 <= r[i].cells[m].value - t[i].cells[m].value <= 1.0 / 200.0)
  {
    seq(|t|, i requires 0 <= i < |t| => Row(t[i].week, map m | m in t[i].cells :: RoundCell(t[i].cells[m])))
  }

  /** Some aligned reference cell of metric `m` is zero. */
  predicate HasZero(ref: Table, m: string) {
    exists i :: 0 <= i < |ref| && m in ref[i].cells && ref[i].cells[m] == Some(0.0)
  }

  /** The metrics holding text in some row of `f`, which pandas reads as object columns. */
  function TextColumns(f: Frame): (r: set<string>)
    ensures r <= MetricSet
    ensures forall m :: m in r <==> m in MetricSet && exists i :: 0 <= i < |f| && m in f[i].cells && f[i].cells[m].Text?
  {
    set i, m | 0 <= i < |f| && m in MetricSet && m in f[i].cells && f[i].cells[m].Text? :: m
  }

  /**
   * The rounding as the page performs it. `DataFrame.round` leaves
   * non-numeric columns as they are, and a change column is an object column
   * when `replace(0, pd.NA)` met a zero in its aligned reference column, or
   * when either selected sheet holds text in that column (in any week, the
   * reference weeks the realignment drops included). `CompareAsWritten`
   * passes that set of metrics, `TextColumns(cur) + TextColumns(ref)`, as `text`.
   */
  function RoundedAsWritten(t: Table, aligned: Table, text: set<string>): (r: Table)
    ensures |r| == |t| && Weeks(r) == Weeks(t)
    ensures forall i, m :: 0 <= i < |r| && m in t[i].cells ==>
      m in r[i].cells && r[i].cells[m] ==
        if m in text || HasZero(aligned, m) then t[i].cells[m] else RoundCell(t[i].cells[m])
  {
    seq(|t|, i requires 0 <= i < |t| =>
      Row(t[i].week, map m | m in t[i].cells ::
        if m in text || HasZero(aligned, m) then t[i].cells[m] else RoundCell(t[i].cells[m])))
  }

  /** No column is skipped: with no metric skipped, the page's rounding is `Rounded`. */
  lemma RoundedAsWrittenNoSkip(t: Table, aligned: Table, text: set<string>)
    requires forall m :: m in MetricSet ==> m !in text && !HasZero(aligned, m)
    requires WellShaped(t)
    ensures RoundedAsWritten(t, aligned, text) == Rounded(t)
  {
    var a, b := RoundedAsWritten(t, aligned, text), Rounded(t);
    forall i | 0 <= i < |t| ensures a[i] == b[i] {
      assert a[i].cells == b[i].cells;
    }
  }

  lemma OkIsMetric()
    ensures "Ok" in MetricSet
  {
    assert Metrics[1] == "Ok";
  }

  /** A row whose "Ok" cell is `v` and whose other metric cells are 1. */
  function OkRow(week: real, v: real): (r: Row<Option<real>>)
    ensures r.week == Num(week) && r.cells.Keys == MetricSet
    ensures "Ok" in r.cells && r.cells["Ok"] == Some(v)
  {
    OkIsMetric();
    Row(Num(week), map m | m in MetricSet :: if m == "Ok" then Some(v) else Some(1.0))
  }

  /** Two weeks of May with Ok = 1 both weeks. */
  function ShowCurrent(): (t: Table)
    ensures WellShaped(t) && |t| == 2 && t[1].cells["Ok"] == Some(1.0)
  {
    [OkRow(1.0, 1.0), OkRow(2.0, 1.0)]
  }

  /** The same two weeks of April with Ok = 0, then 3. */
  function ShowReference(): (t: Table)
    ensures WellShaped(t) && |t| == 2 && HasZero(t, "Ok") && t[1].cells["Ok"] == Some(3.0)
  {
    var t := [OkRow(1.0, 0.0), OkRow(2.0, 3.0)];
    assert t[0].cells["Ok"] == Some(0.0);
    t
  }

  lemma NotCents()
    ensures !IsCents(-200.0 / 3.0)
  {
    assert (-200.0 / 3.0 * 100.0).Floor == -6667;
  }

  /**
   * Reference Ok = [0, 3] and current Ok = [1, 1]: the second week's change,
   * -200/3 percent, is left unrounded by the page but rounded to two decimals
   * by `Rounded`.
   */
  lemma AsWrittenLeavesZeroColumnUnrounded()
    ensures var ch := Changes(ShowCurrent(), ShowReference());
      && RoundedAsWritten(ch, ShowReference(), {})[1].cells["Ok"] == Some(-200.0 / 3.0)
      && !IsCents(-200.0 / 3.0)
      && Rounded(ch)[1].cells["Ok"].Some?
      && IsCents(Rounded(ch)[1].cells["Ok"].value)
  {
    var cur := ShowCurrent();
    var ref := ShowReference();
    var ch := Changes(cur, ref);
    assert "Ok" in MetricSet;
    assert ch[1].cells["Ok"] == Change(Some(1.0), Some(3.0));
    NotCents();
  }

  // ----- Averages: ecarts.loc["MOYENNE"] = ecarts.mean() -----

  function DefinedCount(xs: seq<Option<real>>): nat {
    if xs == [] then 0 else (if xs[0].Some? then 1 else 0) + DefinedCount(xs[1..])
  }

  function DefinedSum(xs: seq<Option<real>>): real {
    if xs == [] then 0.0 else (if xs[0].Some? then xs[0].value else 0.0) + DefinedSum(xs[1..])
  }

  /** `Series.mean()`: the mean of the defined cells, undefined when there is none. */
  function Mean(xs: seq<Option<real>>): (r: Option<real>)
    ensures r.None? <==> DefinedCount(xs) == 0
    ensures r.Some? ==> r.value * (DefinedCount(xs) as real) == DefinedSum(xs)
  {
    var n := DefinedCount(xs);
    if n == 0 then None else Some(DefinedSum(xs) / n as real)
  }

  lemma {:induction false} DefinedCountZero(xs: seq<Option<real>>)
    ensures DefinedCount(xs) == 0 <==> forall i :: 0 <= i < |xs| ==> xs[i].None?
  {
    if xs != [] {
      DefinedCountZero(xs[1..]);
      assert forall i :: 1 <= i < |xs| ==> xs[i] == xs[1..][i - 1];
    }
  }

  /** `v` added once for every defined cell. */
  function Scaled(xs: seq<Option<real>>, v: real): real {
    if xs == [] then 0.0 else (if xs[0].Some? then v else 0.0) + Scaled(xs[1..], v)
  }

  lemma {:induction false} ScaledIsProduct(xs: seq<Option<real>>, v: real)
    ensures Scaled(xs, v) == v * DefinedCount(xs) as real
  {
    if xs != [] {
      ScaledIsProduct(xs[1..], v);
      var c := DefinedCount(xs[1..]) as real;
      if xs[0].Some? {
        MulSucc(v, c, DefinedCount(xs) as real);
      }
    }
  }

  lemma MulSucc(a: real, c: real, n: real)
    requires n == c + 1.0
    ensures a * n == a * c + a
  {
  }

  /** The defined cells sum to at least `lo` times their number when each is at least `lo`. */
  lemma DefinedSumAtLeast(xs: seq<Option<real>>, lo: real)
    requires forall x :: x in xs && x.Some? ==> lo <= x.value
    ensures lo * DefinedCount(xs) as real <= DefinedSum(xs)
  {
    ScaledBelowSum(xs, lo);
    ScaledIsProduct(xs, lo);
  }

  /** The defined cells sum to at most `hi` times their number when each is at most `hi`. */
  lemma DefinedSumAtMost(xs: seq<Option<real>>, hi: real)
    requires forall x :: x in xs && x.Some? ==> x.value <= hi
    ensures DefinedSum(xs) <= hi * DefinedCount(xs) as real
  {
    SumBelowScaled(xs, hi);
    ScaledIsProduct(xs, hi);
  }

  lemma {:induction false} ScaledBelowSum(xs: seq<Option<real>>, lo: real)
    requires forall x :: x in xs && x.Some? ==> lo <= x.value
    ensures Scaled(xs, lo) <= DefinedSum(xs)
  {
    if xs != [] {
      assert xs[0] in xs;
      assert forall x :: x in xs[1..] ==> x in xs;
      ScaledBelowSum(xs[1..], lo);
    }
  }

  lemma {:induction false} SumBelowScaled(xs: seq<Option<real>>, hi: real)
    requires forall x :: x in xs && x.Some? ==> x.value <= hi
    ensures DefinedSum(xs) <= Scaled(xs, hi)
  {
    if xs != [] {
      assert xs[0] in xs;
      assert forall x :: x in xs[1..] ==> x in xs;
      SumBelowScaled(xs[1..], hi);
    }
  }

  lemma QuotientBounds(total: real, n: real, lo: real, hi: real)
    requires n > 0.0 && lo * n <= total <= hi * n
    ensures lo <= total / n <= hi
  {
    assert (total / n) * n == total;
  }

  /** The mean lies between any bounds of the defined cells. */
  lemma MeanBounds(xs: seq<Option<real>>, lo: real, hi: real)
    requires forall x :: x in xs && x.Some? ==> lo <= x.value <= hi
    ensures Mean(xs).Some? ==> lo <= Mean(xs).value <= hi
  {
    DefinedSumAtLeast(xs, lo);
    DefinedSumAtMost(xs, hi);
    var n := DefinedCount(xs);
    if n != 0 {
      QuotientBounds(DefinedSum(xs), n as real, lo, hi);
    }
  }

  /** The cells of metric `m`, week by week. */
  function Column(t: Table, m: string): (c: seq<Option<real>>)
    ensures |c| == |t|
    ensures forall i :: 0 <= i < |t| && m in t[i].cells ==> c[i] == t[i].cells[m]
  {
    seq(|t|, i requires 0 <= i < |t| => if m in t[i].cells then t[i].cells[m] else None)
  }

  /** The `MOYENNE` row: per metric, the mean of that column's defined cells. */
  function AverageRow(t: Table): (r: Row<Option<real>>)
    ensures r.week == Average && r.cells.Keys == MetricSet
    ensures forall m :: m in MetricSet ==> r.cells[m] == Mean(Column(t, m))
  {
    Row(Average, map m | m in MetricSet :: Mean(Column(t, m)))
  }

  /**
   * `.loc["MOYENNE"] = ...`: appends the average row, or, when a week is
   * already labelled `MOYENNE`, overwrites every row with that label.
   */
  function WithAverage(t: Table): (r: Table)
    ensures Average !in Weeks(t) ==> r == t + [AverageRow(t)]
    ensures Average in Weeks(t) ==> |r| == |t| && forall i :: 0 <= i < |t| ==>
      r[i] == if t[i].week == Average then AverageRow(t) else t[i]
    ensures Weeks(t) <= Weeks(r) || |r| == |t|
    ensures WellShaped(t) ==> WellShaped(r)
    ensures Average in Weeks(r)
  {
    var avg := AverageRow(t);
    if Average in Weeks(t) then
      var r := seq(|t|, i requires 0 <= i < |t| => if t[i].week == Average then avg else t[i]);
      assert Average in Weeks(r) by {
        var i :| 0 <= i < |t| && Weeks(t)[i] == Average;
        assert Weeks(r)[i] == Average;
      }
      r
    else
      var r := t + [avg];
      assert Weeks(r) == Weeks(t) + [Average];
      r
  }

  /** The variance table: rounded changes plus the `MOYENNE` row. */
  function Report(cur: Table, ref: Table): (r: Table)
    requires |cur| == |ref| && WellShaped(cur) && WellShaped(ref)
    ensures WellShaped(r) && Average in Weeks(r)
  {
    WithAverage(Rounded(Changes(cur, ref)))
  }

  /**
   * The comparison of the two selected tables: realign the reference on the
   * current weeks, read both as numbers, and build the variance table. It
   * fails on a missing week first, then on text met by the arithmetic.
   */
  function Compare(cur: Frame, ref: Frame): (r: Result<Table, Error>)
    requires WellShaped(cur) && WellShaped(ref)
    ensures r.Ok? <==> AllWeeksIn(cur, ref) && !HasClash(cur, Lookup(cur, ref))
    ensures r.Err? ==> (r.error.MissingWeeks? <==> !AllWeeksIn(cur, ref))
    ensures r.Err? && AllWeeksIn(cur, ref) ==> r.error == NonNumericCell
    ensures r.Ok? ==> WellShaped(r.value) && Average in Weeks(r.value)
    ensures r.Ok? ==> r.value == Report(ToNumbers(cur), ToNumbers(Lookup(cur, ref)))
    ensures r.Ok? && Average !in Weeks(cur) ==> Weeks(r.value) == Weeks(cur) + [Average]
  {
    var aligned :- Align(cur, ref);
    assert aligned == Lookup(cur, ref);
    if HasClash(cur, aligned) then Err(NonNumericCell)
    else
      var c, a := ToNumbers(cur), ToNumbers(aligned);
      if Average !in Weeks(cur) then
        ReportShape(c, a);
        Ok(Report(c, a))
      else Ok(Report(c, a))
  }

  /** Neither sheet holds text in a metric column and no aligned reference cell is zero. */
  predicate NoObjectColumn(cur: Frame, ref: Frame)
    requires AllWeeksIn(cur, ref)
  {
    && TextColumns(cur) == {} && TextColumns(ref) == {}
    && forall m :: m in MetricSet ==> !HasZero(ToNumbers(Lookup(cur, ref)), m)
  }

  /**
   * The comparison as the page performs it: as `Compare`, except that the
   * rounding skips the object columns, those holding text in either selected
   * sheet and those whose aligned reference holds a zero. Without such a
   * column it is `Compare`.
   */
  function CompareAsWritten(cur: Frame, ref: Frame): (r: Result<Table, Error>)
    requires WellShaped(cur) && WellShaped(ref)
    ensures r.Ok? <==> Compare(cur, ref).Ok?
    ensures r.Err? ==> r == Compare(cur, ref)
    ensures r.Ok? ==> var a := ToNumbers(Lookup(cur, ref));
      r.value == WithAverage(RoundedAsWritten(Changes(ToNumbers(cur), a), a, TextColumns(cur) + TextColumns(ref)))
    ensures r.Ok? && NoObjectColumn(cur, ref) ==> r == Compare(cur, ref)
  {
    var aligned :- Align(cur, ref);
    assert aligned == Lookup(cur, ref);
    if HasClash(cur, aligned) then Err(NonNumericCell)
    else
      var c, a := ToNumbers(cur), ToNumbers(aligned);
      var text := TextColumns(cur) + TextColumns(ref);
      if NoObjectColumn(cur, ref) then
        RoundedAsWrittenNoSkip(Changes(c, a), a, text);
        Ok(WithAverage(RoundedAsWritten(Changes(c, a), a, text)))
      else Ok(WithAverage(RoundedAsWritten(Changes(c, a), a, text)))
  }

  /**
   * May has week 1 with every metric 1; April has week 1 with every metric 3
   * and a week 2 whose `m` cell is text.
   */
  predicate TextCase(cur: Frame, ref: Frame, m: string) {
    && WellShaped(cur) && WellShaped(ref) && m in MetricSet
    && |cur| == 1 && |ref| == 2
    && cur[0].week == Num(1.0) && ref[0].week == Num(1.0) && ref[1].week == Num(2.0)
    && (forall n :: n in MetricSet ==> cur[0].cells[n] == Num(1.0) && ref[0].cells[n] == Num(3.0))
    && ref[1].cells[m].Text?
  }

  /** The realignment keeps April's week 1 only. */
  lemma TextCaseLookup(cur: Frame, ref: Frame, m: string)
    requires TextCase(cur, ref, m)
    ensures AllWeeksIn(cur, ref) && Lookup(cur, ref) == [ref[0]]
    ensures Average !in Weeks(cur)
  {
    assert Weeks(ref)[0] == Num(1.0);
    assert IndexOf(Weeks(ref), Num(1.0)) == 0;
    assert Weeks(cur) == [Num(1.0)];
  }

  /** Week 1 holds numbers on both sides, so no subtraction meets text. */
  lemma TextCaseNoClash(cur: Frame, ref: Frame, m: string)
    requires TextCase(cur, ref, m)
    ensures !HasClash(cur, [ref[0]])
  {
    var aligned := [ref[0]];
    forall i, n | 0 <= i < |cur| && i < |aligned| && n in MetricSet
      ensures !Clash(cur[i].cells[n], aligned[i].cells[n])
    {
      assert cur[i].cells[n] == Num(1.0) && aligned[i].cells[n] == Num(3.0);
    }
  }

  /** The realignment keeps April's week 1 only, so no subtraction meets the text. */
  lemma TextCaseAligned(cur: Frame, ref: Frame, m: string)
    requires TextCase(cur, ref, m)
    ensures AllWeeksIn(cur, ref) && Lookup(cur, ref) == [ref[0]]
    ensures !HasClash(cur, Lookup(cur, ref))
    ensures Average !in Weeks(cur) && m in TextColumns(ref)
  {
    TextCaseLookup(cur, ref, m);
    TextCaseNoClash(cur, ref, m);
  }

  /** Week 1's change in `m` is -200/3 percent. */
  lemma TextCaseChange(cur: Frame, ref: Frame, m: string)
    requires TextCase(cur, ref, m)
    ensures AllWeeksIn(cur, ref)
    ensures var ch := Changes(ToNumbers(cur), ToNumbers(Lookup(cur, ref)));
      |ch| == 1 && m in ch[0].cells && ch[0].cells[m] == Some(-200.0 / 3.0)
  {
    TextCaseAligned(cur, ref, m);
    var aligned := Lookup(cur, ref);
    var c, a := ToNumbers(cur), ToNumbers(aligned);
    assert c[0].cells[m] == Numeric(cur[0].cells[m]) == Some(1.0);
    assert a[0].cells[m] == Numeric(aligned[0].cells[m]) == Some(3.0);
    assert Change(Some(1.0), Some(3.0)) == Some(-200.0 / 3.0);
    assert Changes(c, a)[0].cells[m] == Change(c[0].cells[m], a[0].cells[m]);
  }

  /** The page leaves week 1's change in `m` as it is. */
  lemma TextCaseAsWritten(cur: Frame, ref: Frame, m: string)
    requires TextCase(cur, ref, m)
    ensures CompareAsWritten(cur, ref).Ok? && |CompareAsWritten(cur, ref).value| > 0
    ensures m in CompareAsWritten(cur, ref).value[0].cells
    ensures CompareAsWritten(cur, ref).value[0].cells[m] == Some(-200.0 / 3.0)
  {
    TextCaseAligned(cur, ref, m);
    TextCaseChange(cur, ref, m);
    var a := ToNumbers(Lookup(cur, ref));
    var ch := Changes(ToNumbers(cur), a);
    var text := TextColumns(cur) + TextColumns(ref);
    var ra := RoundedAsWritten(ch, a, text);
    assert ra[0].cells[m] == Some(-200.0 / 3.0) by {
      assert m in text;
    }
    assert WithAverage(ra)[0] == ra[0] by {
      assert Weeks(ra) == Weeks(cur);
    }
    assert CompareAsWritten(cur, ref).value == WithAverage(ra);
  }

  /** `Compare` rounds week 1's change in `m` to two decimals. */
  lemma TextCaseIntended(cur: Frame, ref: Frame, m: string)
    requires TextCase(cur, ref, m)
    ensures Compare(cur, ref).Ok? && |Compare(cur, ref).value| > 0
    ensures m in Compare(cur, ref).value[0].cells
    ensures Compare(cur, ref).value[0].cells[m].Some?
    ensures IsCents(Compare(cur, ref).value[0].cells[m].value)
  {
    TextCaseAligned(cur, ref, m);
    TextCaseChange(cur, ref, m);
    var c, a := ToNumbers(cur), ToNumbers(Lookup(cur, ref));
    assert Changes(c, a)[0].cells[m] == Change(c[0].cells[m], a[0].cells[m]);
    ReportShape(c, a);
    var r := Report(c, a);
    assert Compare(cur, ref).value == r;
    assert r[0].cells[m].Some? && IsCents(r[0].cells[m].value);
  }

  /**
   * The text sits in an April week the realignment drops, so no subtraction
   * meets it, yet the `m` column stays an object column: the page shows the
   * change -200/3 unrounded where `Compare` rounds it to two decimals.
   */
  lemma AsWrittenLeavesTextColumnUnrounded(cur: Frame, ref: Frame, m: string)
    requires TextCase(cur, ref, m)
    ensures ref[1].week !in Weeks(cur)
    ensures CompareAsWritten(cur, ref).Ok? && |CompareAsWritten(cur, ref).value| > 0
    ensures m in CompareAsWritten(cur, ref).value[0].cells
    ensures CompareAsWritten(cur, ref).value[0].cells[m] == Some(-200.0 / 3.0)
    ensures !IsCents(-200.0 / 3.0)
    ensures Compare(cur, ref).Ok? && |Compare(cur, ref).value| > 0
    ensures m in Compare(cur, ref).value[0].cells
    ensures Compare(cur, ref).value[0].cells[m].Some?
    ensures IsCents(Compare(cur, ref).value[0].cells[m].value)
  {
    assert Weeks(cur) == [Num(1.0)];
    TextCaseAsWritten(cur, ref, m);
    TextCaseIntended(cur, ref, m);
    NotCents();
  }

  /** The whole page: strip the headers of both sheets, select the metrics, and compare. */
  function VarianceReport(current: Sheet, reference: Sheet): (r: Result<Table, Error>)
    ensures var cur, ref := Select(StripHeaders(current)), Select(StripHeaders(reference));
      r.Ok? <==> cur.Ok? && ref.Ok? && Compare(cur.value, ref.value).Ok?
    ensures var cur := Select(StripHeaders(current));
      cur.Err? ==> r == Err(cur.error)
    ensures var cur, ref := Select(StripHeaders(current)), Select(StripHeaders(reference));
      cur.Ok? && ref.Err? ==> r == Err(ref.error)
    ensures var cur, ref := Select(StripHeaders(current)), Select(StripHeaders(reference));
      cur.Ok? && ref.Ok? ==> r == Compare(cur.value, ref.value)
    ensures r.Ok? ==> WellShaped(r.value) && Average in Weeks(r.value)
    ensures var cur := Select(StripHeaders(current));
      r.Ok? && cur.Ok? && Average !in Weeks(cur.value) ==> Weeks(r.value) == Weeks(cur.value) + [Average]
  {
    var cur :- Select(StripHeaders(current));
    var ref :- Select(StripHeaders(reference));
    Compare(cur, ref)
  }

  /**
   * Text opposite an empty cell raises nothing: when the comparison
   * succeeds, a current text cell gives an undefined change.
   */
  lemma TextOppositeEmptyUndefined(cur: Frame, ref: Frame, i: nat, m: string)
    requires WellShaped(cur) && WellShaped(ref) && Average !in Weeks(cur)
    requires i < |cur| && m in MetricSet && cur[i].cells[m].Text?
    requires Compare(cur, ref).Ok?
    ensures Lookup(cur, ref)[i].cells[m] == Blank
    ensures Compare(cur, ref).value[i].cells[m] == None
  {
    var aligned := Lookup(cur, ref);
    var c, a := ToNumbers(cur), ToNumbers(aligned);
    assert !Clash(cur[i].cells[m], aligned[i].cells[m]);
    ReportShape(c, a);
  }

  // ----- Properties of the variance table -----

  /**
   * With no week labelled `MOYENNE`, the report has the current weeks in
   * order followed by one `MOYENNE` row; each week's cell is defined exactly
   * when the change is, has two decimals and lies within half a cent of the
   * change; each `MOYENNE` cell is the mean of the defined rounded cells above it.
   */
  lemma ReportShape(cur: Table, ref: Table)
    requires |cur| == |ref| && WellShaped(cur) && WellShaped(ref)
    requires Average !in Weeks(cur)
    ensures var r := Report(cur, ref);
      && |r| == |cur| + 1
      && Weeks(r) == Weeks(cur) + [Average]
      && (forall i, m :: 0 <= i < |cur| && m in MetricSet ==>
            var ch := Change(cur[i].cells[m], ref[i].cells[m]);
            && (r[i].cells[m].Some? <==> ch.Some?)
            && (ch.Some? ==> IsCents(r[i].cells[m].value))
            && (ch.Some? ==> -1.0 / 200.0 <= r[i].cells[m].value - ch.value <= 1.0 / 200.0))
      && (forall m :: m in MetricSet ==> r[|cur|].cells[m] == Mean(Column(r[..|cur|], m)))
  {
    var changes := Changes(cur, ref);
    var rounded := Rounded(changes);
    assert Weeks(rounded) == Weeks(cur);
    var r := WithAverage(rounded);
    assert r == rounded + [AverageRow(rounded)];
    assert r[..|cur|] == rounded;
    WeeksSnoc(rounded, AverageRow(rounded));
    forall i, m | 0 <= i < |cur| && m in MetricSet
      ensures r[i].cells[m] == rounded[i].cells[m] && changes[i].cells[m] == Change(cur[i].cells[m], ref[i].cells[m])
    {
    }
  }

  lemma WeeksSnoc<T>(t: seq<Row<T>>, last: Row<T>)
    ensures Weeks(t + [last]) == Weeks(t) + [last.week]
  {
  }

  /** Every metric cell of every row is 0. */
  predicate AllZero(t: Table) {
    forall i, m :: 0 <= i < |t| && m in MetricSet ==> m in t[i].cells && t[i].cells[m] == Some(0.0)
  }

  /** The only two-decimal value within half a cent of 0 is 0. */
  lemma CentsNearZero(v: real)
    requires IsCents(v) && -1.0 / 200.0 <= v <= 1.0 / 200.0
    ensures v == 0.0
  {
    var n := (v * 100.0).Floor;
    assert n as real == v * 100.0;
    assert -1 < n < 1;
  }

  lemma RoundedChangesZero(t: Table)
    requires WellShaped(t)
    requires forall i, m :: 0 <= i < |t| && m in MetricSet ==> t[i].cells[m].Some? && t[i].cells[m].value != 0.0
    ensures AllZero(Rounded(Changes(t, t)))
  {
    var ch := Changes(t, t);
    var rounded := Rounded(ch);
    forall i, m | 0 <= i < |t| && m in MetricSet
      ensures m in rounded[i].cells && rounded[i].cells[m] == Some(0.0)
    {
      assert ch[i].cells[m] == Some(0.0);
      CentsNearZero(rounded[i].cells[m].value);
    }
  }

  lemma AverageOfZero(t: Table)
    requires AllZero(t) && |t| > 0
    ensures forall m :: m in MetricSet ==> AverageRow(t).cells[m] == Some(0.0)
  {
    forall m | m in MetricSet ensures Mean(Column(t, m)) == Some(0.0) {
      var col := Column(t, m);
      assert col[0].Some?;
      DefinedCountZero(col);
      MeanBounds(col, 0.0, 0.0);
    }
  }

  /** Comparing a table with itself, all references nonzero, gives 0 in every cell, `MOYENNE` included. */
  lemma EqualPeriodsGiveZero(t: Table)
    requires WellShaped(t) && |t| > 0
    requires forall i, m :: 0 <= i < |t| && m in MetricSet ==> t[i].cells[m].Some? && t[i].cells[m].value != 0.0
    ensures AllZero(Report(t, t))
  {
    var rounded := Rounded(Changes(t, t));
    RoundedChangesZero(t);
    AverageOfZero(rounded);
    var r := WithAverage(rounded);
    forall i, m | 0 <= i < |r| && m in MetricSet ensures m in r[i].cells && r[i].cells[m] == Some(0.0) {
      if i < |rounded| && r[i] == rounded[i] {
      } else {
        assert r[i] == AverageRow(rounded);
      }
    }
  }

  /** Text against a present cell makes the comparison fail with a TypeError. */
  lemma TextAgainstValueRejected(cur: Frame, ref: Frame, i: nat, m: string)
    requires WellShaped(cur) && WellShaped(ref) && AllWeeksIn(cur, ref)
    requires i < |cur| && m in MetricSet && Clash(cur[i].cells[m], Lookup(cur, ref)[i].cells[m])
    ensures Compare(cur, ref) == Err(NonNumericCell)
  {
  }

  /** A current week that the reference lacks makes the comparison fail with an error naming it. */
  lemma MissingWeekRejected(cur: Frame, ref: Frame, w: Cell)
    requires WellShaped(cur) && WellShaped(ref)
    requires w in Weeks(cur) && w !in Weeks(ref)
    ensures Compare(cur, ref).Err?
    ensures Compare(cur, ref).error.MissingWeeks?
    ensures w in Compare(cur, ref).error.weeks
  {
    var i :| 0 <= i < |cur| && Weeks(cur)[i] == w;
    assert cur[i].week == w;
  }

  // ----- Long form: drop(index="MOYENNE").reset_index().melt(...) -----

  /** One point of the chart: a week, a metric and its cell. */
  datatype Point = Point(week: Cell, metric: string, value: Option<real>)

  /**
   * `drop(index="MOYENNE")`: every row not labelled `MOYENNE` is kept, as
   * often as it occurs; every `MOYENNE` row is dropped. pandas raises a
   * KeyError when no row has that label; the page never meets that case,
   * since `Report` always adds the row, and the model extends the drop to
   * such a table by leaving it unchanged.
   */
  function WithoutAverage(t: Table): (r: Table)
    ensures Average !in Weeks(r)
    ensures forall x :: multiset(r)[x] == if x.week == Average then 0 else multiset(t)[x]
    ensures |r| == |t| - multiset(Weeks(t))[Average]
    ensures Average !in Weeks(t) ==> r == t
  {
    if t == [] then []
    else
      var rest := WithoutAverage(t[1..]);
      AverageCountUncons(t);
      if t[0].week == Average then rest
      else
        WeeksCons(t[0], rest);
        [t[0]] + rest
  }

  /** The counts of rows and of `MOYENNE` weeks, split at the first row. */
  lemma AverageCountUncons(t: Table)
    requires t != []
    ensures multiset(t) == multiset{t[0]} + multiset(t[1..])
    ensures multiset(Weeks(t))[Average] == (if t[0].week == Average then 1 else 0) + multiset(Weeks(t[1..]))[Average]
    ensures Average !in Weeks(t) ==> t[0].week != Average && Average !in Weeks(t[1..]) && t == [t[0]] + t[1..]
  {
    assert t == [t[0]] + t[1..];
    WeeksUncons(t);
  }

  /** The drop keeps the order of the rows: it distributes over concatenation. */
  lemma {:induction false} WithoutAverageConcat(a: Table, b: Table)
    ensures WithoutAverage(a + b) == WithoutAverage(a) + WithoutAverage(b)
  {
    if a == [] {
      assert a + b == b;
    } else {
      assert (a + b)[0] == a[0] && (a + b)[1..] == a[1..] + b;
      WithoutAverageConcat(a[1..], b);
    }
  }

  /** One metric's column as points, week by week. */
  function MetricPoints(rows: Table, m: string): (r: seq<Point>)
    ensures |r| == |rows|
    ensures forall i :: 0 <= i < |rows| ==>
      r[i] == Point(rows[i].week, m, if m in rows[i].cells then rows[i].cells[m] else None)
  {
    seq(|rows|, i requires 0 <= i < |rows| =>
      Point(rows[i].week, m, if m in rows[i].cells then rows[i].cells[m] else None))
  }

  /** `melt`: the first metric's column, then the second's, and so on. */
  function Melt(rows: Table, ms: seq<string>): (r: seq<Point>)
    ensures |r| == |ms| * |rows|
    ensures forall k :: 0 <= k < |r| ==> r[k].week in Weeks(rows) && r[k].metric in ms
  {
    if ms == [] then []
    else
      var head := MetricPoints(rows, ms[0]);
      var rest := Melt(rows, ms[1..]);
      assert forall k :: 0 <= k < |head| ==> head[k].week == Weeks(rows)[k];
      head + rest
  }

  /** The points the chart plots: every week but `MOYENNE`, for each metric. */
  function LongForm(t: Table): (r: seq<Point>)
    ensures |r| == |Metrics| * (|t| - multiset(Weeks(t))[Average])
    ensures forall k :: 0 <= k < |r| ==> r[k].week != Average && r[k].metric in MetricSet
  {
    Melt(WithoutAverage(t), Metrics)
  }

  /** The melted points are the earlier metrics' points, then metric `k`'s column, then the later metrics' points. */
  lemma {:induction false} MeltBlock(rows: Table, ms: seq<string>, k: nat)
    requires k < |ms|
    ensures Melt(rows, ms) == Melt(rows, ms[..k]) + MetricPoints(rows, ms[k]) + Melt(rows, ms[k + 1..])
  {
    var head := MetricPoints(rows, ms[0]);
    assert Melt(rows, ms) == head + Melt(rows, ms[1..]);
    if k == 0 {
      assert ms[..0] == [] && ms[1..] == ms[k + 1..];
    } else {
      MeltBlock(rows, ms[1..], k - 1);
      assert ms[..k][0] == ms[0] && ms[..k][1..] == ms[1..][..k - 1];
      assert ms[1..][k - 1] == ms[k] && ms[1..][k..] == ms[k + 1..];
      var before := Melt(rows, ms[1..][..k - 1]);
      var mid, after := MetricPoints(rows, ms[k]), Melt(rows, ms[k + 1..]);
      assert Melt(rows, ms[..k]) == head + before;
      assert Melt(rows, ms[1..]) == before + mid + after;
      AppendAssoc(head, before + mid, after);
      AppendAssoc(head, before, mid);
    }
  }

  /**
   * The long form of a report has eleven points for every current week not
   * labelled `MOYENNE`, whether the average row was appended or overwrote
   * current rows.
   */
  lemma LongFormSize(cur: Table, ref: Table)
    requires |cur| == |ref| && WellShaped(cur) && WellShaped(ref)
    ensures |LongForm(Report(cur, ref))| == |Metrics| * (|cur| - multiset(Weeks(cur))[Average])
  {
    ReportWeeksBesideAverage(cur, ref);
  }

  /** The report has as many weeks other than `MOYENNE` as the current table. */
  lemma ReportWeeksBesideAverage(cur: Table, ref: Table)
    requires |cur| == |ref| && WellShaped(cur) && WellShaped(ref)
    ensures var r := Report(cur, ref);
      |r| - multiset(Weeks(r))[Average] == |cur| - multiset(Weeks(cur))[Average]
  {
    var rounded := Rounded(Changes(cur, ref));
    assert Weeks(rounded) == Weeks(cur);
    var r := WithAverage(rounded);
    if Average in Weeks(rounded) {
      assert Weeks(r) == Weeks(rounded) by {
        forall i | 0 <= i < |r| ensures Weeks(r)[i] == Weeks(rounded)[i] {
          assert Weeks(rounded)[i] == rounded[i].week;
        }
      }
    } else {
      WeeksSnoc(rounded, AverageRow(rounded));
      assert multiset(Weeks(cur))[Average] == 0;
    }
  }

  /** Dropping `MOYENNE` from a table whose only `MOYENNE` row is an appended last row gives the table back. */
  lemma WithoutAverageAppend(t: Table, last: Row<Option<real>>)
    requires Average !in Weeks(t) && last.week == Average
    ensures WithoutAverage(t + [last]) == t
  {
    WithoutAverageLast(t, last);
  }

  /** An appended `MOYENNE` row plays no part in the drop. */
  lemma WithoutAverageLast(t: Table, last: Row<Option<real>>)
    requires last.week == Average
    ensures WithoutAverage(t + [last]) == WithoutAverage(t)
  {
    WithoutAverageConcat(t, [last]);
    assert [last][1..] == [];
  }
}
