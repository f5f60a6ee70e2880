/**
 * The data logic of the intervention dashboard (dashboard_g_7_caraibes.py):
 * the technician and provider option lists, the row filter, the KPI totals,
 * the per-technician group-by and the table of supplemental-work codes.
 */
module Interventions {
  import opened Wrappers
  import opened Strings
  import opened Codes
  import opened Sequences

  /** One row of the intervention sheet, reduced to the columns the page reads; a missing cell is None. */
  datatype Intervention = Intervention(
    technician: Option<string>,  // TECHNICIEN
    provider: Option<string>,    // PRESTATAIRE
    gset: Option<real>,          // GSET
    stt: Option<real>,           // STT
    refPxo: Option<string>,      // Ref PXO
    billing: Option<string>,     // FACTURATION
    extraWork: Option<string>)   // TRAVAUX SUPPLEMENTAIRES

  // ----- Option lists: sorted(column.dropna().unique()) -----

  /** The distinct non-missing values of a column, in ascending order. */
  function SortedDistinct(vs: seq<Option<string>>): (r: seq<string>)
    ensures StrictlyAscending(r)
    ensures forall x :: x in r <==> Some(x) in vs
  {
    if vs == [] then []
    else
      var rest := SortedDistinct(vs[1..]);
      assert vs == [vs[0]] + vs[1..];
      if vs[0].Some? then Insert(rest, vs[0].value) else rest
  }

  /** The technician choices offered by the sidebar. */
  function TechnicianOptions(rows: seq<Intervention>): (r: seq<string>)
    ensures StrictlyAscending(r)
    ensures forall x :: x in r <==> exists i :: 0 <= i < |rows| && rows[i].technician == Some(x)
  {
    var column := seq(|rows|, i requires 0 <= i < |rows| => rows[i].technician);
    assert forall x :: Some(x) in column <==> exists i :: 0 <= i < |rows| && rows[i].technician == Some(x) by {
      forall x ensures Some(x) in column <==> exists i :: 0 <= i < |rows| && rows[i].technician == Some(x) {
        if exists i :: 0 <= i < |rows| && rows[i].technician == Some(x) {
          var i :| 0 <= i < |rows| && rows[i].technician == Some(x);
          assert column[i] == Some(x);
        }
      }
    }
    SortedDistinct(column)
  }

  /** The provider choices offered by the sidebar. */
  function ProviderOptions(rows: seq<Intervention>): (r: seq<string>)
    ensures StrictlyAscending(r)
    ensures forall x :: x in r <==> exists i :: 0 <= i < |rows| && rows[i].provider == Some(x)
  {
    var column := seq(|rows|, i requires 0 <= i < |rows| => rows[i].provider);
    assert forall x :: Some(x) in column <==> exists i :: 0 <= i < |rows| && rows[i].provider == Some(x) by {
      forall x ensures Some(x) in column <==> exists i :: 0 <= i < |rows| && rows[i].provider == Some(x) {
        if exists i :: 0 <= i < |rows| && rows[i].provider == Some(x) {
          var i :| 0 <= i < |rows| && rows[i].provider == Some(x);
          assert column[i] == Some(x);
        }
      }
    }
    SortedDistinct(column)
  }

  // ----- Row filter: TECHNICIEN.isin(f_techs) & PRESTATAIRE.isin(f_prests) -----

  /** `isin` never matches a missing cell. */
  predicate Selected(r: Intervention, techs: set<string>, provs: set<string>) {
    && r.technician.Some? && r.technician.value in techs
    && r.provider.Some? && r.provider.value in provs
  }

  /** The rows whose technician and provider are both selected, in their original order. */
  function Filter(rows: seq<Intervention>, techs: set<string>, provs: set<string>): (r: seq<Intervention>)
    ensures forall x :: x in r ==> Selected(x, techs, provs)
    ensures forall x :: multiset(r)[x] == if Selected(x, techs, provs) then multiset(rows)[x] else 0
  {
    if rows == [] then []
    else
      assert rows == [rows[0]] + rows[1..];
      (if Selected(rows[0], techs, provs) then [rows[0]] else []) + Filter(rows[1..], techs, provs)
  }

  /** Filtering splits over concatenation, so it keeps the rows' relative order. */
  lemma {:induction false} FilterAppend(a: seq<Intervention>, b: seq<Intervention>, techs: set<string>, provs: set<string>)
    ensures Filter(a + b, techs, provs) == Filter(a, techs, provs) + Filter(b, techs, provs)
  {
    if a == [] {
      assert a + b == b;
    } else {
      assert (a + b)[0] == a[0] && (a + b)[1..] == a[1..] + b;
      FilterAppend(a[1..], b, techs, provs);
    }
  }

  // ----- KPIs: GSET.sum(), STT.sum(), Ref PXO.count() -----

  /** The two amount columns the page sums. */
  datatype Amount = Gset | Stt

  /** The cell's amount; `sum()` skips a missing cell, which is the same as adding 0. */
  function AmountOf(r: Intervention, a: Amount): real {
    var v := if a == Gset then r.gset else r.stt;
    if v.Some? then v.value else 0.0
  }

  /**
   * `sum()` over one amount column: an empty table sums to 0, one row to its
   * amount, and a column with every cell missing also to 0 (pandas' default
   * `min_count=0`).
   */
  function Sum(rows: seq<Intervention>, a: Amount): (r: real)
    ensures rows == [] ==> r == 0.0
    ensures |rows| == 1 ==> r == AmountOf(rows[0], a)
    ensures (forall i :: 0 <= i < |rows| ==> AmountOf(rows[i], a) == 0.0) ==> r == 0.0
  {
    if rows == [] then 0.0
    else
      assert forall i :: 1 <= i < |rows| ==> rows[1..][i - 1] == rows[i];
      AmountOf(rows[0], a) + Sum(rows[1..], a)
  }

  /** `count()`: the number of rows whose Ref PXO is present. */
  function RefCount(rows: seq<Intervention>): (n: nat)
    ensures n <= |rows|
    ensures n == |rows| <==> forall i :: 0 <= i < |rows| ==> rows[i].refPxo.Some?
    ensures n == 0 <==> forall i :: 0 <= i < |rows| ==> rows[i].refPxo.None?
  {
    if rows == [] then 0
    else
      var rest := RefCount(rows[1..]);
      assert forall i :: 1 <= i < |rows| ==> rows[i] == rows[1..][i - 1];
      (if rows[0].refPxo.Some? then 1 else 0) + rest
  }

  lemma {:induction false} SumAppend(a: seq<Intervention>, b: seq<Intervention>, amount: Amount)
    ensures Sum(a + b, amount) == Sum(a, amount) + Sum(b, amount)
  {
    if a == [] {
      assert a + b == b;
    } else {
      assert (a + b)[0] == a[0] && (a + b)[1..] == a[1..] + b;
      SumAppend(a[1..], b, amount);
    }
  }

  lemma {:induction false} RefCountAppend(a: seq<Intervention>, b: seq<Intervention>)
    ensures RefCount(a + b) == RefCount(a) + RefCount(b)
  {
    if a == [] {
      assert a + b == b;
    } else {
      assert (a + b)[0] == a[0] && (a + b)[1..] == a[1..] + b;
      RefCountAppend(a[1..], b);
    }
  }

  /** The three KPI tiles, before formatting. */
  datatype Kpis = Kpis(gset: real, stt: real, refCount: nat)

  function ComputeKpis(rows: seq<Intervention>): (k: Kpis)
    ensures k.refCount <= |rows|
  {
    Kpis(Sum(rows, Gset), Sum(rows, Stt), RefCount(rows))
  }

  /** The KPIs of a concatenation are the sums of the KPIs of its parts. */
  lemma KpisAppend(a: seq<Intervention>, b: seq<Intervention>)
    ensures ComputeKpis(a + b).gset == ComputeKpis(a).gset + ComputeKpis(b).gset
    ensures ComputeKpis(a + b).stt == ComputeKpis(a).stt + ComputeKpis(b).stt
    ensures ComputeKpis(a + b).refCount == ComputeKpis(a).refCount + ComputeKpis(b).refCount
  {
    SumAppend(a, b, Gset);
    SumAppend(a, b, Stt);
    RefCountAppend(a, b);
  }

  // ----- Group-by: groupby("TECHNICIEN").agg(STT=sum, RefCount=count) -----

  /** One row of the grouped table. */
  datatype TechnicianTotals = TechnicianTotals(technician: string, stt: real, refCount: nat)

  /** The row's technician is present and one of `keys`; rows without one fall out of every group. */
  predicate HasTechnicianIn(r: Intervention, keys: set<string>) {
    r.technician.Some? && r.technician.value in keys
  }

  /** The STT total over the rows whose technician is in `keys`. */
  function SttOf(rows: seq<Intervention>, keys: set<string>): real {
    if rows == [] then 0.0
    else (if HasTechnicianIn(rows[0], keys) then AmountOf(rows[0], Stt) else 0.0) + SttOf(rows[1..], keys)
  }

  /** The number of present Ref PXO cells over the rows whose technician is in `keys`. */
  function RefCountOf(rows: seq<Intervention>, keys: set<string>): nat {
    if rows == [] then 0
    else (if HasTechnicianIn(rows[0], keys) && rows[0].refPxo.Some? then 1 else 0) + RefCountOf(rows[1..], keys)
  }

  /** One group per key, in the order of `keys`. */
  function GroupsFor(rows: seq<Intervention>, keys: seq<string>): (r: seq<TechnicianTotals>)
    ensures |r| == |keys|
    ensures forall i :: 0 <= i < |r| ==> r[i].technician == keys[i]
    ensures forall i :: 0 <= i < |r| ==> r[i].stt == SttOf(rows, {keys[i]}) && r[i].refCount == RefCountOf(rows, {keys[i]})
  {
    if keys == [] then []
    else [TechnicianTotals(keys[0], SttOf(rows, {keys[0]}), RefCountOf(rows, {keys[0]}))] + GroupsFor(rows, keys[1..])
  }

  /** The grouped table: one row per present technician, in ascending order of technician. */
  function GroupByTechnician(rows: seq<Intervention>): (r: seq<TechnicianTotals>)
    ensures forall i, j :: 0 <= i < j < |r| ==> Less(r[i].technician, r[j].technician)
    ensures forall x :: (exists i :: 0 <= i < |r| && r[i].technician == x) <==>
                        (exists i :: 0 <= i < |rows| && rows[i].technician == Some(x))
    ensures forall i :: 0 <= i < |r| ==> r[i].stt == SttOf(rows, {r[i].technician})
    ensures forall i :: 0 <= i < |r| ==> r[i].refCount == RefCountOf(rows, {r[i].technician})
  {
    var keys := TechnicianOptions(rows);
    var r := GroupsFor(rows, keys);
    assert forall x :: (exists i :: 0 <= i < |r| && r[i].technician == x) <==> x in keys by {
      forall x ensures (exists i :: 0 <= i < |r| && r[i].technician == x) <==> x in keys {
        if x in keys {
          var i :| 0 <= i < |keys| && keys[i] == x;
          assert r[i].technician == x;
        }
      }
    }
    r
  }

  function SttColumnSum(groups: seq<TechnicianTotals>): real {
    if groups == [] then 0.0 else groups[0].stt + SttColumnSum(groups[1..])
  }

  function RefCountColumnSum(groups: seq<TechnicianTotals>): nat {
    if groups == [] then 0 else groups[0].refCount + RefCountColumnSum(groups[1..])
  }

  /** Totals over two disjoint sets of technicians add up. */
  lemma {:induction false} TotalsOfUnion(rows: seq<Intervention>, a: set<string>, b: set<string>)
    requires a !! b
    ensures SttOf(rows, a + b) == SttOf(rows, a) + SttOf(rows, b)
    ensures RefCountOf(rows, a + b) == RefCountOf(rows, a) + RefCountOf(rows, b)
  {
    if rows != [] {
      TotalsOfUnion(rows[1..], a, b);
    }
  }

  /** Summing the groups of distinct keys gives the totals over all those keys. */
  lemma {:induction false} GroupsSum(rows: seq<Intervention>, keys: seq<string>)
    requires forall i, j :: 0 <= i < j < |keys| ==> keys[i] != keys[j]
    ensures SttColumnSum(GroupsFor(rows, keys)) == SttOf(rows, set k | k in keys)
    ensures RefCountColumnSum(GroupsFor(rows, keys)) == RefCountOf(rows, set k | k in keys)
  {
    var all := set k | k in keys;
    if keys == [] {
      assert all == {};
      EmptyKeys(rows);
    } else {
      var rest := set k | k in keys[1..];
      assert all == {keys[0]} + rest;
      assert keys[0] !in rest;
      GroupsSum(rows, keys[1..]);
      TotalsOfUnion(rows, {keys[0]}, rest);
    }
  }

  lemma {:induction false} EmptyKeys(rows: seq<Intervention>)
    ensures SttOf(rows, {}) == 0.0 && RefCountOf(rows, {}) == 0
  {
    if rows != [] {
      EmptyKeys(rows[1..]);
    }
  }

  /** When every row's technician is in `keys`, the totals over `keys` are the KPI totals. */
  lemma {:induction false} TotalsOverAllKeys(rows: seq<Intervention>, keys: set<string>)
    requires forall i :: 0 <= i < |rows| ==> HasTechnicianIn(rows[i], keys)
    ensures SttOf(rows, keys) == Sum(rows, Stt)
    ensures RefCountOf(rows, keys) == RefCount(rows)
  {
    if rows != [] {
      assert forall i :: 1 <= i < |rows| ==> rows[i] == rows[1..][i - 1];
      TotalsOverAllKeys(rows[1..], keys);
    }
  }

  /**
   * When every row has a technician, the grouped STT column adds up to the STT
   * KPI and the grouped RefCount column to the Ref PXO KPI.
   */
  lemma GroupsMatchKpis(rows: seq<Intervention>)
    requires forall i :: 0 <= i < |rows| ==> rows[i].technician.Some?
    ensures SttColumnSum(GroupByTechnician(rows)) == ComputeKpis(rows).stt
    ensures RefCountColumnSum(GroupByTechnician(rows)) == ComputeKpis(rows).refCount
  {
    var keys := TechnicianOptions(rows);
    forall i, j | 0 <= i < j < |keys| ensures keys[i] != keys[j] {
      AscendingDistinct(keys, i, j);
    }
    GroupsSum(rows, keys);
    var all := set k | k in keys;
    forall i | 0 <= i < |rows| ensures HasTechnicianIn(rows[i], all) {
      assert rows[i].technician.value in keys;
    }
    TotalsOverAllKeys(rows, all);
  }

  /** On the filtered rows, which all have a technician, the grouped columns add up to the KPIs. */
  lemma FilteredGroupsMatchKpis(rows: seq<Intervention>, techs: set<string>, provs: set<string>)
    ensures var f := Filter(rows, techs, provs);
      && SttColumnSum(GroupByTechnician(f)) == ComputeKpis(f).stt
      && RefCountColumnSum(GroupByTechnician(f)) == ComputeKpis(f).refCount
  {
    var f := Filter(rows, techs, provs);
    assert forall i :: 0 <= i < |f| ==> f[i] in f;
    GroupsMatchKpis(f);
  }

  // ----- Supplemental-work codes -----

  /** `fillna("")`. */
  function Fill(v: Option<string>): string {
    if v.Some? then v.value else ""
  }

  /** Both code columns after `fillna("")`: every cell is a string, a missing one is `""`. */
  function FillMissing(rows: seq<Intervention>): (r: seq<Intervention>)
    ensures |r| == |rows|
    ensures forall i :: 0 <= i < |r| ==>
      && r[i].billing == Some(Fill(rows[i].billing))
      && r[i].extraWork == Some(Fill(rows[i].extraWork))
      && r[i] == rows[i].(billing := r[i].billing, extraWork := r[i].extraWork)
  {
    seq(|rows|, i requires 0 <= i < |rows| =>
      rows[i].(billing := Some(Fill(rows[i].billing)), extraWork := Some(Fill(rows[i].extraWork))))
  }

  predicate Filled(rows: seq<Intervention>) {
    forall i :: 0 <= i < |rows| ==> rows[i].billing.Some? && rows[i].extraWork.Some?
  }

  /** One row of the code table: the row's FACTURATION and one of its supplemental-work codes. */
  datatype CodeLine = CodeLine(billing: string, code: string)

  /** The code-table rows of one intervention: one per comma-separated piece of its supplemental work. */
  function LinesOf(r: Intervention): (ls: seq<CodeLine>)
    requires r.billing.Some? && r.extraWork.Some?
    ensures |ls| == multiset(r.extraWork.value)[','] + 1
    ensures forall k :: 0 <= k < |ls| ==> ls[k] == CodeLine(r.billing.value, Strip(SplitComma(r.extraWork.value)[k]))
  {
    var codes := SplitCodes(r.extraWork.value);
    seq(|codes|, k requires 0 <= k < |codes| => CodeLine(r.billing.value, codes[k]))
  }

  /** The code table: the lines of every row, row after row. */
  function CodeLines(rows: seq<Intervention>): (r: seq<CodeLine>)
    requires Filled(rows)
    ensures |r| >= |rows|
    ensures forall l :: l in r ==>
      exists i :: 0 <= i < |rows| && l.billing == rows[i].billing.value && l.code in SplitCodes(rows[i].extraWork.value)
  {
    if rows == [] then []
    else
      var head, rest := LinesOf(rows[0]), CodeLines(rows[1..]);
      assert forall i :: 1 <= i < |rows| ==> rows[1..][i - 1] == rows[i];
      forall l | l in head
        ensures l.billing == rows[0].billing.value && l.code in SplitCodes(rows[0].extraWork.value)
      {
        var k :| 0 <= k < |head| && head[k] == l;
        assert SplitCodes(rows[0].extraWork.value)[k] == l.code;
      }
      head + rest
  }

  /** The code column of the code table, the only column that is counted. */
  function CodeColumn(lines: seq<CodeLine>): seq<string> {
    seq(|lines|, i requires 0 <= i < |lines| => lines[i].code)
  }

  /** The number of comma-separated pieces over all rows: commas plus one per row. */
  function PieceCount(rows: seq<Intervention>): nat {
    if rows == [] then 0 else multiset(Fill(rows[0].extraWork))[','] + 1 + PieceCount(rows[1..])
  }

  lemma {:induction false} CodeLinesCount(rows: seq<Intervention>)
    ensures |CodeLines(FillMissing(rows))| == PieceCount(rows)
  {
    if rows != [] {
      var f := FillMissing(rows);
      assert f[1..] == FillMissing(rows[1..]);
      CodeLinesCount(rows[1..]);
    }
  }

  /** The supplemental-work codes of all rows, in row order. */
  function SupplementalCodes(rows: seq<Intervention>): (r: seq<string>)
    ensures |r| == PieceCount(rows)
  {
    CodeLinesCount(rows);
    CodeColumn(CodeLines(FillMissing(rows)))
  }

  /**
   * The frequency table: one column per distinct code in ascending order, each
   * counting that code's occurrences; the counts add up to the number of pieces.
   */
  function CodeFrequency(rows: seq<Intervention>): (r: seq<Entry>)
    ensures WellFormed(r)
    ensures forall k :: CountOf(r, k) == multiset(SupplementalCodes(rows))[k]
    ensures Total(r) == PieceCount(rows)
  {
    Frequency(SupplementalCodes(rows))
  }

  /** The error `.str.strip()` raises when the stacked pieces are not strings. */
  datatype CodeTableError = NotStrings

  /**
   * The code table as the page builds it. On an empty filtered table,
   * `str.split(",", expand=True)` gives a frame with no columns, `stack()`
   * turns it into an empty float Series, and the `.str` accessor refuses that
   * Series with an AttributeError. Any other table gives the frequency table.
   */
  function CodeFrequencyAsWritten(rows: seq<Intervention>): (r: Result<seq<Entry>, CodeTableError>)
    ensures r.Err? <==> rows == []
    ensures r.Ok? ==> WellFormed(r.value) && Total(r.value) == PieceCount(rows)
    ensures r.Ok? ==> r.value == CodeFrequency(rows)
  {
    if rows == [] then Err(NotStrings) else Ok(CodeFrequency(rows))
  }

  /**
   * Clearing the technician selection keeps no row: the page then fails
   * where the intended code table is simply empty.
   */
  lemma EmptySelectionRaises(rows: seq<Intervention>, provs: set<string>)
    ensures Filter(rows, {}, provs) == []
    ensures CodeFrequencyAsWritten(Filter(rows, {}, provs)).Err?
    ensures CodeFrequency(Filter(rows, {}, provs)) == []
  {
  }

  lemma CodeColumnAppend(a: seq<CodeLine>, b: seq<CodeLine>)
    ensures CodeColumn(a + b) == CodeColumn(a) + CodeColumn(b)
  {
  }

  /** The codes of one row are the stripped pieces of its supplemental-work value. */
  lemma CodeColumnOfRow(r: Intervention)
    requires r.billing.Some? && r.extraWork.Some?
    ensures CodeColumn(LinesOf(r)) == SplitCodes(r.extraWork.value)
  {
  }

  /** The code column depends on the supplemental-work column alone. */
  lemma {:induction false} CodeColumnIgnoresBilling(a: seq<Intervention>, b: seq<Intervention>)
    requires Filled(a) && Filled(b) && |a| == |b|
    requires forall i :: 0 <= i < |a| ==> a[i].extraWork == b[i].extraWork
    ensures CodeColumn(CodeLines(a)) == CodeColumn(CodeLines(b))
  {
    if a != [] {
      CodeColumnIgnoresBilling(a[1..], b[1..]);
      CodeColumnAppend(LinesOf(a[0]), CodeLines(a[1..]));
      CodeColumnAppend(LinesOf(b[0]), CodeLines(b[1..]));
      CodeColumnOfRow(a[0]);
      CodeColumnOfRow(b[0]);
    }
  }

  /** FACTURATION is carried along but never counted: changing it leaves the frequency table unchanged. */
  lemma CodeFrequencyIgnoresBilling(a: seq<Intervention>, b: seq<Intervention>)
    requires |a| == |b|
    requires forall i :: 0 <= i < |a| ==> a[i].extraWork == b[i].extraWork
    ensures CodeFrequency(a) == CodeFrequency(b)
  {
    CodeColumnIgnoresBilling(FillMissing(a), FillMissing(b));
  }

  /** Filling missing values works row by row, so it distributes over concatenation. */
  lemma FillMissingAppend(a: seq<Intervention>, b: seq<Intervention>)
    ensures FillMissing(a + b) == FillMissing(a) + FillMissing(b)
  {
  }

  lemma FilledAppend(x: seq<Intervention>, y: seq<Intervention>)
    requires Filled(x) && Filled(y)
    ensures Filled(x + y)
  {
  }

  /** The code lines of two cleaned row sets, one after the other, are their code lines concatenated. */
  lemma {:induction false} CodeLinesAppend(x: seq<Intervention>, y: seq<Intervention>)
    requires Filled(x) && Filled(y)
    ensures Filled(x + y)
    ensures CodeLines(x + y) == CodeLines(x) + CodeLines(y)
  {
    FilledAppend(x, y);
    if x == [] {
      assert x + y == y;
    } else {
      var z := x + y;
      assert z[0] == x[0] && z[1..] == x[1..] + y;
      CodeLinesAppend(x[1..], y);
      var head := LinesOf(x[0]);
      assert CodeLines(z) == head + (CodeLines(x[1..]) + CodeLines(y));
      assert CodeLines(x) == head + CodeLines(x[1..]);
      AppendAssoc(head, CodeLines(x[1..]), CodeLines(y));
    }
  }

  /** The code column over a concatenation of rows is the concatenation of their code columns. */
  lemma SupplementalCodesAppend(a: seq<Intervention>, b: seq<Intervention>)
    ensures SupplementalCodes(a + b) == SupplementalCodes(a) + SupplementalCodes(b)
  {
    var fa, fb := FillMissing(a), FillMissing(b);
    FillMissingAppend(a, b);
    CodeLinesAppend(fa, fb);
    CodeColumnAppend(CodeLines(fa), CodeLines(fb));
  }

  /** A single row contributes its stripped comma pieces; a missing value contributes one `""`. */
  lemma SupplementalCodesOfRow(r: Intervention)
    ensures SupplementalCodes([r]) == SplitCodes(Fill(r.extraWork))
  {
    var f := FillMissing([r]);
    assert f[1..] == [] && f[0].extraWork.value == Fill(r.extraWork);
    assert CodeLines(f) == LinesOf(f[0]) + CodeLines(f[1..]);
    assert LinesOf(f[0]) + [] == LinesOf(f[0]);
    CodeColumnOfRow(f[0]);
  }
}
