/** The panel logic of app.py that feeds the engine: cleaning the shock
    records, pivoting them into a (country, year) x category 0/1 panel,
    the per-country lag shift, the lag loop that runs the engine once per
    (category, lag) pair, the same-year table and the significance and
    lift classification. */
module App {
  import opened Wrappers
  import opened Ordering
  import opened Permutations
  import Eca

  /** One row of the shock file after renaming: country, year, category and
      shock type. */
  datatype ShockRecord = ShockRecord(country: string, year: int, category: string, shockType: string)

  const Outbreak: string := "Outbreak"

  /** The categories the filter keeps. */
  const KeptCategories: set<string> :=
    {"Outbreak", "CLIMATIC", "CONFLICTS", "ECOLOGICAL", "ECONOMIC", "GEOPHYSICAL", "TECHNOLOGICAL"}

  // ---------------------------------------------------------------------
  // Record cleaning
  // ---------------------------------------------------------------------

  /** Infectious-disease shocks are counted as outbreaks. */
  function Relabel(r: ShockRecord): ShockRecord
  {
    if r.shockType == "Infectious disease" then r.(category := Outbreak) else r
  }

  /** Relabel every record, then keep those whose category is one of the
      seven analysed categories. */
  function CleanRecords(raw: seq<ShockRecord>): (recs: seq<ShockRecord>)
    ensures |recs| <= |raw|
    ensures forall x :: x in recs ==> x.category in KeptCategories
    ensures forall x :: x in recs ==> exists i :: 0 <= i < |raw| && x == Relabel(raw[i])
    ensures forall i :: 0 <= i < |raw| && Relabel(raw[i]).category in KeptCategories ==> Relabel(raw[i]) in recs
    ensures forall i :: 0 <= i < |raw| && raw[i].shockType == "Infectious disease" ==>
      raw[i].(category := Outbreak) in recs
  {
    if raw == [] then []
    else
      var rest := CleanRecords(raw[1..]);
      assert forall x :: x in rest ==> exists i :: 0 <= i < |raw| && x == Relabel(raw[i]) by {
        forall x | x in rest
          ensures exists i :: 0 <= i < |raw| && x == Relabel(raw[i])
        {
          var j :| 0 <= j < |raw[1..]| && x == Relabel(raw[1..][j]);
          assert x == Relabel(raw[j + 1]);
        }
      }
      assert forall i :: 1 <= i < |raw| ==> raw[i] == raw[1..][i - 1];
      (if Relabel(raw[0]).category in KeptCategories then [Relabel(raw[0])] else []) + rest
  }

  // ---------------------------------------------------------------------
  // Panel construction
  // ---------------------------------------------------------------------

  function RecordKeys(recs: seq<ShockRecord>): (keys: seq<Key>)
    ensures |keys| == |recs|
  {
    seq(|recs|, i requires 0 <= i < |recs| => (recs[i].country, recs[i].year))
  }

  function RecordCategories(recs: seq<ShockRecord>): (cats: seq<string>)
    ensures |cats| == |recs|
  {
    seq(|recs|, i requires 0 <= i < |recs| => recs[i].category)
  }

  /** The record has this (country, year) key and this category. */
  predicate Matches(r: ShockRecord, key: Key, category: string)
  {
    r.country == key.0 && r.year == key.1 && r.category == category
  }

  /** Some record has this (country, year) key and this category. */
  ghost predicate HasRecord(recs: seq<ShockRecord>, key: Key, category: string)
  {
    exists i :: 0 <= i < |recs| && Matches(recs[i], key, category)
  }

  /** A pivot cell: the maximum of the value 1 over the records with this
      key and category, or the fill value 0 when there are none. */
  function CellValue(recs: seq<ShockRecord>, key: Key, category: string): (v: int)
    ensures v == 0 || v == 1
    ensures v == 1 <==> HasRecord(recs, key, category)
  {
    if recs == [] then 0
    else
      var rest := CellValue(recs[1..], key, category);
      assert forall i :: 1 <= i < |recs| ==> recs[i] == recs[1..][i - 1];
      var here := if Matches(recs[0], key, category) then 1 else 0;
      if here > rest then here else rest
  }

  /** The wide panel: one row per (country, year) key in ascending order, one
      column per category in ascending order, and the 0/1 cells. */
  datatype Panel = Panel(index: seq<Key>, columns: seq<string>, cells: map<string, seq<int>>)
  {
    ghost predicate Valid()
    {
      && StrictlySorted(index, KeyLess)
      && StrictlySorted(columns, StrLess)
      && (forall c :: c in cells <==> c in columns)
      && Shaped()
    }

    /** Every column has one 0/1 cell per row. */
    ghost predicate Shaped()
    {
      forall c :: c in cells ==> |cells[c]| == |index| && Eca.IsBinary(cells[c])
    }
  }

  /** `pivot_table(index=["Country", "Year"], columns="category",
      values=1, aggfunc="max", fill_value=0)`: the index holds every key of a
      record once, sorted; the columns every category of a record once,
      sorted; a cell is 1 exactly when some record has its key and
      category. */
  function BuildPanel(recs: seq<ShockRecord>): (p: Panel)
    ensures p.Valid()
    ensures forall k :: k in p.index <==> k in RecordKeys(recs)
    ensures forall c :: c in p.columns <==> c in RecordCategories(recs)
    ensures forall c, i :: c in p.cells && 0 <= i < |p.index| ==>
      (p.cells[c][i] == 1 <==> HasRecord(recs, p.index[i], c))
  {
    KeyLessIsStrictTotalOrder();
    StrLessIsStrictTotalOrder();
    SortedDistinctCorrect(RecordKeys(recs), KeyLess);
    SortedDistinctCorrect(RecordCategories(recs), StrLess);
    var index := SortedDistinct(RecordKeys(recs), KeyLess);
    var columns := SortedDistinct(RecordCategories(recs), StrLess);
    Panel(index, columns,
      map c | c in columns :: seq(|index|, i requires 0 <= i < |index| => CellValue(recs, index[i], c)))
  }

  /** The panel of cleaned records has only analysed categories as columns. */
  lemma CleanPanelColumns(raw: seq<ShockRecord>)
    ensures forall c :: c in BuildPanel(CleanRecords(raw)).cells ==> c in KeptCategories
  {
    var recs := CleanRecords(raw);
    forall c | c in BuildPanel(recs).cells
      ensures c in KeptCategories
    {
      var i :| 0 <= i < |recs| && RecordCategories(recs)[i] == c;
      assert recs[i] in recs;
    }
  }

  /** The country of every panel row, the key `groupby("Country")` uses. */
  function Entities(p: Panel): (es: seq<string>)
    ensures |es| == |p.index|
  {
    seq(|p.index|, i requires 0 <= i < |p.index| => p.index[i].0)
  }

  /** The shock columns: every panel column except the outbreak column, in
      panel order. */
  function ShockColumns(columns: seq<string>): (cols: seq<string>)
    ensures forall c :: c in cols <==> c in columns && c != Outbreak
    ensures StrictlySorted(columns, StrLess) ==> StrictlySorted(cols, StrLess)
  {
    if columns == [] then []
    else
      var rest := ShockColumns(columns[1..]);
      var cols := (if columns[0] != Outbreak then [columns[0]] else []) + rest;
      assert StrictlySorted(columns, StrLess) ==> StrictlySorted(cols, StrLess) by {
        if StrictlySorted(columns, StrLess) {
          assert StrictlySorted(columns[1..], StrLess);
          forall j | 0 < j < |cols| && columns[0] != Outbreak
            ensures StrLess(cols[0], cols[j])
          {
            assert cols[j] in rest;
          }
        }
      }
      cols
  }

  /** `df_wide[analysis_columns]`: the outbreak column followed by the shock
      columns; pandas raises KeyError when no record is an outbreak. */
  function AnalysisColumns(p: Panel): (r: Result<seq<string>, Eca.Error>)
    ensures r.Failure? <==> Outbreak !in p.columns
    ensures r.Failure? ==> r.error == Eca.MissingColumn(Outbreak)
    ensures r.Success? ==> |r.value| > 0 && r.value[0] == Outbreak && (forall c :: c in r.value <==> c in p.columns)
    ensures r.Success? ==> r.value[1..] == ShockColumns(p.columns) && Outbreak !in r.value[1..]
  {
    if Outbreak in p.columns then Success([Outbreak] + ShockColumns(p.columns))
    else Failure(Eca.MissingColumn(Outbreak))
  }

  // ---------------------------------------------------------------------
  // Per-country lag shift
  // ---------------------------------------------------------------------

  /** The number of rows of entity `e` in `es`. */
  function Occurrences(es: seq<string>, e: string): nat
  {
    if es == [] then 0 else Occurrences(es[..|es| - 1], e) + if es[|es| - 1] == e then 1 else 0
  }

  /** The values of the rows of entity `e`, in row order. */
  function GroupValues(es: seq<string>, vs: seq<int>, e: string): (h: seq<int>)
    requires |es| == |vs|
    ensures |h| == Occurrences(es, e)
  {
    if es == [] then []
    else
      var n := |es| - 1;
      GroupValues(es[..n], vs[..n], e) + if es[n] == e then [vs[n]] else []
  }

  /** `groupby(entity)[column].shift(k).fillna(0)`, computed row by row: a
      row looks at its group's values so far (itself included) and takes
      the one `k` places back, or 0 when there is none. */
  function LagShift(es: seq<string>, vs: seq<int>, k: nat): (r: seq<int>)
    requires |es| == |vs|
    ensures |r| == |vs|
  {
    if es == [] then []
    else
      var n := |es| - 1;
      var h := GroupValues(es, vs, es[n]);
      LagShift(es[..n], vs[..n], k) + [if |h| > k then h[|h| - 1 - k] else 0]
  }

  /** The `m`-th value of a group comes from the row of that group with `m`
      earlier rows of the same group. */
  lemma {:induction false} GroupValuesAt(es: seq<string>, vs: seq<int>, e: string, m: nat)
    requires |es| == |vs| && m < Occurrences(es, e)
    ensures exists j :: 0 <= j < |es| && es[j] == e && Occurrences(es[..j], e) == m
                        && GroupValues(es, vs, e)[m] == vs[j]
  {
    var n := |es| - 1;
    var h := GroupValues(es[..n], vs[..n], e);
    if m < |h| {
      GroupValuesAt(es[..n], vs[..n], e, m);
      var j :| 0 <= j < n && es[..n][j] == e && Occurrences(es[..n][..j], e) == m && h[m] == vs[..n][j];
      assert es[..n][..j] == es[..j];
    } else {
      assert es[..n] == es[..|es| - 1];
    }
  }

  /** The lag shift by row position within each entity's group: a row with
      fewer than `k` earlier rows in its group gets 0; any other row gets
      the value of the row of its group exactly `k` group rows earlier. */
  lemma {:induction false} LagShiftWithinGroup(es: seq<string>, vs: seq<int>, k: nat, i: nat)
    requires |es| == |vs| && i < |es|
    ensures Occurrences(es[..i], es[i]) < k ==> LagShift(es, vs, k)[i] == 0
    ensures Occurrences(es[..i], es[i]) >= k ==>
      exists j :: 0 <= j <= i && es[j] == es[i] && Occurrences(es[..j], es[i]) + k == Occurrences(es[..i], es[i])
                  && LagShift(es, vs, k)[i] == vs[j]
  {
    var n := |es| - 1;
    if i < n {
      LagShiftWithinGroup(es[..n], vs[..n], k, i);
      assert es[..n][..i] == es[..i];
      assert LagShift(es, vs, k)[i] == LagShift(es[..n], vs[..n], k)[i];
      if Occurrences(es[..i], es[i]) >= k {
        var j :| 0 <= j <= i && es[..n][j] == es[..n][i] && Occurrences(es[..n][..j], es[i]) + k == Occurrences(es[..n][..i], es[i])
                 && LagShift(es[..n], vs[..n], k)[i] == vs[..n][j];
        assert es[..n][..j] == es[..j];
      }
    } else {
      var e := es[n];
      assert es[..n] == es[..|es| - 1];
      var h := GroupValues(es, vs, e);
      assert |h| == Occurrences(es[..i], e) + 1;
      if |h| > k {
        GroupValuesAt(es, vs, e, |h| - 1 - k);
      }
    }
  }

  lemma {:induction false} OccurrencesOfPrefix(es: seq<string>, e: string, i: nat)
    requires i < |es|
    ensures Occurrences(es[..i], e) + (if es[i] == e then 1 else 0) <= Occurrences(es, e)
  {
    var n := |es| - 1;
    if i < n {
      OccurrencesOfPrefix(es[..n], e, i);
      assert es[..n][..i] == es[..i];
    } else {
      assert es[..n] == es[..|es| - 1];
    }
  }

  /** An entity with at most `k` rows has only zeros in the lagged column. */
  lemma ShortGroupIsZero(es: seq<string>, vs: seq<int>, k: nat, i: nat)
    requires |es| == |vs| && i < |es| && Occurrences(es, es[i]) <= k
    ensures LagShift(es, vs, k)[i] == 0
  {
    OccurrencesOfPrefix(es, es[i], i);
    LagShiftWithinGroup(es, vs, k, i);
  }

  /** Shifting a 0/1 column gives a 0/1 column. */
  lemma LagShiftIsBinary(es: seq<string>, vs: seq<int>, k: nat)
    requires |es| == |vs| && Eca.IsBinary(vs)
    ensures Eca.IsBinary(LagShift(es, vs, k))
  {
    forall i | 0 <= i < |es|
      ensures LagShift(es, vs, k)[i] == 0 || LagShift(es, vs, k)[i] == 1
    {
      LagShiftWithinGroup(es, vs, k, i);
    }
  }

  /** The shift counts a country's rows, not calendar years: the panel has a
      row only for a year with some kept shock, so for a country with rows
      for 2000 and 2005 alone, "lag 1" pairs 2005 with the 2000 shock. */
  lemma LagCountsRowsNotYears()
    ensures var p := Panel([("A", 2000), ("A", 2005)], ["CLIMATIC"], map["CLIMATIC" := [1, 0]]);
      && p.Shaped() && "CLIMATIC" in p.cells
      && p.index[1].1 - p.index[0].1 == 5
      && LagColumn(p, "CLIMATIC", 1) == [0, 1]
  {
  }

  // ---------------------------------------------------------------------
  // Lag loop
  // ---------------------------------------------------------------------

  /** `[(variable, lag) for variable in shock_columns for lag in range(1, 6)]` */
  function LagSpecs(vars: seq<string>): (specs: seq<(string, nat)>)
    ensures |specs| == 5 * |vars|
    ensures forall t :: 0 <= t < |specs| ==> specs[t] == (vars[t / 5], t % 5 + 1)
  {
    if vars == [] then []
    else
      var rest := LagSpecs(vars[1..]);
      var v := vars[0];
      var specs := [(v, 1), (v, 2), (v, 3), (v, 4), (v, 5)] + rest;
      assert forall t :: 5 <= t < |specs| ==> specs[t] == (vars[t / 5], t % 5 + 1) by {
        forall t | 5 <= t < |specs|
          ensures specs[t] == (vars[t / 5], t % 5 + 1)
        {
          DivModByFive(t);
          assert specs[t] == rest[t - 5];
        }
      }
      specs
  }

  lemma DivModByFive(t: nat)
    requires t >= 5
    ensures t / 5 == (t - 5) / 5 + 1 && t % 5 == (t - 5) % 5
  {
  }

  function Digit(d: nat): char
    requires d < 10
  {
    ('0' as int + d) as char
  }

  /** `str(n)` */
  function DecimalString(n: nat): string
  {
    if n < 10 then [Digit(n)] else DecimalString(n / 10) + [Digit(n % 10)]
  }

  /** The lagged column's name `f"{variable}_lag{lag}"`. */
  function LagColumnName(variable: string, lag: nat): (name: string)
    ensures |name| > |variable| + 4 && name[..|variable|] == variable && name[|variable|] == '_'
    ensures lag < 10 ==> |name| == |variable| + 5 && name[|name| - 1] == Digit(lag)
  {
    variable + "_lag" + DecimalString(lag)
  }

  /** Single-digit lags give distinct names to distinct (variable, lag) pairs. */
  lemma LagColumnNamesDistinct(v1: string, l1: nat, v2: string, l2: nat)
    requires l1 < 10 && l2 < 10 && (v1, l1) != (v2, l2)
    ensures LagColumnName(v1, l1) != LagColumnName(v2, l2)
  {
    var n1, n2 := LagColumnName(v1, l1), LagColumnName(v2, l2);
    assert DecimalString(l1) == [Digit(l1)] && DecimalString(l2) == [Digit(l2)];
    if |v1| != |v2| {
      assert |n1| != |n2|;
    } else if v1 != v2 {
      var k :| 0 <= k < |v1| && v1[k] != v2[k];
      assert n1[k] == v1[k] && n2[k] == v2[k];
    } else {
      assert n1[|n1| - 1] == Digit(l1) && n2[|n2| - 1] == Digit(l2);
    }
  }

  /** A lagged column's name is never the name of an analysed category, so
      adding it to the frame never overwrites a panel column. */
  lemma LagColumnNameIsFresh(variable: string, lag: nat)
    ensures LagColumnName(variable, lag) !in KeptCategories
  {
    var name := LagColumnName(variable, lag);
    assert name[|variable|] == '_';
    forall c | c in KeptCategories
      ensures '_' !in c
    {
    }
  }

  /** One row of the lag table. */
  datatype LagRecord = LagRecord(
    variable: string,
    lag: nat,
    coincidences: int,
    expectedCoincidences: real,
    pValue: real,
    lift: real)

  /** The column `variable` shifted by `lag` rows within each country. */
  function LagColumn(p: Panel, variable: string, lag: nat): (col: seq<int>)
    requires p.Shaped() && variable in p.cells
    ensures |col| == |p.index|
  {
    LagShift(Entities(p), p.cells[variable], lag)
  }

  /** The row `lag_records` gets from the engine's result for the outbreak
      series against a lagged series: the count, the expected count, the
      p-value and the lift, observed minus expected. */
  function RecordOf(variable: string, lag: nat, outbreak: seq<int>, lagged: seq<int>, draws: seq<seq<nat>>): (r: LagRecord)
    requires |outbreak| == |lagged| && IsDrawStream(draws, |draws|, |lagged|)
    requires |draws| > 0
    ensures r.variable == variable && r.lag == lag
    ensures r.lift == r.coincidences as real - r.expectedCoincidences
  {
    var sims := Eca.NullDistribution(outbreak, lagged, draws);
    var observed := Eca.Dot(outbreak, lagged);
    var expected := Eca.Mean(sims);
    LagRecord(variable, lag, observed, expected, Eca.PValue(sims, observed), observed as real - expected)
  }

  /** The lag row of (variable, lag): the outbreak column against the
      panel column `variable` shifted by `lag` rows within each country. */
  function LagRecordFor(p: Panel, variable: string, lag: nat, draws: seq<seq<nat>>): LagRecord
    requires p.Shaped() && Outbreak in p.cells && variable in p.cells
    requires |draws| > 0 && IsDrawStream(draws, |draws|, |p.index|)
  {
    RecordOf(variable, lag, p.cells[Outbreak], LagColumn(p, variable, lag), draws)
  }

  /** Every lag record counts the outbreak years that follow a shock `lag`
      rows earlier in the same country, has a p-value in [1/(N+1), 1], an
      expected count between 0 and the smaller total, and a lift no larger
      than its observed count. */
  lemma LagRecordBounds(p: Panel, variable: string, lag: nat, draws: seq<seq<nat>>)
    requires p.Shaped() && Outbreak in p.cells && variable in p.cells
    requires |draws| > 0 && IsDrawStream(draws, |draws|, |p.index|)
    ensures var r := LagRecordFor(p, variable, lag, draws);
      var outbreak, lagged := p.cells[Outbreak], LagColumn(p, variable, lag);
      && r.coincidences == |Eca.BothOccur(outbreak, lagged)|
      && 0 <= r.coincidences <= Eca.Min(Eca.Sum(outbreak), Eca.Sum(lagged))
      && 1.0 / (|draws| + 1) as real <= r.pValue <= 1.0
      && 0.0 <= r.expectedCoincidences <= Eca.Min(Eca.Sum(outbreak), Eca.Sum(lagged)) as real
      && r.lift <= r.coincidences as real
  {
    var outbreak, lagged := p.cells[Outbreak], LagColumn(p, variable, lag);
    LagShiftIsBinary(Entities(p), p.cells[variable], lag);
    Eca.DotCountsCoincidences(outbreak, lagged);
    Eca.DotBounds(outbreak, lagged);
    Eca.NullDistributionBounds(outbreak, lagged, draws);
    var sims := Eca.NullDistribution(outbreak, lagged, draws);
    Eca.MeanBetween(sims, 0, Eca.Min(Eca.Sum(outbreak), Eca.Sum(lagged)));
  }

  /** One analysis of the lag loop: `run_event_coincidence_analysis` on
      `lag_df[["Outbreak", col_name]]`, the two columns read from the
      updated frame, and the record made from its result. */
  method AnalyseLagged(lagDf: map<string, seq<int>>, variable: string, lag: nat, colName: string,
                       simulations: nat, draws: seq<seq<nat>>)
    returns (record: LagRecord)
    requires Outbreak in lagDf && colName in lagDf && colName != Outbreak
    requires |lagDf[Outbreak]| == |lagDf[colName]|
    requires simulations > 0 && IsDrawStream(draws, simulations, |lagDf[colName]|)
    ensures record == RecordOf(variable, lag, lagDf[Outbreak], lagDf[colName], draws)
  {
    var outbreakCells, laggedCells := lagDf[Outbreak], lagDf[colName];
    var frame := Eca.Frame(|outbreakCells|, map[Outbreak := Eca.FromInts(outbreakCells), colName := Eca.FromInts(laggedCells)]);
    var result := Eca.RunEventCoincidenceAnalysis(frame, Outbreak, colName, simulations, draws);
    Eca.IntegersPassThrough(outbreakCells);
    Eca.IntegersPassThrough(laggedCells);
    var analysis := result.value;
    var observed := analysis.summary.coincidences;
    var expected := analysis.expectedRandomCoincidences;
    record := LagRecord(variable, lag, observed, expected, analysis.pValue, observed as real - expected);
  }


  /** Every lag spec of a panel names one of its shock columns and a lag in 1..5. */
  lemma LagSpecsOfPanel(p: Panel)
    requires p.Valid()
    ensures forall t :: 0 <= t < |LagSpecs(ShockColumns(p.columns))| ==>
      var spec := LagSpecs(ShockColumns(p.columns))[t];
      spec.0 in p.cells && spec.0 != Outbreak && 1 <= spec.1 <= 5
  {
  }

  /** The frame of the lag loop after the first `t` specs: the panel's
      columns, with the lagged column of each spec done added under its
      name. */
  function LagFrame(p: Panel, specs: seq<(string, nat)>, t: nat): (df: map<string, seq<int>>)
    requires p.Shaped() && t <= |specs|
    requires forall u :: 0 <= u < |specs| ==> specs[u].0 in p.cells
  {
    if t == 0 then p.cells
    else
      var (variable, lag) := specs[t - 1];
      LagFrame(p, specs, t - 1)[LagColumnName(variable, lag) := LagColumn(p, variable, lag)]
  }

  /** The lagged columns never overwrite a panel column. */
  lemma {:induction false} LagFrameKeepsPanel(p: Panel, specs: seq<(string, nat)>, t: nat)
    requires p.Shaped() && t <= |specs|
    requires forall u :: 0 <= u < |specs| ==> specs[u].0 in p.cells
    requires forall c :: c in p.cells ==> c in KeptCategories
    ensures forall c :: c in p.cells ==> c in LagFrame(p, specs, t) && LagFrame(p, specs, t)[c] == p.cells[c]
  {
    if t > 0 {
      LagFrameKeepsPanel(p, specs, t - 1);
      LagColumnNameIsFresh(specs[t - 1].0, specs[t - 1].1);
    }
  }

  /** After `t` specs the frame holds exactly the panel's columns and the
      names of the specs done. */
  lemma {:induction false} LagFrameKeys(p: Panel, specs: seq<(string, nat)>, t: nat)
    requires p.Shaped() && t <= |specs|
    requires forall u :: 0 <= u < |specs| ==> specs[u].0 in p.cells
    ensures forall c :: c in LagFrame(p, specs, t) <==>
      c in p.cells || exists u :: 0 <= u < t && c == LagColumnName(specs[u].0, specs[u].1)
  {
    if t > 0 {
      LagFrameKeys(p, specs, t - 1);
    }
  }

  /** Each spec done has its lagged column in the frame under its name: a
      later spec with the same name is the same (variable, lag) pair, so it
      writes the same column. */
  lemma {:induction false} LagFrameHoldsLagged(p: Panel, specs: seq<(string, nat)>, t: nat)
    requires p.Shaped() && t <= |specs|
    requires forall u :: 0 <= u < |specs| ==> specs[u].0 in p.cells && specs[u].1 < 10
    ensures forall u :: 0 <= u < t ==>
      var name := LagColumnName(specs[u].0, specs[u].1);
      name in LagFrame(p, specs, t) && LagFrame(p, specs, t)[name] == LagColumn(p, specs[u].0, specs[u].1)
  {
    if t > 0 {
      LagFrameHoldsLagged(p, specs, t - 1);
      forall u | 0 <= u < t - 1 && specs[u] != specs[t - 1]
        ensures LagColumnName(specs[u].0, specs[u].1) != LagColumnName(specs[t - 1].0, specs[t - 1].1)
      {
        LagColumnNamesDistinct(specs[u].0, specs[u].1, specs[t - 1].0, specs[t - 1].1);
      }
    }
  }

  /** One pass of the lag loop: shift the spec's variable within each
      country, add it to the frame under its lagged name, and analyse the
      outbreak column against it. */
  method LagStep(p: Panel, specs: seq<(string, nat)>, t: nat, lagDf: map<string, seq<int>>,
                 simulations: nat, draws: seq<seq<nat>>)
    returns (record: LagRecord, next: map<string, seq<int>>)
    requires p.Shaped() && Outbreak in p.cells && t < |specs|
    requires forall c :: c in p.cells ==> c in KeptCategories
    requires forall u :: 0 <= u < |specs| ==> specs[u].0 in p.cells
    requires simulations > 0 && IsDrawStream(draws, simulations, |p.index|)
    requires lagDf == LagFrame(p, specs, t)
    ensures record == LagRecordFor(p, specs[t].0, specs[t].1, draws)
    ensures next == LagFrame(p, specs, t + 1)
  {
    var (variable, lag) := specs[t];
    LagFrameKeepsPanel(p, specs, t);
    var colName := LagColumnName(variable, lag);
    var lagged := LagShift(Entities(p), lagDf[variable], lag);
    next := lagDf[colName := lagged];
    LagColumnNameIsFresh(variable, lag);
    record := AnalyseLagged(next, variable, lag, colName, simulations, draws);
  }

  /** The lag table's rows for a list of specs, in order. */
  function LagRecords(p: Panel, specs: seq<(string, nat)>, draws: seq<seq<nat>>): (records: seq<LagRecord>)
    requires p.Shaped() && Outbreak in p.cells
    requires forall u :: 0 <= u < |specs| ==> specs[u].0 in p.cells
    requires |draws| > 0 && IsDrawStream(draws, |draws|, |p.index|)
    ensures |records| == |specs|
  {
    seq(|specs|, t requires 0 <= t < |specs| => LagRecordFor(p, specs[t].0, specs[t].1, draws))
  }

  /** Appending the record of spec `t` to the first `t` rows gives the
      first `t + 1` rows. */
  lemma LagRecordsExtend(p: Panel, specs: seq<(string, nat)>, draws: seq<seq<nat>>, t: nat,
                         records: seq<LagRecord>, record: LagRecord)
    requires p.Shaped() && Outbreak in p.cells && t < |specs|
    requires forall u :: 0 <= u < |specs| ==> specs[u].0 in p.cells
    requires |draws| > 0 && IsDrawStream(draws, |draws|, |p.index|)
    requires records == LagRecords(p, specs, draws)[..t]
    requires record == LagRecordFor(p, specs[t].0, specs[t].1, draws)
    ensures records + [record] == LagRecords(p, specs, draws)[..t + 1]
  {
    var all := LagRecords(p, specs, draws);
    assert all[t] == record;
    PrefixExtend(all, t);
  }

  lemma PrefixExtend<T>(s: seq<T>, t: nat)
    requires t < |s|
    ensures s[..t + 1] == s[..t] + [s[t]]
  {
  }

  /** The lag loop over a list of (variable, lag) specs: starting from the
      panel's own columns, each pass adds one lagged column and one row. */
  method LagLoop(p: Panel, specs: seq<(string, nat)>, simulations: nat, draws: seq<seq<nat>>)
    returns (records: seq<LagRecord>, lagDf: map<string, seq<int>>)
    requires p.Shaped() && Outbreak in p.cells
    requires forall c :: c in p.cells ==> c in KeptCategories
    requires forall u :: 0 <= u < |specs| ==> specs[u].0 in p.cells
    requires simulations > 0 && IsDrawStream(draws, simulations, |p.index|)
    ensures records == LagRecords(p, specs, draws)
    ensures lagDf == LagFrame(p, specs, |specs|)
  {
    lagDf := p.cells;
    records := [];
    for t := 0 to |specs|
      invariant records == LagRecords(p, specs, draws)[..t]
      invariant lagDf == LagFrame(p, specs, t)
    {
      var record;
      record, lagDf := LagStep(p, specs, t, lagDf, simulations, draws);
      LagRecordsExtend(p, specs, draws, t, records, record);
      records := records + [record];
    }
  }

  /** The lag section: for every (shock column, lag 1..5) pair, in
      variable-major order, add the lagged column to the frame and record
      the engine's result for the outbreak column against it.  Every call
      gets the same seed, so every pair is tested against the same draws. */
  method LagAnalysis(p: Panel, simulations: nat, draws: seq<seq<nat>>)
    returns (records: seq<LagRecord>, lagDf: map<string, seq<int>>)
    requires p.Valid() && Outbreak in p.cells
    requires forall c :: c in p.cells ==> c in KeptCategories
    requires simulations > 0 && IsDrawStream(draws, simulations, |p.index|)
    ensures var specs := LagSpecs(ShockColumns(p.columns));
      && (forall t :: 0 <= t < |specs| ==> specs[t].0 in p.cells)
      && records == LagRecords(p, specs, draws)
      && lagDf == LagFrame(p, specs, |specs|)
  {
    LagSpecsOfPanel(p);
    records, lagDf := LagLoop(p, LagSpecs(ShockColumns(p.columns)), simulations, draws);
  }

  // ---------------------------------------------------------------------
  // Same-year table and classification
  // ---------------------------------------------------------------------

  /** The fields of one category's pairwise result that the same-year table
      reads. */
  datatype CategoryResult = CategoryResult(
    coincidences: int,
    totals: map<string, int>,
    pValue: real,
    expectedRandomCoincidences: real)

  /** One row of the same-year table. */
  datatype SameYearRow = SameYearRow(
    variable: string,
    coincidences: int,
    expectedCoincidences: real,
    pValue: real,
    outbreakEvents: int,
    variableEvents: int,
    lift: real)

  /** The same-year loop: one row per shock column, in shock-column order,
      with the lift `coincidences - expected`. */
  method SameYearRows(shockColumns: seq<string>, results: map<string, CategoryResult>)
    returns (rows: seq<SameYearRow>)
    requires forall v :: v in shockColumns ==> v in results && Outbreak in results[v].totals && v in results[v].totals
    ensures |rows| == |shockColumns|
    ensures forall i :: 0 <= i < |rows| ==>
      var v := shockColumns[i];
      && rows[i].variable == v
      && rows[i].coincidences == results[v].coincidences
      && rows[i].expectedCoincidences == results[v].expectedRandomCoincidences
      && rows[i].pValue == results[v].pValue
      && rows[i].outbreakEvents == results[v].totals[Outbreak]
      && rows[i].variableEvents == results[v].totals[v]
      && rows[i].lift == rows[i].coincidences as real - rows[i].expectedCoincidences
  {
    rows := [];
    for i := 0 to |shockColumns|
      invariant |rows| == i
      invariant forall j :: 0 <= j < i ==>
        var v := shockColumns[j];
        && rows[j].variable == v
        && rows[j].coincidences == results[v].coincidences
        && rows[j].expectedCoincidences == results[v].expectedRandomCoincidences
        && rows[j].pValue == results[v].pValue
        && rows[j].outbreakEvents == results[v].totals[Outbreak]
        && rows[j].variableEvents == results[v].totals[v]
        && rows[j].lift == rows[j].coincidences as real - rows[j].expectedCoincidences
    {
      var variable := shockColumns[i];
      var result := results[variable];
      rows := rows + [SameYearRow(variable, result.coincidences, result.expectedRandomCoincidences, result.pValue,
                                  result.totals[Outbreak], result.totals[variable],
                                  result.coincidences as real - result.expectedRandomCoincidences)];
    }
  }

  const SignificanceLevel: real := 0.05

  /** The categories with a notable overlap: p below 0.05 and a positive lift. */
  function PositiveVariables(rows: seq<SameYearRow>): (vs: seq<string>)
    ensures |vs| <= |rows|
    ensures forall v :: v in vs <==>
      exists i :: 0 <= i < |rows| && rows[i].variable == v && rows[i].pValue < SignificanceLevel && rows[i].lift > 0.0
  {
    if rows == [] then []
    else
      var rest := PositiveVariables(rows[1..]);
      assert forall i :: 1 <= i < |rows| ==> rows[i] == rows[1..][i - 1];
      (if rows[0].pValue < SignificanceLevel && rows[0].lift > 0.0 then [rows[0].variable] else []) + rest
  }

  /** The categories resembling random alignment: p of at least 0.05. */
  function WeakVariables(rows: seq<SameYearRow>): (vs: seq<string>)
    ensures |vs| <= |rows|
    ensures forall v :: v in vs <==>
      exists i :: 0 <= i < |rows| && rows[i].variable == v && rows[i].pValue >= SignificanceLevel
  {
    if rows == [] then []
    else
      var rest := WeakVariables(rows[1..]);
      assert forall i :: 1 <= i < |rows| ==> rows[i] == rows[1..][i - 1];
      (if rows[0].pValue >= SignificanceLevel then [rows[0].variable] else []) + rest
  }

  /** With one row per category, no category is both notable and weak, and
      every notable category has a positive lift, that is, was observed more
      often than expected. */
  lemma PositiveAndWeakDisjoint(rows: seq<SameYearRow>)
    requires forall i, j :: 0 <= i < j < |rows| ==> rows[i].variable != rows[j].variable
    ensures forall v :: !(v in PositiveVariables(rows) && v in WeakVariables(rows))
    ensures forall i :: 0 <= i < |rows| && rows[i].variable in PositiveVariables(rows) ==> rows[i].lift > 0.0
  {
    forall i | 0 <= i < |rows| && rows[i].variable in PositiveVariables(rows)
      ensures rows[i].lift > 0.0
    {
      var j :| 0 <= j < |rows| && rows[j].variable == rows[i].variable && rows[j].pValue < SignificanceLevel && rows[j].lift > 0.0;
    }
  }
}
