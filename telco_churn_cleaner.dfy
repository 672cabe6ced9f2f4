/** clean_telco_data: the telecom churn cleaner. */
module TelcoChurnCleaner {
  import opened Cells
  import opened Tables
  import opened BaseCleaner

  const YesNoColumns: seq<string> := ["partner", "dependents", "phoneservice", "paperlessbilling", "churn"]

  const ServiceColumns: seq<string> :=
    ["multiplelines", "onlinesecurity", "onlinebackup", "deviceprotection", "techsupport",
     "streamingtv", "streamingmovies"]

  predicate NoDuplicates(names: seq<string>) {
    forall a, b :: 0 <= a < b < |names| ==> names[a] != names[b]
  }

  /* ---------------------------------------------------------------------- */
  /* Cell encodings                                                         */
  /* ---------------------------------------------------------------------- */

  /** df.replace(r"^\s*$", np.nan, regex=True) on one cell: a string that is
      empty or all whitespace becomes missing, every other cell is kept. */
  function BlankToMissing(c: Cell): (r: Cell)
    ensures r.Missing? <==> c.Missing? || (c.Str? && IsBlank(c.s))
    ensures !r.Missing? ==> r == c
  {
    if c.Str? && IsBlank(c.s) then Missing else c
  }

  /** .map({"Yes": 1, "No": 0}): a value absent from the dictionary becomes missing. */
  function YesNo(c: Cell): (r: Cell)
    ensures r == Num(1.0) <==> c == Str("Yes")
    ensures r == Num(0.0) <==> c == Str("No")
    ensures r == Missing <==> c != Str("Yes") && c != Str("No")
  {
    if c == Str("Yes") then Num(1.0) else if c == Str("No") then Num(0.0) else Missing
  }

  /** .replace({"No internet service": "No", "No phone service": "No"}): whole-value replacement. */
  function RewriteNoService(c: Cell): Cell {
    if c == Str("No internet service") || c == Str("No phone service") then Str("No") else c
  }

  /** The rewrite gives "No" exactly for "No" and the two "No … service" values,
      and leaves every other cell as it was. */
  lemma RewriteNoServiceMeaning(c: Cell)
    ensures RewriteNoService(c) == Str("No") <==> c in {Str("No"), Str("No internet service"), Str("No phone service")}
    ensures c !in {Str("No internet service"), Str("No phone service")} ==> RewriteNoService(c) == c
  {
  }

  /** A service column after both of its assignments: the rewrite, then the Yes/No map. */
  function ServiceYesNo(c: Cell): (r: Cell)
    ensures r == Num(1.0) <==> c == Str("Yes")
    ensures r == Num(0.0) <==> c in {Str("No"), Str("No internet service"), Str("No phone service")}
    ensures r == Missing <==> c !in {Str("Yes"), Str("No"), Str("No internet service"), Str("No phone service")}
  {
    YesNo(RewriteNoService(c))
  }

  /** .astype(bool) with Python truthiness: a number is true unless zero, a
      string unless empty, and a missing value (NaN) is true. */
  function SeniorToBool(c: Cell): (r: Cell)
    ensures r.Bool?
    ensures r == Bool(false) <==> c in {Num(0.0), Bool(false), Str("")}
  {
    match c
    case Num(x) => Bool(x != 0.0)
    case Bool(b) => Bool(b)
    case Str(s) => Bool(|s| > 0)
    case Missing => Bool(true)
    case Date(_) => Bool(true)
  }

  /** None of the dictionary keys is blank, so the blank replacement before the
      maps changes none of their results. */
  lemma BlankThenYesNo(c: Cell)
    ensures YesNo(BlankToMissing(c)) == YesNo(c)
    ensures ServiceYesNo(BlankToMissing(c)) == ServiceYesNo(c)
  {
    assert !IsBlank("Yes") by { assert !IsSpace("Yes"[0]); }
    assert !IsBlank("No") by { assert !IsSpace("No"[0]); }
    assert !IsBlank("No internet service") by { assert !IsSpace("No internet service"[0]); }
    assert !IsBlank("No phone service") by { assert !IsSpace("No phone service"[0]); }
  }

  /** After the blank replacement a blank `seniorcitizen` is missing, hence true;
      only the number 0 and the boolean false give false. */
  lemma BlankThenSenior(c: Cell)
    ensures SeniorToBool(BlankToMissing(c)).Bool?
    ensures SeniorToBool(BlankToMissing(c)) == Bool(false) <==> c in {Num(0.0), Bool(false)}
  {
    if c.Str? && !IsBlank(c.s) {
      assert |c.s| > 0;
    }
  }

  /* ---------------------------------------------------------------------- */
  /* The steps over columns                                                 */
  /* ---------------------------------------------------------------------- */

  /** `for col in cols: if col in df.columns: df[col] = df[col].map(f)`. */
  function EncodeColumns(t: Table, cols: seq<string>, f: Cell -> Cell): (r: Table)
    requires t.WellFormed()
    ensures r.WellFormed() && r.labels == t.labels && r.height == t.height
    decreases |cols|
  {
    if cols == [] then t
    else
      var prev := EncodeColumns(t, cols[..|cols| - 1], f);
      var col := cols[|cols| - 1];
      if col in prev.labels then MapColumn(prev, col, f) else prev
  }

  /** The service loop: each present column is rewritten, then Yes/No mapped. */
  function EncodeServiceColumns(t: Table, cols: seq<string>): (r: Table)
    requires t.WellFormed()
    ensures r.WellFormed() && r.labels == t.labels && r.height == t.height
    decreases |cols|
  {
    if cols == [] then t
    else
      var prev := EncodeServiceColumns(t, cols[..|cols| - 1]);
      var col := cols[|cols| - 1];
      if col in prev.labels then MapColumn(MapColumn(prev, col, RewriteNoService), col, YesNo) else prev
  }

  /** Over a list without repetitions, the loop maps exactly the columns whose
      name is listed, each once. */
  lemma {:induction false} EncodeColumnsAt(t: Table, cols: seq<string>, f: Cell -> Cell)
    requires t.WellFormed() && NoDuplicates(cols)
    ensures forall j, i :: 0 <= j < |t.columns| && 0 <= i < t.height ==>
              EncodeColumns(t, cols, f).columns[j][i]
              == if t.labels[j] in cols then f(t.columns[j][i]) else t.columns[j][i]
    decreases |cols|
  {
    if cols != [] {
      var init := cols[..|cols| - 1];
      EncodeColumnsAt(t, init, f);
      forall j | 0 <= j < |t.columns| ensures (t.labels[j] in cols) == (t.labels[j] in init || t.labels[j] == cols[|cols| - 1])
                                        && !(t.labels[j] in init && t.labels[j] == cols[|cols| - 1]) {
        assert cols == init + [cols[|cols| - 1]];
      }
    }
  }

  lemma {:induction false} EncodeServiceColumnsAt(t: Table, cols: seq<string>)
    requires t.WellFormed() && NoDuplicates(cols)
    ensures forall j, i :: 0 <= j < |t.columns| && 0 <= i < t.height ==>
              EncodeServiceColumns(t, cols).columns[j][i]
              == if t.labels[j] in cols then ServiceYesNo(t.columns[j][i]) else t.columns[j][i]
    decreases |cols|
  {
    if cols != [] {
      var init := cols[..|cols| - 1];
      EncodeServiceColumnsAt(t, init);
      forall j | 0 <= j < |t.columns| ensures (t.labels[j] in cols) == (t.labels[j] in init || t.labels[j] == cols[|cols| - 1])
                                        && !(t.labels[j] in init && t.labels[j] == cols[|cols| - 1]) {
        assert cols == init + [cols[|cols| - 1]];
      }
    }
  }

  /* ---------------------------------------------------------------------- */
  /* The cleaner, step by step                                              */
  /* ---------------------------------------------------------------------- */

  /** What one run produces: the cleaned table or the error raised, and the
      removed-row count printed (none when the error comes first). */
  datatype TelcoRun = TelcoRun(result: Result<Table>, removed: Option<int>)

  /** The frame after normalising, blank replacement and the numeric cast of `totalcharges`. */
  function TelcoPrepared(t: Table, p: Parsers): (r: Table)
    requires t.WellFormed()
    ensures r.WellFormed() && r.labels == NormalizeLabels(t.labels) && r.height == t.height
  {
    var t1 := t.(labels := NormalizeLabels(t.labels));
    var t2 := MapCells(t1, BlankToMissing);
    if "totalcharges" in t2.labels then MapColumn(t2, "totalcharges", NumberCoercion(p)) else t2
  }

  /** The three encodings that follow the drop: the Yes/No loop, the service
      loop and the boolean cast of `seniorcitizen`. */
  function TelcoEncodeSteps(t: Table): (r: Table)
    requires t.WellFormed()
    ensures r.WellFormed() && r.labels == t.labels && r.height == t.height
  {
    var t5 := EncodeColumns(t, YesNoColumns, YesNo);
    var t6 := EncodeServiceColumns(t5, ServiceColumns);
    if "seniorcitizen" in t6.labels then MapColumn(t6, "seniorcitizen", SeniorToBool) else t6
  }

  /** The steps from the drop on: the drop on `totalcharges` raises a KeyError
      when that column is absent, and prints the rows it removed otherwise. */
  function DropAndEncode(t: Table): (run: TelcoRun)
    requires t.WellFormed()
    ensures run.result.Fail? <==> "totalcharges" !in t.labels
  {
    if "totalcharges" !in t.labels then TelcoRun(Fail(KeyError("totalcharges")), None)
    else
      var kept := Filter(t, NoneMissingIn(t, ["totalcharges"]));
      TelcoRun(Ok(TelcoEncodeSteps(kept)), Some(t.height - kept.height))
  }

  /** clean_telco_data, in its steps: it fails exactly when no label normalises
      to `totalcharges` (every other step is skipped for an absent column). */
  function CleanTelco(t: Table, p: Parsers): (run: TelcoRun)
    requires t.WellFormed()
    ensures run.result.Fail? <==> "totalcharges" !in NormalizeLabels(t.labels)
    ensures run.result.Fail? ==> run.result.error == KeyError("totalcharges") && run.removed == None
    ensures run.result.Ok? ==> run.removed.Some?
  {
    DropAndEncode(TelcoPrepared(t, p))
  }

  /* ---------------------------------------------------------------------- */
  /* The cleaner in one pass                                                */
  /* ---------------------------------------------------------------------- */

  /** The cell-wise part of the steps before the drop. */
  function PrepareCell(name: string, c: Cell, p: Parsers): Cell {
    if name == "totalcharges" then ToNumeric(BlankToMissing(c), p) else BlankToMissing(c)
  }

  /** The cell-wise part of the steps after the drop. */
  function EncodeCell(name: string, c: Cell): Cell {
    if name in YesNoColumns then YesNo(c)
    else if name in ServiceColumns then ServiceYesNo(c)
    else if name == "seniorcitizen" then SeniorToBool(c)
    else c
  }

  /** What the cleaner does to one cell of a column with the given (normalised) name. */
  function TelcoCell(name: string, c: Cell, p: Parsers): Cell {
    EncodeCell(name, PrepareCell(name, c, p))
  }

  /** The groups of columns the cleaner treats are disjoint and without repetitions. */
  lemma LabelGroupsDisjoint()
    ensures NoDuplicates(YesNoColumns) && NoDuplicates(ServiceColumns)
    ensures forall l :: l in YesNoColumns ==> l !in ServiceColumns && l != "totalcharges" && l != "seniorcitizen"
    ensures forall l :: l in ServiceColumns ==> l != "totalcharges" && l != "seniorcitizen"
  {
  }

  /** A cell is encoded by the group its column belongs to, after the blank replacement. */
  lemma TelcoCellByGroup(name: string, c: Cell, p: Parsers)
    ensures name == "totalcharges" ==> TelcoCell(name, c, p) == ToNumeric(BlankToMissing(c), p)
    ensures name in YesNoColumns ==> TelcoCell(name, c, p) == YesNo(BlankToMissing(c))
    ensures name in ServiceColumns ==> TelcoCell(name, c, p) == ServiceYesNo(BlankToMissing(c))
    ensures name == "seniorcitizen" ==> TelcoCell(name, c, p) == SeniorToBool(BlankToMissing(c))
    ensures name != "totalcharges" && name !in YesNoColumns && name !in ServiceColumns && name != "seniorcitizen" ==>
              TelcoCell(name, c, p) == BlankToMissing(c)
  {
    LabelGroupsDisjoint();
  }

  /** Every cell of the input encoded by its column's name. */
  function TelcoEncoded(t: Table, p: Parsers): (r: Table)
    requires t.WellFormed()
    ensures r.WellFormed() && r.labels == NormalizeLabels(t.labels) && r.height == t.height
    ensures forall j, i :: 0 <= j < |r.columns| && 0 <= i < r.height ==>
              r.columns[j][i] == TelcoCell(r.labels[j], t.columns[j][i], p)
  {
    var labels := NormalizeLabels(t.labels);
    Table(labels,
          seq(|t.columns|, j requires 0 <= j < |t.columns| =>
            seq(t.height, i requires 0 <= i < t.height => TelcoCell(labels[j], t.columns[j][i], p))),
          t.height)
  }

  /** The rows the cleaner keeps: those whose `totalcharges` parses. */
  function TelcoMask(t: Table, p: Parsers): (m: seq<bool>)
    requires t.WellFormed()
    ensures |m| == t.height
  {
    NoneMissingIn(TelcoEncoded(t, p), ["totalcharges"])
  }

  /** The cleaned table as one row selection followed by a per-cell encoding. */
  function TelcoReference(t: Table, p: Parsers): (r: Table)
    requires t.WellFormed()
    ensures r.WellFormed()
  {
    Filter(TelcoEncoded(t, p), TelcoMask(t, p))
  }

  /** The steps before the drop, cell by cell. */
  lemma TelcoPreparedAt(t: Table, p: Parsers)
    requires t.WellFormed()
    ensures var r := TelcoPrepared(t, p);
            forall j, i :: 0 <= j < |r.columns| && 0 <= i < r.height ==>
              r.columns[j][i] == PrepareCell(r.labels[j], t.columns[j][i], p)
  {
  }

  /** The steps after the drop, cell by cell. */
  lemma TelcoEncodeStepsAt(t: Table)
    requires t.WellFormed()
    ensures var r := TelcoEncodeSteps(t);
            forall j, i :: 0 <= j < |r.columns| && 0 <= i < r.height ==>
              r.columns[j][i] == EncodeCell(t.labels[j], t.columns[j][i])
  {
    LabelGroupsDisjoint();
    var t5 := EncodeColumns(t, YesNoColumns, YesNo);
    EncodeColumnsAt(t, YesNoColumns, YesNo);
    EncodeServiceColumnsAt(t5, ServiceColumns);
  }

  /** The drop reads the same `totalcharges` cells in the prepared and in the encoded table. */
  lemma TelcoMaskPrepared(t: Table, p: Parsers)
    requires t.WellFormed()
    ensures NoneMissingIn(TelcoPrepared(t, p), ["totalcharges"]) == TelcoMask(t, p)
  {
    var t3 := TelcoPrepared(t, p);
    var enc := TelcoEncoded(t, p);
    TelcoPreparedAt(t, p);
    forall j, i | 0 <= j < |t.columns| && 0 <= i < t.height && t3.labels[j] in ["totalcharges"]
      ensures t3.columns[j][i] == enc.columns[j][i]
    {
      TelcoCellByGroup(t3.labels[j], t.columns[j][i], p);
    }
  }

  /** With a `totalcharges` column, the encodings after the drop give the one-pass table. */
  lemma EncodedAfterDrop(t: Table, p: Parsers)
    requires t.WellFormed()
    requires "totalcharges" in NormalizeLabels(t.labels)
    ensures TelcoEncodeSteps(Filter(TelcoPrepared(t, p), TelcoMask(t, p))) == TelcoReference(t, p)
  {
    var t3 := TelcoPrepared(t, p);
    var mask := TelcoMask(t, p);
    var t4 := Filter(t3, mask);
    var t7 := TelcoEncodeSteps(t4);
    var ref := TelcoReference(t, p);
    var enc := TelcoEncoded(t, p);
    var idx := KeptIndices(mask);
    TelcoPreparedAt(t, p);
    TelcoEncodeStepsAt(t4);
    forall j, k | 0 <= j < |t7.columns| && 0 <= k < t7.height ensures t7.columns[j][k] == ref.columns[j][k] {
      assert t4.columns[j][k] == t3.columns[j][idx[k]];
      assert ref.columns[j][k] == enc.columns[j][idx[k]];
    }
    TableExtensionality(t7, ref);
  }

  /** The whole run in one pass: the KeyError without a `totalcharges` column,
      otherwise the one-pass table and the number of rows it has fewer. */
  function TelcoReferenceRun(t: Table, p: Parsers): TelcoRun
    requires t.WellFormed()
  {
    if "totalcharges" !in NormalizeLabels(t.labels) then TelcoRun(Fail(KeyError("totalcharges")), None)
    else TelcoRun(Ok(TelcoReference(t, p)), Some(t.height - TelcoReference(t, p).height))
  }

  /** The step-by-step cleaner equals the one-pass description, error and printed count included. */
  lemma CleanTelcoIsReference(t: Table, p: Parsers)
    requires t.WellFormed()
    ensures CleanTelco(t, p) == TelcoReferenceRun(t, p)
  {
    if "totalcharges" in NormalizeLabels(t.labels) {
      TelcoMaskPrepared(t, p);
      EncodedAfterDrop(t, p);
    }
  }

  /* ---------------------------------------------------------------------- */
  /* What the cleaner promises                                              */
  /* ---------------------------------------------------------------------- */

  /** Without a `totalcharges` column after normalising, the cleaner raises
      KeyError and prints nothing, whatever else the table holds. */
  lemma TelcoWithoutTotalChargesFails(t: Table, p: Parsers)
    requires t.WellFormed() && "totalcharges" !in NormalizeLabels(t.labels)
    ensures CleanTelco(t, p) == TelcoRun(Fail(KeyError("totalcharges")), None)
  {
  }

  /** A successful run returns the one-pass table. */
  lemma TelcoOutIsReference(t: Table, p: Parsers, out: Table)
    requires t.WellFormed() && CleanTelco(t, p).result == Ok(out)
    ensures out == TelcoReference(t, p)
  {
    CleanTelcoIsReference(t, p);
  }

  /** A row is kept exactly when each of its `totalcharges` cells, blank-replaced,
      parses as a number. */
  lemma TelcoMaskMeaning(t: Table, p: Parsers)
    requires t.WellFormed()
    ensures var mask := TelcoMask(t, p);
            var labels := NormalizeLabels(t.labels);
            forall i :: 0 <= i < t.height ==>
              (mask[i] <==> forall j :: 0 <= j < |t.columns| && labels[j] == "totalcharges" ==>
                              ToNumeric(BlankToMissing(t.columns[j][i]), p) != Missing)
  {
    var enc := TelcoEncoded(t, p);
    forall j, i | 0 <= j < |t.columns| && 0 <= i < t.height && enc.labels[j] == "totalcharges"
      ensures enc.columns[j][i] == ToNumeric(BlankToMissing(t.columns[j][i]), p)
    {
      TelcoCellByGroup(enc.labels[j], t.columns[j][i], p);
    }
  }

  /** Each output cell is the encoding, by its column's name, of the input
      cell in the same column and in the row the output row came from. */
  lemma TelcoOutAt(t: Table, p: Parsers, out: Table)
    requires t.WellFormed() && CleanTelco(t, p).result == Ok(out)
    ensures var idx := KeptIndices(TelcoMask(t, p));
            && out.WellFormed() && out.labels == NormalizeLabels(t.labels) && out.height == |idx|
            && (forall k :: 0 <= k < |idx| ==> idx[k] < t.height)
            && (forall j, k :: 0 <= j < |out.columns| && 0 <= k < out.height ==>
                  out.columns[j][k] == TelcoCell(out.labels[j], t.columns[j][idx[k]], p))
  {
    TelcoOutIsReference(t, p, out);
  }

  /** The rows kept are exactly the input rows whose `totalcharges` is neither
      blank nor unparsable, in their original order; the count printed is the
      number of rows dropped. */
  lemma TelcoRowsKept(t: Table, p: Parsers, out: Table)
    requires t.WellFormed() && CleanTelco(t, p).result == Ok(out)
    ensures var idx := KeptIndices(TelcoMask(t, p));
            && out.height == |idx| <= t.height
            && CleanTelco(t, p).removed == Some(t.height - out.height)
            && StrictlyIncreasing(idx)
            && (forall i :: 0 <= i < t.height ==>
                  (i in idx <==> forall j :: 0 <= j < |t.columns| && out.labels[j] == "totalcharges" ==>
                                   ToNumeric(BlankToMissing(t.columns[j][i]), p) != Missing))
  {
    TelcoOutIsReference(t, p, out);
    CleanTelcoIsReference(t, p);
    TelcoMaskMeaning(t, p);
    var mask := TelcoMask(t, p);
    forall i | 0 <= i < t.height ensures i in KeptIndices(mask) <==> mask[i] {
      KeptIndicesMember(mask, i);
    }
  }

  /** Every kept row has a number in each `totalcharges` column: the drop
      removed exactly the rows where the cast gave a missing value. */
  lemma TelcoTotalChargesNumeric(t: Table, p: Parsers, out: Table)
    requires t.WellFormed() && CleanTelco(t, p).result == Ok(out)
    ensures out.WellFormed()
    ensures forall j, k :: 0 <= j < |out.columns| && 0 <= k < out.height && out.labels[j] == "totalcharges" ==>
              out.columns[j][k].Num?
  {
    TelcoOutIsReference(t, p, out);
    var mask := TelcoMask(t, p);
    var idx := KeptIndices(mask);
    var enc := TelcoEncoded(t, p);
    forall j, k | 0 <= j < |out.columns| && 0 <= k < out.height && out.labels[j] == "totalcharges"
      ensures out.columns[j][k].Num?
    {
      assert mask[idx[k]];
      assert out.columns[j][k] == enc.columns[j][idx[k]] != Missing;
      TelcoCellByGroup(out.labels[j], t.columns[j][idx[k]], p);
    }
  }

  /** A Yes/No column holds 1 exactly where the input said "Yes", 0 exactly
      where it said "No", and is missing everywhere else. */
  lemma TelcoYesNoCell(name: string, c: Cell, p: Parsers)
    requires name in YesNoColumns
    ensures TelcoCell(name, c, p) == Num(1.0) <==> c == Str("Yes")
    ensures TelcoCell(name, c, p) == Num(0.0) <==> c == Str("No")
    ensures TelcoCell(name, c, p) == Missing <==> c !in {Str("Yes"), Str("No")}
  {
    TelcoCellByGroup(name, c, p);
    BlankThenYesNo(c);
  }

  /** A service column holds 1 exactly where the input said "Yes", 0 where it
      said "No", "No internet service" or "No phone service", and is missing
      everywhere else: the rewrite happens before the map. */
  lemma TelcoServiceCell(name: string, c: Cell, p: Parsers)
    requires name in ServiceColumns
    ensures TelcoCell(name, c, p) == Num(1.0) <==> c == Str("Yes")
    ensures TelcoCell(name, c, p) == Num(0.0) <==> c in {Str("No"), Str("No internet service"), Str("No phone service")}
    ensures TelcoCell(name, c, p) == Missing <==>
              c !in {Str("Yes"), Str("No"), Str("No internet service"), Str("No phone service")}
  {
    TelcoCellByGroup(name, c, p);
    BlankThenYesNo(c);
  }

  /** `seniorcitizen` becomes boolean; it is false exactly where the input held
      the number 0 or the boolean false, so a missing or blank cell becomes true. */
  lemma TelcoSeniorCitizenCell(c: Cell, p: Parsers)
    ensures TelcoCell("seniorcitizen", c, p).Bool?
    ensures TelcoCell("seniorcitizen", c, p) == Bool(false) <==> c in {Num(0.0), Bool(false)}
  {
    TelcoCellByGroup("seniorcitizen", c, p);
    BlankThenSenior(c);
  }

  lemma ExampleLabels()
    ensures NormalizeLabels(["TotalCharges", "Churn"]) == ["totalcharges", "churn"]
  {
    StripNoSpace("TotalCharges");
    assert Lower("TotalCharges") == "totalcharges";
    assert ReplaceSpaces("totalcharges") == "totalcharges";
    StripNoSpace("Churn");
    assert Lower("Churn") == "churn";
    assert ReplaceSpaces("churn") == "churn";
  }

  lemma ExampleCells(p: Parsers)
    requires p.number("29.85") == Some(29.85)
    ensures TelcoCell("totalcharges", Str(" "), p) == Missing
    ensures TelcoCell("totalcharges", Str("29.85"), p) == Num(29.85)
    ensures TelcoCell("churn", Str("No"), p) == Num(0.0)
  {
    assert !IsBlank("29.85") by { assert !IsSpace("29.85"[0]); }
    TelcoCellByGroup("totalcharges", Str(" "), p);
    TelcoCellByGroup("totalcharges", Str("29.85"), p);
    TelcoYesNoCell("churn", Str("No"), p);
  }

  lemma ExampleMaskOf(e: Table)
    requires e.WellFormed() && e.labels == ["totalcharges", "churn"] && e.height == 2
    requires e.columns[0][0] == Missing && e.columns[0][1] != Missing
    ensures NoneMissingIn(e, ["totalcharges"]) == [false, true]
  {
    var mask := NoneMissingIn(e, ["totalcharges"]);
    assert !mask[0];
    assert mask[1] by {
      assert "churn" !in ["totalcharges"];
    }
  }

  /** In the two-row example only the second row has a charge that parses. */
  lemma ExampleMask(t: Table, p: Parsers)
    requires NormalizeLabels(t.labels) == ["totalcharges", "churn"]
    requires t.columns == [[Str(" "), Str("29.85")], [Str("Yes"), Str("No")]] && t.height == 2
    requires p.number("29.85") == Some(29.85)
    ensures TelcoMask(t, p) == [false, true]
    ensures TelcoEncoded(t, p).columns[0][1] == Num(29.85) && TelcoEncoded(t, p).columns[1][1] == Num(0.0)
  {
    var enc := TelcoEncoded(t, p);
    ExampleCells(p);
    assert enc.columns[0][0] == Missing && enc.columns[0][1] == Num(29.85);
    ExampleMaskOf(enc);
  }

  lemma ExampleKept()
    ensures KeptIndices([false, true]) == [1]
  {
    assert Enumerates([1], [false, true]);
    EnumerationUnique([1], KeptIndices([false, true]), [false, true]);
  }

  lemma ExampleFilterOf(e: Table)
    requires e.WellFormed() && e.labels == ["totalcharges", "churn"] && e.height == 2
    requires e.columns[0][1] == Num(29.85) && e.columns[1][1] == Num(0.0)
    ensures Filter(e, [false, true]) == Table(["totalcharges", "churn"], [[Num(29.85)], [Num(0.0)]], 1)
  {
    ExampleKept();
    var r := Filter(e, [false, true]);
    assert r.columns[0] == [Num(29.85)];
    assert r.columns[1] == [Num(0.0)];
  }

  lemma ExampleReference(t: Table, p: Parsers)
    requires NormalizeLabels(t.labels) == ["totalcharges", "churn"]
    requires t.columns == [[Str(" "), Str("29.85")], [Str("Yes"), Str("No")]] && t.height == 2
    requires p.number("29.85") == Some(29.85)
    ensures TelcoReference(t, p) == Table(["totalcharges", "churn"], [[Num(29.85)], [Num(0.0)]], 1)
  {
    ExampleMask(t, p);
    ExampleFilterOf(TelcoEncoded(t, p));
  }

  /** The two-row example: a blank `TotalCharges` row is dropped, the other is
      kept with its charge parsed and its `Churn` of "No" encoded as 0; one row
      is reported removed. The labels are any that normalise to `totalcharges`
      and `churn`, such as those of `ExampleLabels`. */
  lemma TelcoExample(t: Table, p: Parsers)
    requires NormalizeLabels(t.labels) == ["totalcharges", "churn"]
    requires t.columns == [[Str(" "), Str("29.85")], [Str("Yes"), Str("No")]] && t.height == 2
    requires p.number("29.85") == Some(29.85)
    ensures CleanTelco(t, p) == TelcoRun(Ok(Table(["totalcharges", "churn"], [[Num(29.85)], [Num(0.0)]], 1)), Some(1))
  {
    ExampleReference(t, p);
    CleanTelcoIsReference(t, p);
  }

  /* ---------------------------------------------------------------------- */
  /* The cleaner on frame objects                                           */
  /* ---------------------------------------------------------------------- */

  /** The Yes/No loop on a frame, in place. */
  method EncodeYesNoColumns(frame: Frame)
    requires frame.Valid()
    modifies frame
    ensures frame.Valid() && frame.Value() == EncodeColumns(old(frame.Value()), YesNoColumns, YesNo)
  {
    ghost var start := frame.Value();
    for k := 0 to |YesNoColumns|
      invariant frame.Valid()
      invariant frame.Value() == EncodeColumns(start, YesNoColumns[..k], YesNo)
    {
      var col := YesNoColumns[k];
      assert YesNoColumns[..k + 1][..k] == YesNoColumns[..k];
      if col in frame.labels {
        frame.Assign(col, YesNo);
      }
    }
    assert YesNoColumns[..|YesNoColumns|] == YesNoColumns;
  }

  /** The service loop on a frame, in place. */
  method EncodeServices(frame: Frame)
    requires frame.Valid()
    modifies frame
    ensures frame.Valid() && frame.Value() == EncodeServiceColumns(old(frame.Value()), ServiceColumns)
  {
    ghost var start := frame.Value();
    for k := 0 to |ServiceColumns|
      invariant frame.Valid()
      invariant frame.Value() == EncodeServiceColumns(start, ServiceColumns[..k])
    {
      var col := ServiceColumns[k];
      assert ServiceColumns[..k + 1][..k] == ServiceColumns[..k];
      if col in frame.labels {
        frame.Assign(col, RewriteNoService);
        frame.Assign(col, YesNo);
      }
    }
    assert ServiceColumns[..|ServiceColumns|] == ServiceColumns;
  }

  /** The three encodings after the drop, on a frame, in place. */
  method EncodeFrame(frame: Frame)
    requires frame.Valid()
    modifies frame
    ensures frame.Valid() && frame.Value() == TelcoEncodeSteps(old(frame.Value()))
  {
    EncodeYesNoColumns(frame);
    EncodeServices(frame);
    if "seniorcitizen" in frame.labels {
      frame.Assign("seniorcitizen", SeniorToBool);
    }
  }

  /** The steps before the drop: the argument frame's labels are normalised in
      place, and a new frame holds the blank-replaced, cast cells. */
  method PrepareFrame(df: Frame, p: Parsers) returns (frame: Frame)
    requires df.Valid()
    modifies df
    ensures df.Valid() && df.labels == NormalizeLabels(old(df.labels))
    ensures df.columns == old(df.columns) && df.height == old(df.height)
    ensures fresh(frame) && frame.Valid() && frame.Value() == TelcoPrepared(old(df.Value()), p)
  {
    var same := NormalizeColumns(df);
    frame := same.Replace(BlankToMissing);
    if "totalcharges" in frame.labels {
      frame.Assign("totalcharges", NumberCoercion(p));
    }
  }

  /** The drop and the encodings on a new frame: the error when there is no
      `totalcharges` column, otherwise the encoded frame and the rows removed. */
  method DropAndEncodeFrame(frame: Frame) returns (r: Result<Frame>, removed: Option<int>)
    requires frame.Valid()
    ensures var run := DropAndEncode(frame.Value());
            && removed == run.removed
            && (run.result.Fail? ==> r == Fail(run.result.error))
            && (run.result.Ok? ==> r.Ok? && r.value.Valid() && r.value.Value() == run.result.value)
    ensures r.Ok? ==> fresh(r.value)
  {
    var before := frame.height;
    if "totalcharges" !in frame.labels {
      return Fail(KeyError("totalcharges")), None;
    }
    var kept := frame.Select(NoneMissingIn(frame.Value(), ["totalcharges"]));
    removed := Some(before - kept.height);
    EncodeFrame(kept);
    r := Ok(kept);
  }

  /** clean_telco_data: the argument frame's labels are normalised in place;
      the rest works on new frames, whose last one is returned, and the
      removed-row count is what the function prints. */
  method CleanTelcoData(df: Frame, p: Parsers) returns (r: Result<Frame>, removed: Option<int>)
    requires df.Valid()
    modifies df
    ensures df.Valid() && df.labels == NormalizeLabels(old(df.labels))
    ensures df.columns == old(df.columns) && df.height == old(df.height)
    ensures var run := CleanTelco(old(df.Value()), p);
            && removed == run.removed
            && (run.result.Fail? ==> r == Fail(run.result.error))
            && (run.result.Ok? ==> r.Ok? && r.value.Valid() && r.value.Value() == run.result.value)
    ensures r.Ok? ==> fresh(r.value)
  {
    var frame := PrepareFrame(df, p);
    r, removed := DropAndEncodeFrame(frame);
  }
}
