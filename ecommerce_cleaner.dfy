/** clean_ecommerce_data: the e-commerce transactions cleaner. */
module EcommerceCleaner {
  import opened Cells
  import opened Tables
  import opened BaseCleaner

  /* ---------------------------------------------------------------------- */
  /* Comparing cells with numbers                                           */
  /* ---------------------------------------------------------------------- */

  /** The number a cell stands for in a comparison with a number: booleans
      count as 1 and 0; a missing cell (NaN) compares false with everything. */
  function Compared(c: Cell): (r: Option<real>)
    ensures r.Some? <==> c.Num? || c.Bool?
    ensures c.Num? ==> r == Some(c.x)
  {
    match c
    case Num(x) => Some(x)
    case Bool(b) => Some(if b then 1.0 else 0.0)
    case _ => None
  }

  /** A string or an instant cannot be compared with a number: pandas raises TypeError. */
  predicate Incomparable(c: Cell) {
    c.Str? || c.Date?
  }

  /** Series.between(10, 100) on one cell: both ends inclusive. */
  predicate InAgeRange(c: Cell) {
    Compared(c).Some? && 10.0 <= Compared(c).value <= 100.0
  }

  /** `> 0` on one cell. */
  predicate PositiveAmount(c: Cell) {
    Compared(c).Some? && Compared(c).value > 0.0
  }

  /** An age passes exactly when it is a number between 10 and 100; no boolean does. */
  lemma InAgeRangeMeaning(c: Cell)
    ensures InAgeRange(c) <==> c.Num? && 10.0 <= c.x <= 100.0
  {
  }

  /** An amount passes exactly when it is a positive number or the boolean true. */
  lemma PositiveAmountMeaning(c: Cell)
    ensures PositiveAmount(c) <==> (c.Num? && c.x > 0.0) || c == Bool(true)
  {
  }

  /* ---------------------------------------------------------------------- */
  /* The cleaner, step by step                                              */
  /* ---------------------------------------------------------------------- */

  /** The fields whose missing values drop a row, among those present, in their listed order. */
  function CriticalFields(labels: seq<string>): (r: seq<string>)
    ensures forall n :: n in r <==> (n == "order_date" || n == "price") && n in labels
    ensures r == [] <==> "order_date" !in labels && "price" !in labels
  {
    (if "order_date" in labels then ["order_date"] else []) + (if "price" in labels then ["price"] else [])
  }

  /** The casts of `order_date`, `price` and `quantity`, each when present. */
  function CastColumns(t: Table, p: Parsers): (r: Table)
    requires t.WellFormed()
    ensures r.WellFormed() && r.labels == t.labels && r.height == t.height
  {
    var t3 := if "order_date" in t.labels then MapColumn(t, "order_date", DateCoercion(p)) else t;
    var t4 := if "price" in t3.labels then MapColumn(t3, "price", NumberCoercion(p)) else t3;
    if "quantity" in t4.labels then MapColumn(t4, "quantity", NumberCoercion(p)) else t4
  }

  /** The cast of `transaction_date`, when present: it changes cells, never the row count. */
  function CastTransactionDate(t: Table, p: Parsers): (r: Table)
    requires t.WellFormed()
    ensures r.WellFormed() && r.labels == t.labels && r.height == t.height
  {
    if "transaction_date" in t.labels then MapColumn(t, "transaction_date", DateCoercion(p)) else t
  }

  /** Normalising the labels, dropping the rows with every cell missing, and the casts. */
  function EcomPrepared(t: Table, p: Parsers): (r: Table)
    requires t.WellFormed()
    ensures r.WellFormed() && r.labels == NormalizeLabels(t.labels) && r.height <= t.height
  {
    var t1 := t.(labels := NormalizeLabels(t.labels));
    CastColumns(Filter(t1, NotAllMissing(t1)), p)
  }

  /** The drop on the critical fields present, then the cast of `transaction_date`. */
  function EcomChecked(t: Table, p: Parsers): (r: Table)
    requires t.WellFormed()
    ensures r.WellFormed() && r.labels == t.labels && r.height <= t.height
  {
    CastTransactionDate(Filter(t, NoneMissingIn(t, CriticalFields(t.labels))), p)
  }

  /** The outcome of one validation step: the table or the error, and the count printed. */
  datatype Check = Check(result: Result<Table>, removed: Option<int>)

  /** `if name in df.columns: df = df[test(df[name])]`, printing the rows removed.
      The comparison raises TypeError when a cell of the column is a string or an instant. */
  function Validate(t: Table, name: string, test: Cell -> bool): Check
    requires t.WellFormed()
  {
    if name !in t.labels then Check(Ok(t), None)
    else if ColumnHas(t, name, Incomparable) then Check(Fail(TypeError(name)), None)
    else
      var kept := Filter(t, ColumnMask(t, name, test));
      Check(Ok(kept), Some(t.height - kept.height))
  }

  /** A validation step raises exactly when the column is present and holds an
      incomparable cell; a skipped step changes nothing and prints nothing;
      otherwise every row left passes the test, and the count printed is the
      number of rows removed. */
  lemma ValidateMeaning(t: Table, name: string, test: Cell -> bool)
    requires t.WellFormed()
    ensures var r := Validate(t, name, test);
            && (r.result.Fail? <==> name in t.labels && ColumnHas(t, name, Incomparable))
            && (r.result.Fail? ==> r.result.error == TypeError(name) && r.removed == None)
            && (name !in t.labels ==> r == Check(Ok(t), None))
            && (r.result.Ok? && name in t.labels ==>
                  var o := r.result.value;
                  && o.WellFormed() && o.labels == t.labels && o.height <= t.height
                  && r.removed == Some(t.height - o.height)
                  && (forall j, k :: 0 <= j < |o.columns| && 0 <= k < o.height && o.labels[j] == name ==>
                        test(o.columns[j][k])))
  {
    if name in t.labels && !ColumnHas(t, name, Incomparable) {
      var mask := ColumnMask(t, name, test);
      var kept := Filter(t, mask);
      assert forall k :: 0 <= k < kept.height ==> mask[KeptIndices(mask)[k]];
    }
  }

  /** What one run produces: the cleaned table or the error raised, and the two
      counts printed (none for a check skipped or not reached). */
  datatype EcommerceRun = EcommerceRun(result: Result<Table>, ageRemoved: Option<int>, amountRemoved: Option<int>)

  /** The age check, then (unless it raised) the purchase-amount check. */
  function Validations(t: Table): EcommerceRun
    requires t.WellFormed()
  {
    var age := Validate(t, "age", InAgeRange);
    if age.result.Fail? then EcommerceRun(age.result, None, None)
    else
      var amount := Validate(age.result.value, "purchase_amount", PositiveAmount);
      EcommerceRun(amount.result, age.removed, amount.removed)
  }

  /** When the two checks in sequence raise: exactly when the age check raises,
      or when it passes and the amount check raises on the rows it kept. After
      an age error the amount check is not reached and nothing is printed. */
  lemma ValidationsFailures(t: Table)
    requires t.WellFormed()
    ensures var age := Validate(t, "age", InAgeRange);
            var r := Validations(t);
            && (r.result.Fail? <==>
                  ("age" in t.labels && ColumnHas(t, "age", Incomparable))
                  || (age.result.Ok? && "purchase_amount" in t.labels
                      && ColumnHas(age.result.value, "purchase_amount", Incomparable)))
            && (r.result.Fail? ==>
                  r.amountRemoved == None
                  && (r.result.error == TypeError("age") || r.result.error == TypeError("purchase_amount")))
            && (r.result.Fail? && r.result.error == TypeError("age") ==> r.ageRemoved == None)
  {
    ValidateMeaning(t, "age", InAgeRange);
    var age := Validate(t, "age", InAgeRange);
    if age.result.Ok? {
      ValidateMeaning(age.result.value, "purchase_amount", PositiveAmount);
    }
  }

  /** A table that comes through both checks has the labels it went in with,
      no row it did not hold, only ages in range and only positive amounts; a
      count is printed exactly for each check whose column is present, and the
      counts add up to the rows removed. */
  lemma ValidationsPassed(t: Table)
    requires t.WellFormed()
    ensures var r := Validations(t);
            r.result.Ok? ==>
              var o := r.result.value;
              && o.WellFormed() && o.labels == t.labels && o.height <= t.height
              && (r.ageRemoved.Some? <==> "age" in t.labels)
              && (r.amountRemoved.Some? <==> "purchase_amount" in t.labels)
              && (if r.ageRemoved.Some? then r.ageRemoved.value else 0)
                 + (if r.amountRemoved.Some? then r.amountRemoved.value else 0) == t.height - o.height
              && (forall j, k :: 0 <= j < |o.columns| && 0 <= k < o.height && o.labels[j] == "age" ==>
                    InAgeRange(o.columns[j][k]))
              && (forall j, k :: 0 <= j < |o.columns| && 0 <= k < o.height && o.labels[j] == "purchase_amount" ==>
                    PositiveAmount(o.columns[j][k]))
  {
    var age := Validate(t, "age", InAgeRange);
    ValidateMeaning(t, "age", InAgeRange);
    if age.result.Ok? {
      var a := age.result.value;
      ValidateMeaning(a, "purchase_amount", PositiveAmount);
      var amount := Validate(a, "purchase_amount", PositiveAmount);
      if amount.result.Ok? && "purchase_amount" in a.labels {
        var mask := ColumnMask(a, "purchase_amount", PositiveAmount);
        FilterKeepsColumnTest(a, mask, "age", InAgeRange);
      }
    }
  }

  /** The two checks in sequence: ValidationsFailures and ValidationsPassed together. */
  lemma ValidationsMeaning(t: Table)
    requires t.WellFormed()
    ensures var age := Validate(t, "age", InAgeRange);
            var r := Validations(t);
            && (r.result.Fail? <==>
                  ("age" in t.labels && ColumnHas(t, "age", Incomparable))
                  || (age.result.Ok? && "purchase_amount" in t.labels
                      && ColumnHas(age.result.value, "purchase_amount", Incomparable)))
            && (r.result.Fail? ==>
                  r.amountRemoved == None
                  && (r.result.error == TypeError("age") || r.result.error == TypeError("purchase_amount")))
            && (r.result.Fail? && r.result.error == TypeError("age") ==> r.ageRemoved == None)
            && (r.result.Ok? ==>
                  var o := r.result.value;
                  && o.WellFormed() && o.labels == t.labels && o.height <= t.height
                  && (r.ageRemoved.Some? <==> "age" in t.labels)
                  && (r.amountRemoved.Some? <==> "purchase_amount" in t.labels)
                  && (if r.ageRemoved.Some? then r.ageRemoved.value else 0)
                     + (if r.amountRemoved.Some? then r.amountRemoved.value else 0) == t.height - o.height
                  && (forall j, k :: 0 <= j < |o.columns| && 0 <= k < o.height && o.labels[j] == "age" ==>
                        InAgeRange(o.columns[j][k]))
                  && (forall j, k :: 0 <= j < |o.columns| && 0 <= k < o.height && o.labels[j] == "purchase_amount" ==>
                        PositiveAmount(o.columns[j][k])))
  {
    ValidationsFailures(t);
    ValidationsPassed(t);
  }

  /** clean_ecommerce_data, in its steps. */
  function CleanEcommerce(t: Table, p: Parsers): EcommerceRun
    requires t.WellFormed()
  {
    Validations(EcomChecked(EcomPrepared(t, p), p))
  }

  /* ---------------------------------------------------------------------- */
  /* The cleaner in one pass                                                */
  /* ---------------------------------------------------------------------- */

  /** What the casts do to one cell of a column with the given (normalised) name. */
  function EcomCell(name: string, c: Cell, p: Parsers): Cell {
    if name == "order_date" || name == "transaction_date" then ToDatetime(c, p)
    else if name == "price" || name == "quantity" then ToNumeric(c, p)
    else c
  }

  /** Every cell of the input cast by its column's name, no row dropped. */
  function EcomEncoded(t: Table, p: Parsers): (r: Table)
    requires t.WellFormed()
    ensures r.WellFormed() && r.labels == NormalizeLabels(t.labels) && r.height == t.height
    ensures forall j, i :: 0 <= j < |r.columns| && 0 <= i < r.height ==>
              r.columns[j][i] == EcomCell(r.labels[j], t.columns[j][i], p)
  {
    var labels := NormalizeLabels(t.labels);
    Table(labels,
          seq(|t.columns|, j requires 0 <= j < |t.columns| =>
            seq(t.height, i requires 0 <= i < t.height => EcomCell(labels[j], t.columns[j][i], p))),
          t.height)
  }

  /** The rows left after the first two drops: not all missing, and no critical field missing once cast. */
  function CriticalMask(t: Table, p: Parsers): (m: seq<bool>)
    requires t.WellFormed()
    ensures |m| == t.height
  {
    var e := EcomEncoded(t, p);
    And(NotAllMissing(t.(labels := NormalizeLabels(t.labels))), NoneMissingIn(e, CriticalFields(e.labels)))
  }

  /** The rows of `m` that also pass `test` on the column `name`, when there is such a column. */
  function Refine(e: Table, m: seq<bool>, name: string, test: Cell -> bool): (r: seq<bool>)
    requires e.WellFormed() && |m| == e.height
    ensures |r| == e.height
  {
    if name in e.labels then And(m, ColumnMask(e, name, test)) else m
  }

  /** A check on the column `name` raises: among the rows of `m` one holds a string or an instant there. */
  predicate Raises(e: Table, m: seq<bool>, name: string)
    requires e.WellFormed() && |m| == e.height
  {
    name in e.labels && ColumnHas(Filter(e, m), name, Incomparable)
  }

  /** The count a check on `name` prints when it goes from the rows of `m` to those of `m2`. */
  function Removed(e: Table, m: seq<bool>, m2: seq<bool>, name: string): Option<int>
    requires e.WellFormed() && |m| == e.height && |m2| == e.height
  {
    if name in e.labels then Some(Filter(e, m).height - Filter(e, m2).height) else None
  }

  /** Both checks described on the rows `crit` of the cast table `e`. */
  function ReferenceFrom(e: Table, crit: seq<bool>): (run: EcommerceRun)
    requires e.WellFormed() && |crit| == e.height
  {
    var ageM := Refine(e, crit, "age", InAgeRange);
    var allM := Refine(e, ageM, "purchase_amount", PositiveAmount);
    if Raises(e, crit, "age") then EcommerceRun(Fail(TypeError("age")), None, None)
    else if Raises(e, ageM, "purchase_amount") then
      EcommerceRun(Fail(TypeError("purchase_amount")), Removed(e, crit, ageM, "age"), None)
    else EcommerceRun(Ok(Filter(e, allM)), Removed(e, crit, ageM, "age"), Removed(e, ageM, allM, "purchase_amount"))
  }

  /** ... and, when there is an `age` column, an age in range. */
  function AgeMask(t: Table, p: Parsers): (m: seq<bool>)
    requires t.WellFormed()
    ensures |m| == t.height
  {
    Refine(EcomEncoded(t, p), CriticalMask(t, p), "age", InAgeRange)
  }

  /** ... and, when there is a `purchase_amount` column, a positive amount. */
  function EcomMask(t: Table, p: Parsers): (m: seq<bool>)
    requires t.WellFormed()
    ensures |m| == t.height
  {
    Refine(EcomEncoded(t, p), AgeMask(t, p), "purchase_amount", PositiveAmount)
  }

  /** The whole run described by one cast and one row selection. */
  function EcomReferenceRun(t: Table, p: Parsers): (run: EcommerceRun)
    requires t.WellFormed()
  {
    ReferenceFrom(EcomEncoded(t, p), CriticalMask(t, p))
  }

  /* ---------------------------------------------------------------------- */
  /* From the steps to the one pass                                         */
  /* ---------------------------------------------------------------------- */

  lemma CastColumnsFilter(t: Table, mask: seq<bool>, p: Parsers)
    requires t.WellFormed() && |mask| == t.height
    ensures CastColumns(Filter(t, mask), p) == Filter(CastColumns(t, p), mask)
  {
    var t3 := if "order_date" in t.labels then MapColumn(t, "order_date", DateCoercion(p)) else t;
    var t4 := if "price" in t3.labels then MapColumn(t3, "price", NumberCoercion(p)) else t3;
    MapColumnFilter(t, mask, "order_date", DateCoercion(p));
    MapColumnFilter(t3, mask, "price", NumberCoercion(p));
    MapColumnFilter(t4, mask, "quantity", NumberCoercion(p));
  }

  lemma CastTransactionDateFilter(t: Table, mask: seq<bool>, p: Parsers)
    requires t.WellFormed() && |mask| == t.height
    ensures CastTransactionDate(Filter(t, mask), p) == Filter(CastTransactionDate(t, p), mask)
  {
    MapColumnFilter(t, mask, "transaction_date", DateCoercion(p));
  }

  /** The casts applied in two steps are the one-pass cast. */
  lemma CastsEncode(t: Table, p: Parsers)
    requires t.WellFormed()
    ensures CastTransactionDate(CastColumns(t.(labels := NormalizeLabels(t.labels)), p), p) == EcomEncoded(t, p)
  {
    var a := CastTransactionDate(CastColumns(t.(labels := NormalizeLabels(t.labels)), p), p);
    TableExtensionality(a, EcomEncoded(t, p));
  }

  /** The critical drop reads the same cells before and after the `transaction_date` cast. */
  lemma CriticalBeforeDateCast(t: Table, p: Parsers)
    requires t.WellFormed()
    ensures NoneMissingIn(t, CriticalFields(t.labels)) == NoneMissingIn(CastTransactionDate(t, p), CriticalFields(t.labels))
  {
  }

  /** After the first two drops and the casts the table is the one-pass cast, filtered. */
  lemma CheckedIsFilter(t: Table, p: Parsers)
    requires t.WellFormed()
    ensures EcomChecked(EcomPrepared(t, p), p) == Filter(EcomEncoded(t, p), CriticalMask(t, p))
  {
    var t1 := t.(labels := NormalizeLabels(t.labels));
    var m1 := NotAllMissing(t1);
    var s := CastColumns(t1, p);
    var crit := CriticalFields(t1.labels);
    CastColumnsFilter(t1, m1, p);
    FilterThenNoneMissing(s, m1, crit);
    var m2 := And(m1, NoneMissingIn(s, crit));
    CastTransactionDateFilter(s, m2, p);
    CastsEncode(t, p);
    CriticalBeforeDateCast(s, p);
  }

  /** A validation step on a filtered table is a refinement of the filter, unless it raises. */
  lemma ValidateFiltered(e: Table, m: seq<bool>, name: string, test: Cell -> bool)
    requires e.WellFormed() && |m| == e.height
    ensures Validate(Filter(e, m), name, test)
            == if Raises(e, m, name) then Check(Fail(TypeError(name)), None)
               else Check(Ok(Filter(e, Refine(e, m, name, test))), Removed(e, m, Refine(e, m, name, test), name))
  {
    FilterThenColumnMask(e, m, name, test);
  }

  /** Both checks on a filtered table are the one-selection description. */
  lemma ValidationsFiltered(e: Table, crit: seq<bool>)
    requires e.WellFormed() && |crit| == e.height
    ensures Validations(Filter(e, crit)) == ReferenceFrom(e, crit)
  {
    ValidateFiltered(e, crit, "age", InAgeRange);
    ValidateFiltered(e, Refine(e, crit, "age", InAgeRange), "purchase_amount", PositiveAmount);
  }

  /** The step-by-step cleaner is the one-pass description, error cases and printed counts included. */
  lemma CleanEcommerceIsReference(t: Table, p: Parsers)
    requires t.WellFormed()
    ensures CleanEcommerce(t, p) == EcomReferenceRun(t, p)
  {
    CheckedIsFilter(t, p);
    ValidationsFiltered(EcomEncoded(t, p), CriticalMask(t, p));
  }

  /* ---------------------------------------------------------------------- */
  /* What the cleaner promises                                              */
  /* ---------------------------------------------------------------------- */

  /** Input row `i` survives the two drops: some cell is present, and each
      `order_date` parses as a date and each `price` as a number. */
  predicate PassesDrops(t: Table, p: Parsers, i: nat)
    requires t.WellFormed() && i < t.height
  {
    var labels := NormalizeLabels(t.labels);
    && (exists j :: 0 <= j < |t.columns| && t.columns[j][i] != Missing)
    && (forall j :: 0 <= j < |t.columns| && labels[j] == "order_date" ==> ToDatetime(t.columns[j][i], p) != Missing)
    && (forall j :: 0 <= j < |t.columns| && labels[j] == "price" ==> ToNumeric(t.columns[j][i], p) != Missing)
  }

  /** Input row `i` has every `age` between 10 and 100. */
  predicate AgeOk(t: Table, i: nat)
    requires t.WellFormed() && i < t.height
  {
    forall j :: 0 <= j < |t.columns| && NormalizeLabels(t.labels)[j] == "age" ==> InAgeRange(t.columns[j][i])
  }

  /** Input row `i` has every `purchase_amount` positive. */
  predicate AmountOk(t: Table, i: nat)
    requires t.WellFormed() && i < t.height
  {
    forall j :: 0 <= j < |t.columns| && NormalizeLabels(t.labels)[j] == "purchase_amount" ==> PositiveAmount(t.columns[j][i])
  }

  /** The age check raises: a row that survives the drops has a string or an instant as its age. */
  predicate AgeRaises(t: Table, p: Parsers)
    requires t.WellFormed()
  {
    exists j, i :: 0 <= j < |t.columns| && 0 <= i < t.height && PassesDrops(t, p, i) &&
      NormalizeLabels(t.labels)[j] == "age" && Incomparable(t.columns[j][i])
  }

  /** The amount check raises: a row that passes the age check has a string or an instant as its amount. */
  predicate AmountRaises(t: Table, p: Parsers)
    requires t.WellFormed()
  {
    exists j, i :: 0 <= j < |t.columns| && 0 <= i < t.height && PassesDrops(t, p, i) && AgeOk(t, i) &&
      NormalizeLabels(t.labels)[j] == "purchase_amount" && Incomparable(t.columns[j][i])
  }

  /** The one-pass cast leaves every column other than the four cast ones as it was. */
  lemma EcomEncodedOther(t: Table, p: Parsers, j: nat, i: nat)
    requires t.WellFormed() && j < |t.columns| && i < t.height
    ensures var name := NormalizeLabels(t.labels)[j];
            name !in ["order_date", "transaction_date", "price", "quantity"] ==>
              EcomEncoded(t, p).columns[j][i] == t.columns[j][i]
  {
  }

  /** The first two drops keep exactly the rows of `PassesDrops`. */
  lemma CriticalMaskMeaning(t: Table, p: Parsers)
    requires t.WellFormed()
    ensures forall i :: 0 <= i < t.height ==> (CriticalMask(t, p)[i] <==> PassesDrops(t, p, i))
  {
    var e := EcomEncoded(t, p);
    var labels := e.labels;
    forall i | 0 <= i < t.height ensures CriticalMask(t, p)[i] <==> PassesDrops(t, p, i) {
      forall j | 0 <= j < |t.columns|
        ensures labels[j] in CriticalFields(labels) <==> labels[j] == "order_date" || labels[j] == "price"
      {
      }
    }
  }

  /** ... the age check keeps the rows of `PassesDrops` and `AgeOk`, ... */
  lemma AgeMaskMeaning(t: Table, p: Parsers)
    requires t.WellFormed()
    ensures forall i :: 0 <= i < t.height ==> (AgeMask(t, p)[i] <==> PassesDrops(t, p, i) && AgeOk(t, i))
  {
    CriticalMaskMeaning(t, p);
    forall j, i | 0 <= j < |t.columns| && 0 <= i < t.height && NormalizeLabels(t.labels)[j] == "age"
      ensures EcomEncoded(t, p).columns[j][i] == t.columns[j][i]
    {
      EcomEncodedOther(t, p, j, i);
    }
  }

  /** ... and the amount check keeps those that also pass `AmountOk`. */
  lemma EcomMaskMeaning(t: Table, p: Parsers)
    requires t.WellFormed()
    ensures forall i :: 0 <= i < t.height ==>
              (EcomMask(t, p)[i] <==> PassesDrops(t, p, i) && AgeOk(t, i) && AmountOk(t, i))
  {
    AgeMaskMeaning(t, p);
    forall j, i | 0 <= j < |t.columns| && 0 <= i < t.height && NormalizeLabels(t.labels)[j] == "purchase_amount"
      ensures EcomEncoded(t, p).columns[j][i] == t.columns[j][i]
    {
      EcomEncodedOther(t, p, j, i);
    }
  }

  /** A successful run returns the one-pass cast of the input, filtered by the one-pass mask. */
  lemma EcomOutIsReference(t: Table, p: Parsers, out: Table)
    requires t.WellFormed() && CleanEcommerce(t, p).result == Ok(out)
    ensures out == Filter(EcomEncoded(t, p), EcomMask(t, p))
  {
    CleanEcommerceIsReference(t, p);
  }

  /** Each output cell is the cast, by its column's name, of the input cell in
      the same column and in the row the output row came from. */
  lemma EcomOutAt(t: Table, p: Parsers, out: Table)
    requires t.WellFormed() && CleanEcommerce(t, p).result == Ok(out)
    ensures var idx := KeptIndices(EcomMask(t, p));
            && out.WellFormed() && out.labels == NormalizeLabels(t.labels) && out.height == |idx|
            && (forall k :: 0 <= k < |idx| ==> idx[k] < t.height)
            && (forall j, k :: 0 <= j < |out.columns| && 0 <= k < out.height ==>
                  out.columns[j][k] == EcomCell(out.labels[j], t.columns[j][idx[k]], p))
  {
    EcomOutIsReference(t, p, out);
  }

  /** The rows kept are exactly the input rows that survive the drops and pass
      both checks, in their original order. */
  lemma EcomRowsKept(t: Table, p: Parsers, out: Table)
    requires t.WellFormed() && CleanEcommerce(t, p).result == Ok(out)
    ensures var idx := KeptIndices(EcomMask(t, p));
            && out.height == |idx| <= t.height
            && StrictlyIncreasing(idx)
            && (forall i :: 0 <= i < t.height ==>
                  (i in idx <==> PassesDrops(t, p, i) && AgeOk(t, i) && AmountOk(t, i)))
  {
    EcomOutIsReference(t, p, out);
    EcomMaskMeaning(t, p);
    var mask := EcomMask(t, p);
    forall i | 0 <= i < t.height ensures i in KeptIndices(mask) <==> mask[i] {
      KeptIndicesMember(mask, i);
    }
  }

  /** A check raises on a filtered table exactly when a kept row holds a
      string or an instant in the column, read in any table with the same cells there. */
  lemma RaisesOn(e: Table, t: Table, m: seq<bool>, name: string)
    requires e.WellFormed() && t.WellFormed() && |m| == e.height
    requires |e.columns| == |t.columns| && e.height == t.height
    requires forall j, i :: 0 <= j < |e.columns| && 0 <= i < e.height && e.labels[j] == name ==> e.columns[j][i] == t.columns[j][i]
    ensures Raises(e, m, name) <==>
              exists j, i :: 0 <= j < |t.columns| && 0 <= i < t.height && m[i] && e.labels[j] == name && Incomparable(t.columns[j][i])
  {
    ColumnHasFilter(e, m, name, Incomparable);
  }

  /** The age check on the rows left by the drops raises exactly when `AgeRaises`. */
  lemma AgeRaisesMeaning(t: Table, p: Parsers)
    requires t.WellFormed()
    ensures Raises(EcomEncoded(t, p), CriticalMask(t, p), "age") <==> AgeRaises(t, p)
  {
    var e := EcomEncoded(t, p);
    forall j, i | 0 <= j < |e.columns| && 0 <= i < e.height && e.labels[j] == "age"
      ensures e.columns[j][i] == t.columns[j][i]
    {
      EcomEncodedOther(t, p, j, i);
    }
    RaisesOn(e, t, CriticalMask(t, p), "age");
    CriticalMaskMeaning(t, p);
  }

  /** The amount check on the rows left by the age check raises exactly when `AmountRaises`. */
  lemma AmountRaisesMeaning(t: Table, p: Parsers)
    requires t.WellFormed()
    ensures Raises(EcomEncoded(t, p), AgeMask(t, p), "purchase_amount") <==> AmountRaises(t, p)
  {
    var e := EcomEncoded(t, p);
    forall j, i | 0 <= j < |e.columns| && 0 <= i < e.height && e.labels[j] == "purchase_amount"
      ensures e.columns[j][i] == t.columns[j][i]
    {
      EcomEncodedOther(t, p, j, i);
    }
    RaisesOn(e, t, AgeMask(t, p), "purchase_amount");
    AgeMaskMeaning(t, p);
  }

  /** On the one-pass description: which check raises, and when. */
  lemma ReferenceFailures(t: Table, p: Parsers)
    requires t.WellFormed()
    ensures var run := EcomReferenceRun(t, p);
            && (run.result == Fail(TypeError("age")) <==> AgeRaises(t, p))
            && (run.result == Fail(TypeError("purchase_amount")) <==> !AgeRaises(t, p) && AmountRaises(t, p))
            && (run.result.Fail? ==> run.result.error in {TypeError("age"), TypeError("purchase_amount")})
            && ("age" !in NormalizeLabels(t.labels) && "purchase_amount" !in NormalizeLabels(t.labels) ==> run.result.Ok?)
  {
    AgeRaisesMeaning(t, p);
    AmountRaisesMeaning(t, p);
  }

  /** The age check raises exactly when a row that survives the drops holds a
      string or an instant as its age; the amount check, when no age does and
      a row that passes the age check holds one as its amount. Nothing else
      raises, and with neither column present the run always succeeds. */
  lemma EcomFailures(t: Table, p: Parsers)
    requires t.WellFormed()
    ensures var run := CleanEcommerce(t, p);
            && (run.result == Fail(TypeError("age")) <==> AgeRaises(t, p))
            && (run.result == Fail(TypeError("purchase_amount")) <==> !AgeRaises(t, p) && AmountRaises(t, p))
            && (run.result.Fail? ==> run.result.error in {TypeError("age"), TypeError("purchase_amount")})
            && ("age" !in NormalizeLabels(t.labels) && "purchase_amount" !in NormalizeLabels(t.labels) ==> run.result.Ok?)
  {
    CleanEcommerceIsReference(t, p);
    ReferenceFailures(t, p);
  }

  /** The counts of both checks on the rows `crit` of a table. */
  lemma CountsFrom(e: Table, crit: seq<bool>)
    requires e.WellFormed() && |crit| == e.height
    ensures var run := ReferenceFrom(e, crit);
            var ageM := Refine(e, crit, "age", InAgeRange);
            var allM := Refine(e, ageM, "purchase_amount", PositiveAmount);
            var before := |KeptIndices(crit)|;
            var middle := |KeptIndices(ageM)|;
            var after := |KeptIndices(allM)|;
            && after <= middle <= before <= e.height
            && (run.ageRemoved.Some? <==> "age" in e.labels && run.result != Fail(TypeError("age")))
            && (run.ageRemoved.Some? ==> run.ageRemoved.value == before - middle)
            && (run.amountRemoved.Some? <==> "purchase_amount" in e.labels && run.result.Ok?)
            && (run.amountRemoved.Some? ==> run.amountRemoved.value == middle - after)
            && (run.result.Ok? ==> run.result.value.height == after)
  {
    var ageM := Refine(e, crit, "age", InAgeRange);
    KeptIndicesMonotone(crit, ageM);
    KeptIndicesMonotone(ageM, Refine(e, ageM, "purchase_amount", PositiveAmount));
  }

  /** On the one-pass description: the printed counts. */
  lemma ReferenceCounts(t: Table, p: Parsers)
    requires t.WellFormed()
    ensures var run := EcomReferenceRun(t, p);
            var labels := NormalizeLabels(t.labels);
            var before := |KeptIndices(CriticalMask(t, p))|;
            var middle := |KeptIndices(AgeMask(t, p))|;
            var after := |KeptIndices(EcomMask(t, p))|;
            && after <= middle <= before <= t.height
            && (run.ageRemoved.Some? <==> "age" in labels && run.result != Fail(TypeError("age")))
            && (run.ageRemoved.Some? ==> run.ageRemoved.value == before - middle)
            && (run.amountRemoved.Some? <==> "purchase_amount" in labels && run.result.Ok?)
            && (run.amountRemoved.Some? ==> run.amountRemoved.value == middle - after)
            && (run.result.Ok? ==> run.result.value.height == after)
  {
    CountsFrom(EcomEncoded(t, p), CriticalMask(t, p));
  }

  /** The printed counts: the age check prints how many of the rows left by
      the drops fail it, the amount check how many of those left by the age
      check fail it; a check prints nothing when its column is absent or when
      it or an earlier check raised. */
  lemma EcomCounts(t: Table, p: Parsers)
    requires t.WellFormed()
    ensures var run := CleanEcommerce(t, p);
            var labels := NormalizeLabels(t.labels);
            var before := |KeptIndices(CriticalMask(t, p))|;
            var middle := |KeptIndices(AgeMask(t, p))|;
            var after := |KeptIndices(EcomMask(t, p))|;
            && after <= middle <= before <= t.height
            && (run.ageRemoved.Some? <==> "age" in labels && run.result != Fail(TypeError("age")))
            && (run.ageRemoved.Some? ==> run.ageRemoved.value == before - middle)
            && (run.amountRemoved.Some? <==> "purchase_amount" in labels && run.result.Ok?)
            && (run.amountRemoved.Some? ==> run.amountRemoved.value == middle - after)
            && (run.result.Ok? ==> run.result.value.height == after)
  {
    CleanEcommerceIsReference(t, p);
    ReferenceCounts(t, p);
  }

  /** The cast of one cell of a row that passes the drops and both checks. */
  lemma KeptCellKinds(t: Table, p: Parsers, j: nat, i: nat)
    requires t.WellFormed() && j < |t.columns| && i < t.height
    requires PassesDrops(t, p, i) && AgeOk(t, i) && AmountOk(t, i)
    ensures var name := NormalizeLabels(t.labels)[j];
            var c := EcomCell(name, t.columns[j][i], p);
            && (name == "age" ==> c.Num? && 10.0 <= c.x <= 100.0)
            && (name == "purchase_amount" ==> (c.Num? && c.x > 0.0) || c == Bool(true))
            && (name == "order_date" ==> c.Date?)
            && (name == "price" ==> c.Num?)
            && (name == "quantity" ==> c.Num? || c.Missing?)
            && (name == "transaction_date" ==> c.Date? || c.Missing?)
  {
    InAgeRangeMeaning(t.columns[j][i]);
    PositiveAmountMeaning(t.columns[j][i]);
  }

  /** The output cells, on the one-pass table. */
  lemma ReferenceCells(t: Table, p: Parsers, out: Table)
    requires t.WellFormed() && out == Filter(EcomEncoded(t, p), EcomMask(t, p))
    ensures forall j, k :: 0 <= j < |out.columns| && 0 <= k < out.height ==>
              var c := out.columns[j][k];
              && (out.labels[j] == "age" ==> c.Num? && 10.0 <= c.x <= 100.0)
              && (out.labels[j] == "purchase_amount" ==> (c.Num? && c.x > 0.0) || c == Bool(true))
              && (out.labels[j] == "order_date" ==> c.Date?)
              && (out.labels[j] == "price" ==> c.Num?)
              && (out.labels[j] == "quantity" ==> c.Num? || c.Missing?)
              && (out.labels[j] == "transaction_date" ==> c.Date? || c.Missing?)
  {
    var mask := EcomMask(t, p);
    var idx := KeptIndices(mask);
    EcomMaskMeaning(t, p);
    forall j, k | 0 <= j < |out.columns| && 0 <= k < out.height
      ensures var c := out.columns[j][k];
              && (out.labels[j] == "age" ==> c.Num? && 10.0 <= c.x <= 100.0)
              && (out.labels[j] == "purchase_amount" ==> (c.Num? && c.x > 0.0) || c == Bool(true))
              && (out.labels[j] == "order_date" ==> c.Date?)
              && (out.labels[j] == "price" ==> c.Num?)
              && (out.labels[j] == "quantity" ==> c.Num? || c.Missing?)
              && (out.labels[j] == "transaction_date" ==> c.Date? || c.Missing?)
    {
      var i := idx[k];
      assert mask[i];
      KeptCellKinds(t, p, j, i);
      assert out.columns[j][k] == EcomCell(out.labels[j], t.columns[j][i], p);
    }
  }

  /** Every output `age` is a number between 10 and 100, both included. */
  lemma EcomAgeInRange(t: Table, p: Parsers, out: Table)
    requires t.WellFormed() && CleanEcommerce(t, p).result == Ok(out)
    ensures out.WellFormed()
    ensures forall j, k :: 0 <= j < |out.columns| && 0 <= k < out.height && out.labels[j] == "age" ==>
              out.columns[j][k].Num? && 10.0 <= out.columns[j][k].x <= 100.0
  {
    EcomOutIsReference(t, p, out);
    ReferenceCells(t, p, out);
  }

  /** Every output `purchase_amount` is a positive number (or the boolean true, which compares as 1). */
  lemma EcomAmountPositive(t: Table, p: Parsers, out: Table)
    requires t.WellFormed() && CleanEcommerce(t, p).result == Ok(out)
    ensures out.WellFormed()
    ensures forall j, k :: 0 <= j < |out.columns| && 0 <= k < out.height && out.labels[j] == "purchase_amount" ==>
              (out.columns[j][k].Num? && out.columns[j][k].x > 0.0) || out.columns[j][k] == Bool(true)
  {
    EcomOutIsReference(t, p, out);
    ReferenceCells(t, p, out);
  }

  /** In the output every `order_date` is an instant and every `price` a
      number; `quantity` and `transaction_date` hold numbers and instants, but
      may still hold missing values since no drop looks at them. */
  lemma EcomCastCells(t: Table, p: Parsers, out: Table)
    requires t.WellFormed() && CleanEcommerce(t, p).result == Ok(out)
    ensures out.WellFormed()
    ensures forall j, k :: 0 <= j < |out.columns| && 0 <= k < out.height ==>
              var c := out.columns[j][k];
              && (out.labels[j] == "order_date" ==> c.Date?)
              && (out.labels[j] == "price" ==> c.Num?)
              && (out.labels[j] == "quantity" ==> c.Num? || c.Missing?)
              && (out.labels[j] == "transaction_date" ==> c.Date? || c.Missing?)
  {
    EcomOutIsReference(t, p, out);
    ReferenceCells(t, p, out);
  }

  /** dropna(how="all") keeps exactly the rows with some cell present, in order. */
  lemma AllMissingRowsDropped(t: Table)
    requires t.WellFormed()
    ensures var idx := KeptIndices(NotAllMissing(t));
            && StrictlyIncreasing(idx)
            && forall i :: 0 <= i < t.height ==>
                 (i in idx <==> exists j :: 0 <= j < |t.columns| && t.columns[j][i] != Missing)
  {
    var mask := NotAllMissing(t);
    forall i | 0 <= i < t.height ensures i in KeptIndices(mask) <==> mask[i] {
      KeptIndicesMember(mask, i);
    }
  }

  /** The casts of `order_date`, `price` and `quantity`: each cell of those
      columns becomes its parsed value (missing when it does not parse), and
      every other column is untouched. */
  lemma CastColumnsAt(t: Table, p: Parsers)
    requires t.WellFormed()
    ensures var r := CastColumns(t, p);
            forall j, i :: 0 <= j < |r.columns| && 0 <= i < r.height ==>
              r.columns[j][i] == (if t.labels[j] == "order_date" then ToDatetime(t.columns[j][i], p)
                                  else if t.labels[j] == "price" || t.labels[j] == "quantity" then ToNumeric(t.columns[j][i], p)
                                  else t.columns[j][i])
  {
  }

  /** After the critical drop each present `order_date` and `price` cell is
      present; with neither column the drop removes nothing. */
  lemma CriticalDrop(t: Table)
    requires t.WellFormed()
    ensures var r := Filter(t, NoneMissingIn(t, CriticalFields(t.labels)));
            && r.WellFormed()
            && (forall j, k :: 0 <= j < |r.columns| && 0 <= k < r.height && (r.labels[j] == "order_date" || r.labels[j] == "price") ==>
                  r.columns[j][k] != Missing)
            && ("order_date" !in t.labels && "price" !in t.labels ==> r == t)
  {
    var mask := NoneMissingIn(t, CriticalFields(t.labels));
    var r := Filter(t, mask);
    var idx := KeptIndices(mask);
    forall j, k | 0 <= j < |r.columns| && 0 <= k < r.height && (r.labels[j] == "order_date" || r.labels[j] == "price")
      ensures r.columns[j][k] != Missing
    {
      assert mask[idx[k]];
    }
    if "order_date" !in t.labels && "price" !in t.labels {
      FilterAll(t, mask);
    }
  }

  /* ---------------------------------------------------------------------- */
  /* An example                                                             */
  /* ---------------------------------------------------------------------- */

  lemma ExampleAgeLabels()
    ensures NormalizeLabels(["Age"]) == ["age"]
  {
    StripNoSpace("Age");
    assert Lower("Age") == "age";
    assert ReplaceSpaces("age") == "age";
  }

  lemma ExampleAgeKept()
    ensures KeptIndices([false, true, false]) == [1]
  {
    assert Enumerates([1], [false, true, false]);
    EnumerationUnique([1], KeptIndices([false, true, false]), [false, true, false]);
  }

  /** The age test on the three-row table of ages 5, 50 and 150. */
  lemma ExampleAgeMask(e: Table)
    requires e.WellFormed() && e.labels == ["age"] && e.height == 3
    requires e.columns[0] == [Num(5.0), Num(50.0), Num(150.0)]
    ensures ColumnMask(e, "age", InAgeRange) == [false, true, false]
  {
    var m := ColumnMask(e, "age", InAgeRange);
    assert !m[0] && m[1] && !m[2];
  }

  lemma ExampleAgeFilter(e: Table)
    requires e.WellFormed() && e.labels == ["age"] && e.height == 3
    requires e.columns[0] == [Num(5.0), Num(50.0), Num(150.0)]
    ensures Filter(e, [false, true, false]) == Table(["age"], [[Num(50.0)]], 1)
  {
    ExampleAgeKept();
    var r := Filter(e, [false, true, false]);
    assert r.columns[0] == [Num(50.0)];
  }

  lemma ExampleAnd()
    ensures And([true, true, true], [false, true, false]) == [false, true, false]
  {
    var r := And([true, true, true], [false, true, false]);
    assert !r[0] && r[1] && !r[2];
  }

  lemma ExampleAgeRefine(e: Table, crit: seq<bool>)
    requires e.WellFormed() && e.labels == ["age"] && e.height == 3
    requires e.columns[0] == [Num(5.0), Num(50.0), Num(150.0)]
    requires crit == [true, true, true]
    ensures Refine(e, crit, "age", InAgeRange) == [false, true, false]
  {
    ExampleAgeMask(e);
    ExampleAnd();
  }

  lemma ExampleAgeComparable(e: Table, crit: seq<bool>)
    requires e.WellFormed() && e.labels == ["age"] && e.height == 3
    requires e.columns[0] == [Num(5.0), Num(50.0), Num(150.0)]
    requires crit == [true, true, true]
    ensures !Raises(e, crit, "age")
  {
    ColumnHasFilter(e, crit, "age", Incomparable);
    assert forall j, i :: 0 <= j < |e.columns| && 0 <= i < e.height ==> e.columns[j][i].Num?;
  }

  /** The two checks on the three-row table of ages 5, 50 and 150. */
  lemma ExampleAgeChecks(e: Table, crit: seq<bool>)
    requires e.WellFormed() && e.labels == ["age"] && e.height == 3
    requires e.columns[0] == [Num(5.0), Num(50.0), Num(150.0)]
    requires crit == [true, true, true]
    ensures ReferenceFrom(e, crit) == EcommerceRun(Ok(Table(["age"], [[Num(50.0)]], 1)), Some(2), None)
  {
    ExampleAgeRefine(e, crit);
    ExampleAgeComparable(e, crit);
    ExampleAgeFilter(e);
    FilterAll(e, crit);
  }

  /** The one-pass cast leaves the three-row table of ages as it is. */
  lemma ExampleAgeEncoded(t: Table, p: Parsers)
    requires NormalizeLabels(t.labels) == ["age"]
    requires t.columns == [[Num(5.0), Num(50.0), Num(150.0)]] && t.height == 3
    ensures var e := EcomEncoded(t, p);
            e.labels == ["age"] && e.height == 3 && e.columns[0] == [Num(5.0), Num(50.0), Num(150.0)]
  {
    var e := EcomEncoded(t, p);
    EcomEncodedOther(t, p, 0, 0);
    EcomEncodedOther(t, p, 0, 1);
    EcomEncodedOther(t, p, 0, 2);
    assert e.columns[0] == t.columns[0];
  }

  /** The cast and the drops on the three-row table of ages: no row is dropped. */
  lemma ExampleAgeDrops(t: Table, p: Parsers)
    requires NormalizeLabels(t.labels) == ["age"]
    requires t.columns == [[Num(5.0), Num(50.0), Num(150.0)]] && t.height == 3
    ensures var e := EcomEncoded(t, p);
            e.labels == ["age"] && e.height == 3 && e.columns[0] == [Num(5.0), Num(50.0), Num(150.0)]
    ensures CriticalMask(t, p) == [true, true, true]
  {
    ExampleAgeEncoded(t, p);
    var crit := CriticalMask(t, p);
    assert CriticalFields(EcomEncoded(t, p).labels) == [];
    assert crit[0] && crit[1] && crit[2] by {
      assert t.columns[0][0] != Missing && t.columns[0][1] != Missing && t.columns[0][2] != Missing;
    }
  }

  /** Ages 5, 50 and 150 under a label that normalises to `age` (such as that
      of `ExampleAgeLabels`): only the row of age 50 is left, the age check
      prints 2, and the amount check, with no such column, prints nothing. */
  lemma EcomAgeExample(t: Table, p: Parsers)
    requires NormalizeLabels(t.labels) == ["age"]
    requires t.columns == [[Num(5.0), Num(50.0), Num(150.0)]] && t.height == 3
    ensures CleanEcommerce(t, p) == EcommerceRun(Ok(Table(["age"], [[Num(50.0)]], 1)), Some(2), None)
  {
    CleanEcommerceIsReference(t, p);
    ExampleAgeDrops(t, p);
    ExampleAgeChecks(EcomEncoded(t, p), CriticalMask(t, p));
  }

  /* ---------------------------------------------------------------------- */
  /* The cleaner on frame objects                                           */
  /* ---------------------------------------------------------------------- */

  /** The casts of `order_date`, `price` and `quantity` on a frame, in place. */
  method CastFrame(frame: Frame, p: Parsers)
    requires frame.Valid()
    modifies frame
    ensures frame.Valid() && frame.Value() == CastColumns(old(frame.Value()), p)
  {
    if "order_date" in frame.labels {
      frame.Assign("order_date", DateCoercion(p));
    }
    if "price" in frame.labels {
      frame.Assign("price", NumberCoercion(p));
    }
    if "quantity" in frame.labels {
      frame.Assign("quantity", NumberCoercion(p));
    }
  }

  /** The steps up to the casts: the argument frame's labels are normalised in
      place, and a new frame holds the rows not all missing, cast. */
  method PrepareEcomFrame(df: Frame, p: Parsers) returns (frame: Frame)
    requires df.Valid()
    modifies df
    ensures df.Valid() && df.labels == NormalizeLabels(old(df.labels))
    ensures df.columns == old(df.columns) && df.height == old(df.height)
    ensures fresh(frame) && frame.Valid() && frame.Value() == EcomPrepared(old(df.Value()), p)
  {
    var same := NormalizeColumns(df);
    frame := same.Select(NotAllMissing(same.Value()));
    CastFrame(frame, p);
  }

  /** The critical drop on a new frame, then the `transaction_date` cast on it. */
  method CheckFrame(frame: Frame, p: Parsers) returns (r: Frame)
    requires frame.Valid()
    ensures fresh(r) && r.Valid() && r.Value() == EcomChecked(frame.Value(), p)
  {
    var critical := CriticalFields(frame.labels);
    r := frame.Select(NoneMissingIn(frame.Value(), critical));
    if "transaction_date" in r.labels {
      r.Assign("transaction_date", DateCoercion(p));
    }
  }

  /** One validation step on a frame: the frame itself when the column is
      absent, the error when a cell cannot be compared, otherwise a new frame
      of the rows that pass, with the count printed. */
  method ValidateFrame(frame: Frame, name: string, test: Cell -> bool) returns (r: Result<Frame>, removed: Option<int>)
    requires frame.Valid()
    ensures var check := Validate(frame.Value(), name, test);
            && removed == check.removed
            && (check.result.Fail? ==> r == Fail(check.result.error))
            && (check.result.Ok? ==> r.Ok? && r.value.Valid() && r.value.Value() == check.result.value)
    ensures r.Ok? ==> r.value == frame || fresh(r.value)
  {
    if name !in frame.labels {
      return Ok(frame), None;
    }
    if ColumnHas(frame.Value(), name, Incomparable) {
      return Fail(TypeError(name)), None;
    }
    var before := frame.height;
    var kept := frame.Select(ColumnMask(frame.Value(), name, test));
    removed := Some(before - kept.height);
    r := Ok(kept);
  }

  /** clean_ecommerce_data: the argument frame's labels are normalised in
      place; the rest works on new frames, and the two counts are what the
      function prints. */
  method CleanEcommerceData(df: Frame, p: Parsers) returns (r: Result<Frame>, ageRemoved: Option<int>, amountRemoved: Option<int>)
    requires df.Valid()
    modifies df
    ensures df.Valid() && df.labels == NormalizeLabels(old(df.labels))
    ensures df.columns == old(df.columns) && df.height == old(df.height)
    ensures var run := CleanEcommerce(old(df.Value()), p);
            && ageRemoved == run.ageRemoved && amountRemoved == run.amountRemoved
            && (run.result.Fail? ==> r == Fail(run.result.error))
            && (run.result.Ok? ==> r.Ok? && r.value.Valid() && r.value.Value() == run.result.value)
    ensures r.Ok? ==> fresh(r.value)
  {
    var frame := PrepareEcomFrame(df, p);
    frame := CheckFrame(frame, p);
    r, ageRemoved := ValidateFrame(frame, "age", InAgeRange);
    if r.Fail? {
      return r, ageRemoved, None;
    }
    r, amountRemoved := ValidateFrame(r.value, "purchase_amount", PositiveAmount);
  }
}
