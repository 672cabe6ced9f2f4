/** Cells of a data frame, the missing marker, and the two library coercions
    (numeric and date parsing) that both cleaners call. */
module Cells {

  datatype Option<T> = None | Some(value: T)

  /** The errors the cleaning functions can raise. */
  datatype CleanError =
    | KeyError(column: string)    // a label asked for in a row filter is not a column
    | TypeError(column: string)   // a column holds a value that cannot be compared with a number

  datatype Result<T> = Ok(value: T) | Fail(error: CleanError)

  /** One cell of a table. `Missing` stands for NaN, None and NaT alike;
      `Date` holds an instant as nanoseconds from the Unix epoch. */
  datatype Cell =
    | Missing
    | Str(s: string)
    | Num(x: real)
    | Bool(b: bool)
    | Date(at: int)

  /** The parsers behind pd.to_numeric and pd.to_datetime, applied to one string.
      They are library code: the model takes them as parameters and assumes
      nothing about them beyond being total functions. */
  datatype Parsers = Parsers(number: string -> Option<real>, date: string -> Option<int>)

  /** Whitespace in the sense of Python's str.isspace, restricted to ASCII. */
  predicate IsSpace(c: char) {
    c == ' ' || ('\t' <= c <= '\r') || ('\U{1C}' <= c <= '\U{1F}')
  }

  /** A string that is empty or made only of whitespace. */
  predicate IsBlank(s: string) {
    forall i :: 0 <= i < |s| ==> IsSpace(s[i])
  }

  /** pd.to_numeric(..., errors="coerce") on one cell: a string is parsed, an
      unparsable string becomes missing, numbers and missing stay as they are,
      and instants become their nanosecond count. A boolean among other values
      becomes 1 or 0; a column of booleans only is returned unchanged, which
      the model, holding no dtypes, does not distinguish. */
  function ToNumeric(c: Cell, p: Parsers): (r: Cell)
    ensures r.Missing? || r.Num?
    ensures r.Missing? <==> c.Missing? || (c.Str? && p.number(c.s).None?)
    ensures c.Str? && p.number(c.s).Some? ==> r == Num(p.number(c.s).value)
    ensures c.Num? ==> r == c
  {
    match c
    case Missing => Missing
    case Str(s) => (match p.number(s) case Some(x) => Num(x) case None => Missing)
    case Num(_) => c
    case Bool(b) => Num(if b then 1.0 else 0.0)
    case Date(at) => Num(at as real)
  }

  /** A real cut to an integer toward zero, as a float-to-integer cast does. */
  function TruncateTowardZero(x: real): (n: int)
    ensures x >= 0.0 ==> n as real <= x < n as real + 1.0
    ensures x < 0.0 ==> n as real - 1.0 < x <= n as real
  {
    if x >= 0.0 then x.Floor else -((-x).Floor)
  }

  /** The largest nanosecond count an instant can hold: 2^63 - 1. The most
      negative int64, -2^63, is reserved for NaT, so instants are symmetric. */
  const MaxInstant: int := 0x7FFF_FFFF_FFFF_FFFF

  /** A nanosecond count that fits an instant (a 64-bit integer other than NaT). */
  predicate InInstantRange(n: int) {
    -MaxInstant <= n <= MaxInstant
  }

  /** pd.to_datetime(..., errors="coerce") on one cell: a string is parsed, an
      unparsable string becomes missing, instants and missing stay as they are,
      a boolean becomes missing, and a number counts nanoseconds from the
      epoch, cut toward zero; one out of the 64-bit range becomes missing. */
  function ToDatetime(c: Cell, p: Parsers): (r: Cell)
    ensures r.Missing? || r.Date?
    ensures r.Missing? <==>
              || c.Missing? || c.Bool? || (c.Str? && p.date(c.s).None?)
              || (c.Num? && !InInstantRange(TruncateTowardZero(c.x)))
    ensures c.Str? && p.date(c.s).Some? ==> r == Date(p.date(c.s).value)
    ensures c.Num? && InInstantRange(TruncateTowardZero(c.x)) ==> r == Date(TruncateTowardZero(c.x))
    ensures c.Date? ==> r == c
  {
    match c
    case Missing => Missing
    case Str(s) => (match p.date(s) case Some(d) => Date(d) case None => Missing)
    case Num(x) => (var n := TruncateTowardZero(x); if InInstantRange(n) then Date(n) else Missing)
    case Bool(_) => Missing
    case Date(_) => c
  }

  /** A number past the 64-bit nanosecond range becomes missing, and a
      negative fraction of a nanosecond is cut toward zero, not rounded down. */
  lemma ToDatetimeNumberBounds(p: Parsers)
    ensures ToDatetime(Num(10000000000000000000.0), p) == Missing
    ensures ToDatetime(Num(-1.5), p) == Date(-1)
    ensures ToDatetime(Num(9223372036854775807.0), p) == Date(MaxInstant)
  {
  }

  /** The numeric coercion as a value that can be applied to a whole column. */
  function NumberCoercion(p: Parsers): Cell -> Cell {
    c => ToNumeric(c, p)
  }

  /** The date coercion as a value that can be applied to a whole column. */
  function DateCoercion(p: Parsers): Cell -> Cell {
    c => ToDatetime(c, p)
  }
}
