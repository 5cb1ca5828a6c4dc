/** Rows of JSON values to Arrow columns (src/arrow_conversion/converter.rs:82-215,
    src/arrow_conversion/builders.rs:41-139, 194-404, src/error.rs:162-237).

    Parsers that live elsewhere (dates, timestamps, intervals, floats, decimal text) are parameters;
    everything the loops, the transpositions and the error reports do is here. */
module ResultConversion {
  import opened Text
  import NumberText

  // ---------------------------------------------------------------------------------------------
  // Values and types
  // ---------------------------------------------------------------------------------------------

  /** A JSON value: integers that fit 64 bits, other numbers, and arrays or objects as `JOther`. */
  datatype Json = JNull | JBool(b: bool) | JInt(n: int) | JFloat(text: string) | JText(s: string) | JOther(json: string)

  /** A double: the one nearest to an integer, or the one that a text denotes. */
  datatype Float = NearestTo(n: int) | Written(text: string)

  datatype Cell =
    | CNull
    | CBool(b: bool)
    | CText(s: string)
    | CInt(n: int)
    | CFloat(float: Float)
    | CInterval(months: int, days: int, nanos: int)
    | CBytes(bytes: seq<NumberText.Byte>)

  datatype ExasolType =
    | Boolean
    | Character
    | Decimal(precision: nat, scale: nat)
    | Double
    | Date
    | Timestamp(withLocalTimeZone: bool)
    | Interval
    | Binary

  datatype Reason = Reason(text: string, overflow: bool)

  /** What other files decide. `target` is the Arrow type an Exasol type maps to, `decimalType` says
      whether Arrow accepts a precision and scale. */
  datatype Library = Library(
    target: ExasolType -> Result<string, string>,
    decimalType: (nat, nat) -> bool,
    decimal: (string, nat) -> Result<int, string>,
    decimalOfFloat: (string, nat) -> Option<int>,
    float: string -> Option<string>,
    date: string -> Result<int, string>,
    timestamp: string -> Result<int, string>,
    interval: string -> Result<(int, int, int), string>)

  function Invalid(text: string): Result<Cell, Reason> { Err(Reason(text, false)) }

  function Number(r: Result<int, string>): Result<Cell, Reason> {
    if r.Ok? then Ok(CInt(r.value)) else Invalid(r.error)
  }

  function DecimalOf(value: Json, precision: nat, scale: nat, lib: Library): Result<Cell, Reason> {
    match value
    case JInt(n) => Ok(CInt(n * NumberText.Pow10(scale)))
    case JFloat(text) =>
      var n := lib.decimalOfFloat(text, scale);
      if n.None? then Err(Reason("Value does not fit in 128 bits", true)) else Ok(CInt(n.value))
    case JText(s) =>
      if NumberText.ValidatePrecision(s, precision).Fits? then Number(lib.decimal(s, scale))
      else Err(Reason("digits exceed precision", true))
    case _ => Invalid("Expected numeric value")
  }

  /** What a value that is not null becomes in a column of a type. */
  function CellOf(t: ExasolType, value: Json, lib: Library): Result<Cell, Reason> {
    match t
    case Boolean => if value.JBool? then Ok(CBool(value.b)) else Invalid("Expected boolean")
    case Character => if value.JText? then Ok(CText(value.s)) else Invalid("Expected string")
    case Decimal(precision, scale) => DecimalOf(value, precision, scale, lib)
    case Double =>
      (match value
       case JInt(n) => Ok(CFloat(NearestTo(n)))
       case JFloat(text) => Ok(CFloat(Written(text)))
       case JText(s) =>
         var f := lib.float(s);
         if f.None? then Invalid("Invalid float value") else Ok(CFloat(Written(f.value)))
       case _ => Invalid("Expected number"))
    case Date => if value.JText? then Number(lib.date(value.s)) else Invalid("Expected date string")
    case Timestamp(_) => if value.JText? then Number(lib.timestamp(value.s)) else Invalid("Expected timestamp string")
    case Interval =>
      if !value.JText? then Invalid("Expected interval string")
      else
        var i := lib.interval(value.s);
        if i.Err? then Invalid(i.error) else Ok(CInterval(i.value.0, i.value.1, i.value.2))
    case Binary =>
      if !value.JText? then Invalid("Expected hex string")
      else
        var bytes := NumberText.DecodeHex(value.s);
        if bytes.None? then Invalid("Invalid hex string") else Ok(CBytes(bytes.value))
  }

  function Convert(t: ExasolType, value: Json, lib: Library): Result<Cell, Reason> {
    if value.JNull? then Ok(CNull) else CellOf(t, value, lib)
  }

  lemma OnlyNullIsNull(t: ExasolType, value: Json, lib: Library)
    requires Convert(t, value, lib).Ok?
    ensures Convert(t, value, lib).value == CNull <==> value == JNull
  {
    hide NumberText.ValidatePrecision, NumberText.DecodeHex;
  }

  lemma {:induction false} DigitsStay(s: string)
    requires NumberText.AllDigits(s)
    ensures NumberText.OnlyDigits(s) == s
  {
    if s != "" {
      DigitsStay(s[..|s| - 1]);
      assert s == s[..|s| - 1] + [s[|s| - 1]];
    }
  }

  // ---------------------------------------------------------------------------------------------
  // What a cell denotes
  // ---------------------------------------------------------------------------------------------

  /** A whole number with `scale` zeros behind the point, as a column of that scale shows it. */
  function WholeNumberText(n: int, scale: nat): string {
    NumberText.SignedDecimal(n) + if scale == 0 then "" else "." + Repeat('0', scale)
  }

  /** The cell shows the value in a column of type `t`. */
  predicate Denotes(t: ExasolType, value: Json, lib: Library, cell: Cell) {
    match value
    case JNull => cell == CNull
    case JBool(b) => t.Boolean? && cell == CBool(b)
    case JInt(n) =>
      if t.Decimal? then
        cell.CInt? && (t.scale <= NumberText.MAX_DECIMAL128_SCALE ==>
          NumberText.FormatDecimal(cell.n, t.scale) == WholeNumberText(n, t.scale))
      else t.Double? && cell == CFloat(NearestTo(n))
    case JFloat(text) =>
      if t.Decimal? then cell.CInt? && lib.decimalOfFloat(text, t.scale) == Some(cell.n)
      else t.Double? && cell == CFloat(Written(text))
    case JText(s) =>
      (match t
       case Boolean => false
       case Character => cell == CText(s)
       case Decimal(precision, scale) =>
         cell.CInt? && lib.decimal(s, scale) == Ok(cell.n) && NumberText.ValidatePrecision(s, precision).Fits?
       case Double => cell.CFloat? && cell.float.Written? && lib.float(s) == Some(cell.float.text)
       case Date => cell.CInt? && lib.date(s) == Ok(cell.n)
       case Timestamp(_) => cell.CInt? && lib.timestamp(s) == Ok(cell.n)
       case Interval => cell.CInterval? && lib.interval(s) == Ok((cell.months, cell.days, cell.nanos))
       case Binary => cell.CBytes? && ('+' !in s ==> NumberText.SpellsHex(s, cell.bytes)))
    case JOther(_) => false
  }

  /** No cell of a column of type `t` shows the value. */
  ghost predicate IsRefused(t: ExasolType, value: Json, lib: Library) {
    match value
    case JNull => false
    case JBool(_) => !t.Boolean?
    case JInt(_) => !t.Decimal? && !t.Double?
    case JFloat(text) => if t.Decimal? then lib.decimalOfFloat(text, t.scale).None? else !t.Double?
    case JText(s) =>
      (match t
       case Boolean => true
       case Character => false
       case Decimal(precision, scale) => lib.decimal(s, scale).Err? || !NumberText.ValidatePrecision(s, precision).Fits?
       case Double => lib.float(s).None?
       case Date => lib.date(s).Err?
       case Timestamp(_) => lib.timestamp(s).Err?
       case Interval => lib.interval(s).Err?
       case Binary => forall bytes :: !NumberText.SpellsHex(s, bytes))
    case JOther(_) => true
  }

  /** A number that a decimal column cannot hold; every other refusal is of an invalid value. */
  predicate IsTooLarge(t: ExasolType, value: Json) {
    t.Decimal? && (value.JFloat? || (value.JText? && !NumberText.ValidatePrecision(value.s, t.precision).Fits?))
  }

  lemma QuotientOfProduct(n: int, p: nat)
    requires p > 0
    ensures NumberText.TruncatedQuotient(n * p, p) == n && NumberText.TruncatedRemainder(n * p, p) == 0
  {
    if n >= 0 {
      DivideProduct(n, p);
    } else {
      DivideProduct(-n, p);
      assert -(n * p) == (-n) * p;
    }
  }

  lemma Multiple(d: int, p: int)
    requires p > 0
    ensures (d >= 1 ==> d * p >= p) && (d <= -1 ==> d * p <= -p)
  {
  }

  lemma SmallMultiple(d: int, p: int)
    requires p > 0 && -p < d * p < p
    ensures d == 0
  {
    Multiple(d, p);
  }

  lemma DivideProduct(n: nat, p: nat)
    requires p > 0
    ensures n * p >= 0 && n * p / p == n && (n * p == 0 ==> n == 0)
  {
    var a := n * p;
    var q := a / p;
    assert a == q * p + a % p;
    Difference(n, q, p);
    SmallMultiple(n - q, p);
    if a == 0 { SmallMultiple(n, p); }
  }

  lemma Difference(n: int, q: int, p: nat)
    ensures (n - q) * p == n * p - q * p
  {
  }

  lemma ZeroFraction(scale: nat)
    requires scale > 0
    ensures NumberText.ZeroPadded(NumberText.Decimal(0), scale) == Repeat('0', scale)
  {
    assert NumberText.Decimal(0) == "0";
  }

  /** An integer scaled to its column shows as itself, with only zeros behind the point. */
  lemma ScaledIntegerIsWhole(n: int, scale: nat)
    requires scale <= NumberText.MAX_DECIMAL128_SCALE
    ensures NumberText.FormatDecimal(n * NumberText.Pow10(scale), scale) == WholeNumberText(n, scale)
  {
    hide NumberText.Decimal, NumberText.ZeroPadded, NumberText.TruncatedQuotient, NumberText.TruncatedRemainder;
    var p := NumberText.Pow10(scale);
    if scale == 0 {
      assert n * p == n && NumberText.SignedDecimal(n) + "" == NumberText.SignedDecimal(n);
    } else {
      QuotientOfProduct(n, p);
      ZeroFraction(scale);
      assert !(n * p < 0 && n == 0);
      var whole := NumberText.SignedDecimal(n);
      assert "" + whole + "." + Repeat('0', scale) == whole + ("." + Repeat('0', scale));
    }
  }

  /** A value converts exactly to a cell that shows it, and fails exactly when none does. */
  lemma ConvertDenotes(t: ExasolType, value: Json, lib: Library)
    ensures match Convert(t, value, lib)
            case Ok(cell) => Denotes(t, value, lib, cell)
            case Err(reason) => IsRefused(t, value, lib) && (reason.overflow <==> IsTooLarge(t, value))
  {
    hide NumberText.FormatDecimal, NumberText.ValidatePrecision, NumberText.DecodeHex, NumberText.SpellsHex, WholeNumberText;
    if value.JInt? && t.Decimal? && t.scale <= NumberText.MAX_DECIMAL128_SCALE {
      ScaledIntegerIsWhole(value.n, t.scale);
    }
    if value.JText? && t.Binary? {
      var bytes := NumberText.DecodeHex(value.s);
      if bytes.Some? {
        NumberText.DecodeHexIsExact(value.s, bytes.value);
      } else {
        forall other ensures !NumberText.SpellsHex(value.s, other) { NumberText.DecodeHexIsExact(value.s, other); }
      }
    }
  }

  /** A JSON integer is never held against the precision, while the same number as text is refused
      exactly when it is at least 10^precision. */
  lemma IntegersSkipThePrecisionCheck(n: nat, precision: nat, scale: nat, lib: Library)
    requires precision >= 1
    ensures DecimalOf(JInt(n), precision, scale, lib).Ok?
    ensures NumberText.ValidatePrecision(NumberText.Decimal(n), precision).TooManySignificant? <==> n >= NumberText.Pow10(precision)
    ensures n >= NumberText.Pow10(precision) ==> DecimalOf(JText(NumberText.Decimal(n)), precision, scale, lib).Err?
  {
    hide NumberText.ValidatePrecision, NumberText.Decimal, NumberText.Value, NumberText.AllDigits, NumberText.OnlyDigits;
    NumberText.DecimalSpells(n);
    DigitsStay(NumberText.Decimal(n));
    NumberText.PrecisionCheckIsExact(NumberText.Decimal(n), precision);
  }

  // ---------------------------------------------------------------------------------------------
  // One column
  // ---------------------------------------------------------------------------------------------

  datatype ColumnError = Value(row: nat, reason: Reason) | Other(message: string)

  datatype ConversionError =
    | SchemaMismatch(found: nat, expected: nat)
    | ArrowError(message: string)
    | UnsupportedType(message: string)
    | BadValue(row: nat, column: nat, name: string, value: Json, target: string, reason: Reason)

  /** The cells of a column up to the first value that does not convert. */
  function Cells(t: ExasolType, values: seq<Json>, lib: Library): Result<seq<Cell>, ColumnError> {
    if values == [] then Ok([])
    else
      var n := |values| - 1;
      var before := Cells(t, values[..n], lib);
      if before.Err? then before
      else
        var cell := Convert(t, values[n], lib);
        if cell.Err? then Err(Value(n, cell.error)) else Ok(before.value + [cell.value])
  }

  function TypedArray(t: ExasolType, values: seq<Json>, lib: Library): Result<seq<Cell>, ColumnError> {
    if t.Decimal? && !lib.decimalType(t.precision, t.scale) then Err(Other("invalid precision or scale"))
    else Cells(t, values, lib)
  }

  /** The typed loops: append a null, a converted value, or stop at the first that fails. */
  method BuildTypedArray(t: ExasolType, values: seq<Json>, lib: Library) returns (r: Result<seq<Cell>, ColumnError>)
    ensures r == TypedArray(t, values, lib)
  {
    if t.Decimal? && !lib.decimalType(t.precision, t.scale) {
      return Err(Other("invalid precision or scale"));
    }
    hide CellOf;
    var builder: seq<Cell> := [];
    assert values[..|values|] == values;
    for row := 0 to |values|
      invariant Cells(t, values[..row], lib) == Ok(builder)
    {
      assert values[..row + 1][..row] == values[..row];
      if values[row].JNull? {
        builder := builder + [CNull];
      } else {
        var cell := CellOf(t, values[row], lib);
        if cell.Err? {
          FirstFailureStops(t, values, lib, row);
          return Err(Value(row, cell.error));
        }
        builder := builder + [cell.value];
      }
    }
    r := Ok(builder);
  }

  lemma {:induction false} FirstFailureStops(t: ExasolType, values: seq<Json>, lib: Library, row: nat)
    requires row < |values| && Cells(t, values[..row], lib).Ok? && Convert(t, values[row], lib).Err?
    ensures Cells(t, values, lib) == Err(Value(row, Convert(t, values[row], lib).error))
  {
    hide Convert;
    var n := |values| - 1;
    if row < n {
      assert values[..n][..row] == values[..row];
      FirstFailureStops(t, values[..n], lib, row);
    }
  }

  /** Every value has its cell, in place. */
  predicate AllConverted(t: ExasolType, values: seq<Json>, lib: Library, cells: seq<Cell>) {
    |cells| == |values| && forall i :: 0 <= i < |values| ==> Convert(t, values[i], lib) == Ok(cells[i])
  }

  /** `row` is the first whose value does not convert. */
  predicate IsFirstFailure(t: ExasolType, values: seq<Json>, lib: Library, row: nat, reason: Reason) {
    row < |values| && Convert(t, values[row], lib) == Err(reason) &&
    forall i :: 0 <= i < row ==> Convert(t, values[i], lib).Ok?
  }

  lemma {:induction false} CellsAreExact(t: ExasolType, values: seq<Json>, lib: Library)
    ensures match Cells(t, values, lib)
            case Ok(cells) => AllConverted(t, values, lib, cells)
            case Err(e) => e.Value? && IsFirstFailure(t, values, lib, e.row, e.reason)
  {
    hide Convert;
    if values != [] {
      CellsAreExact(t, values[..|values| - 1], lib);
    }
  }

  /** The failure of a column with its position and the value that failed. */
  function WithContext(e: ColumnError, column: nat, name: string, values: seq<Json>, target: string): ConversionError {
    match e
    case Other(message) => ArrowError(message)
    case Value(row, reason) => BadValue(row, column, name, if row < |values| then values[row] else JNull, target, reason)
  }

  function BuildArray(t: ExasolType, values: seq<Json>, column: nat, name: string, lib: Library)
    : Result<seq<Cell>, ConversionError>
  {
    var target := lib.target(t);
    if target.Err? then Err(UnsupportedType(target.error))
    else
      var built := TypedArray(t, values, lib);
      if built.Err? then Err(WithContext(built.error, column, name, values, target.value)) else Ok(built.value)
  }

  /** A built column has one cell per value, null exactly where the value is; a value that fails is
      the first one, and is named with its row, its column and itself. */
  lemma ColumnIsExact(t: ExasolType, values: seq<Json>, column: nat, name: string, lib: Library)
    ensures match BuildArray(t, values, column, name, lib)
            case Ok(cells) =>
              AllConverted(t, values, lib, cells) && forall i :: 0 <= i < |values| ==> (cells[i] == CNull <==> values[i] == JNull)
            case Err(BadValue(row, c, n, value, target, reason)) =>
              c == column && n == name && lib.target(t) == Ok(target) &&
              IsFirstFailure(t, values, lib, row, reason) && value == values[row]
            case Err(_) => lib.target(t).Err? || (t.Decimal? && !lib.decimalType(t.precision, t.scale))
  {
    hide Convert;
    CellsAreExact(t, values, lib);
    var built := BuildArray(t, values, column, name, lib);
    if built.Ok? {
      forall i | 0 <= i < |values|
        ensures built.value[i] == CNull <==> values[i] == JNull
      {
        OnlyNullIsNull(t, values[i], lib);
      }
    }
  }

  /** So each cell of a built column shows the value in its row. */
  lemma ColumnDenotes(t: ExasolType, values: seq<Json>, column: nat, name: string, lib: Library)
    ensures match BuildArray(t, values, column, name, lib)
            case Ok(cells) => |cells| == |values| && forall i :: 0 <= i < |values| ==> Denotes(t, values[i], lib, cells[i])
            case Err(BadValue(row, _, _, value, _, reason)) =>
              row < |values| && value == values[row] && IsRefused(t, value, lib) && (reason.overflow <==> IsTooLarge(t, value))
            case Err(_) => true
  {
    hide Convert, Denotes, IsRefused, IsTooLarge;
    ColumnIsExact(t, values, column, name, lib);
    match BuildArray(t, values, column, name, lib)
    case Ok(cells) =>
      forall i | 0 <= i < |values| ensures Denotes(t, values[i], lib, cells[i]) {
        ConvertDenotes(t, values[i], lib);
      }
    case Err(e) =>
      if e.BadValue? { ConvertDenotes(t, values[e.row], lib); }
  }

  // ---------------------------------------------------------------------------------------------
  // All columns
  // ---------------------------------------------------------------------------------------------

  datatype Column = Column(name: string, exasolType: ExasolType)

  type Rows = seq<seq<Json>>

  function BuildArrays(schema: seq<Column>, columns: seq<seq<Json>>, lib: Library): Result<seq<seq<Cell>>, ConversionError>
    requires |columns| == |schema|
  {
    if schema == [] then Ok([])
    else
      var n := |schema| - 1;
      var before := BuildArrays(schema[..n], columns[..n], lib);
      if before.Err? then before
      else
        var built := BuildArray(schema[n].exasolType, columns[n], n, schema[n].name, lib);
        if built.Err? then Err(built.error) else Ok(before.value + [built.value])
  }

  predicate SameLengths<T>(columns: seq<seq<T>>) {
    forall c, d :: 0 <= c < |columns| && 0 <= d < |columns| ==> |columns[c]| == |columns[d]|
  }

  /** Arrow refuses columns of different lengths. */
  function BuildRecordBatch(schema: seq<Column>, columns: seq<seq<Json>>, lib: Library): Result<seq<seq<Cell>>, ConversionError>
    requires |columns| == |schema|
  {
    var arrays := BuildArrays(schema, columns, lib);
    if arrays.Err? then arrays
    else if SameLengths(arrays.value) then arrays
    else Err(ArrowError("all columns in a record batch must have the same length"))
  }

  function ArrayOf(schema: seq<Column>, columns: seq<seq<Json>>, c: nat, lib: Library): Result<seq<Cell>, ConversionError>
    requires c < |columns| == |schema|
  {
    BuildArray(schema[c].exasolType, columns[c], c, schema[c].name, lib)
  }

  /** All columns build, or the error is that of the first column that does not. */
  lemma {:induction false} ArraysAreExact(schema: seq<Column>, columns: seq<seq<Json>>, lib: Library)
    requires |columns| == |schema|
    ensures match BuildArrays(schema, columns, lib)
            case Ok(arrays) => |arrays| == |schema| && forall c :: 0 <= c < |schema| ==> ArrayOf(schema, columns, c, lib) == Ok(arrays[c])
            case Err(e) =>
              exists c :: 0 <= c < |schema| && ArrayOf(schema, columns, c, lib) == Err(e) &&
                forall d :: 0 <= d < c ==> ArrayOf(schema, columns, d, lib).Ok?
  {
    hide BuildArray;
    if schema != [] {
      var n := |schema| - 1;
      ArraysAreExact(schema[..n], columns[..n], lib);
      forall c | 0 <= c < n
        ensures ArrayOf(schema[..n], columns[..n], c, lib) == ArrayOf(schema, columns, c, lib)
      {
      }
      var before := BuildArrays(schema[..n], columns[..n], lib);
      if before.Err? {
        var c :| 0 <= c < n && ArrayOf(schema[..n], columns[..n], c, lib) == Err(before.error) &&
          forall d :: 0 <= d < c ==> ArrayOf(schema[..n], columns[..n], d, lib).Ok?;
        assert ArrayOf(schema, columns, c, lib) == Err(before.error);
      } else if ArrayOf(schema, columns, n, lib).Err? {
        assert ArrayOf(schema, columns, n, lib) == Err(BuildArrays(schema, columns, lib).error);
      }
    }
  }

  /** A value error of a batch is at the least failing column, and in it at the least failing row,
      with the value that stands there. */
  lemma ErrorIsFirst(schema: seq<Column>, columns: seq<seq<Json>>, lib: Library)
    requires |columns| == |schema|
    requires BuildRecordBatch(schema, columns, lib).Err? && BuildRecordBatch(schema, columns, lib).error.BadValue?
    ensures var e := BuildRecordBatch(schema, columns, lib).error;
            e.column < |schema| && e.row < |columns[e.column]| && e.value == columns[e.column][e.row] &&
            e.name == schema[e.column].name &&
            IsFirstFailure(schema[e.column].exasolType, columns[e.column], lib, e.row, e.reason) &&
            forall d :: 0 <= d < e.column ==> ArrayOf(schema, columns, d, lib).Ok?
  {
    hide BuildArray, IsFirstFailure, Convert;
    ArraysAreExact(schema, columns, lib);
    var e := BuildRecordBatch(schema, columns, lib).error;
    var c :| 0 <= c < |schema| && ArrayOf(schema, columns, c, lib) == Err(e) &&
      forall d :: 0 <= d < c ==> ArrayOf(schema, columns, d, lib).Ok?;
    ColumnIsExact(schema[c].exasolType, columns[c], c, schema[c].name, lib);
    FirstFailureInside(schema[c].exasolType, columns[c], lib, e.row, e.reason);
  }

  lemma FirstFailureInside(t: ExasolType, values: seq<Json>, lib: Library, row: nat, reason: Reason)
    requires IsFirstFailure(t, values, lib, row, reason)
    ensures row < |values|
  {
  }

  // ---------------------------------------------------------------------------------------------
  // Transposition
  // ---------------------------------------------------------------------------------------------

  function CellAt(row: seq<Json>, c: nat): Json { if c < |row| then row[c] else JNull }

  /** Column `c` with a null where a row is too short. */
  function PaddedColumn(rows: Rows, c: nat): seq<Json> {
    seq(|rows|, r requires 0 <= r < |rows| => CellAt(rows[r], c))
  }

  function BorrowedColumns(rows: Rows, n: nat): seq<seq<Json>> { seq(n, c requires 0 <= c < n => PaddedColumn(rows, c)) }

  /** Column `c` of the rows that reach it. */
  function OwnedColumn(rows: Rows, c: nat): seq<Json> {
    if rows == [] then []
    else
      var last := rows[|rows| - 1];
      OwnedColumn(rows[..|rows| - 1], c) + if c < |last| then [last[c]] else []
  }

  function OwnedColumns(rows: Rows, n: nat): seq<seq<Json>> { seq(n, c requires 0 <= c < n => OwnedColumn(rows, c)) }

  datatype Payload = Arrow(batch: seq<seq<Cell>>) | JsonRows(rows: Rows)

  function CheckRowWidth(rows: Rows, n: nat): Option<ConversionError> {
    if rows != [] && |rows[0]| != n then Some(SchemaMismatch(|rows[0]|, n)) else None
  }

  function EmptyBatch(n: nat): seq<seq<Cell>> { seq(n, _ => []) }

  /** The conversion, given how rows become columns. */
  function ConvertWith(payload: Payload, schema: seq<Column>, columns: seq<seq<Json>>, lib: Library)
    : Result<seq<seq<Cell>>, ConversionError>
    requires |columns| == |schema|
  {
    match payload
    case Arrow(batch) => Ok(batch)
    case JsonRows(rows) =>
      if rows == [] then Ok(EmptyBatch(|schema|))
      else
        var mismatch := CheckRowWidth(rows, |schema|);
        if mismatch.Some? then Err(mismatch.value) else BuildRecordBatch(schema, columns, lib)
  }

  function RowsOf(payload: Payload): Rows { if payload.Arrow? then [] else payload.rows }

  function ConvertBorrowed(payload: Payload, schema: seq<Column>, lib: Library): Result<seq<seq<Cell>>, ConversionError> {
    ConvertWith(payload, schema, BorrowedColumns(RowsOf(payload), |schema|), lib)
  }

  function ConvertOwned(payload: Payload, schema: seq<Column>, lib: Library): Result<seq<seq<Cell>>, ConversionError> {
    ConvertWith(payload, schema, OwnedColumns(RowsOf(payload), |schema|), lib)
  }

  /** The consuming conversion: it drains every row into the columns it reaches. */
  method ConvertToRecordBatchOwned(payload: Payload, schema: seq<Column>, lib: Library)
    returns (r: Result<seq<seq<Cell>>, ConversionError>)
    ensures r == ConvertOwned(payload, schema, lib)
  {
    hide BuildRecordBatch;
    if payload.Arrow? {
      return Ok(payload.batch);
    }
    var rows, n := payload.rows, |schema|;
    if rows == [] {
      return Ok(EmptyBatch(n));
    }
    var mismatch := CheckRowWidth(rows, n);
    if mismatch.Some? {
      return Err(mismatch.value);
    }
    var columns: seq<seq<Json>> := seq(n, _ => []);
    assert columns == OwnedColumns(rows[..0], n);
    for k := 0 to |rows|
      invariant columns == OwnedColumns(rows[..k], n)
    {
      var row := rows[k];
      ghost var before := columns;
      for c := 0 to |row|
        invariant |columns| == n
        invariant forall d :: 0 <= d < n ==> columns[d] == before[d] + if d < c then [row[d]] else []
      {
        if c < n {
          columns := columns[c := columns[c] + [row[c]]];
        }
      }
      assert rows[..k + 1][..k] == rows[..k];
      assert columns == OwnedColumns(rows[..k + 1], n);
    }
    assert rows[..|rows|] == rows;
    r := BuildRecordBatch(schema, columns, lib);
  }

  /** No row has fewer values than there are columns; values beyond the columns do no harm. */
  predicate NoneNarrow(rows: Rows, n: nat) { forall r :: 0 <= r < |rows| ==> |rows[r]| >= n }

  lemma {:induction false} OwnedIsPadded(rows: Rows, c: nat)
    requires forall r :: 0 <= r < |rows| ==> c < |rows[r]|
    ensures OwnedColumn(rows, c) == PaddedColumn(rows, c)
  {
    if rows != [] {
      var n := |rows| - 1;
      OwnedIsPadded(rows[..n], c);
      assert PaddedColumn(rows, c) == PaddedColumn(rows[..n], c) + [rows[n][c]];
    }
  }

  /** The borrowed columns have one value per row, whatever the rows' widths. */
  lemma BorrowedKeepsEveryRow(rows: Rows, n: nat, c: nat)
    requires c < n
    ensures |BorrowedColumns(rows, n)[c]| == |rows|
  {
  }

  /** An owned column has one value for each row that reaches it. */
  lemma {:induction false} OwnedLength(rows: Rows, c: nat)
    ensures |OwnedColumn(rows, c)| <= |rows| && (|OwnedColumn(rows, c)| == |rows| <==> NoneNarrow(rows, c + 1))
  {
    if rows != [] {
      var n := |rows| - 1;
      OwnedLength(rows[..n], c);
      assert NoneNarrow(rows, c + 1) <==> NoneNarrow(rows[..n], c + 1) && |rows[n]| >= c + 1;
    }
  }

  /** For at least one column both conversions make the same columns exactly when no row is narrower
      than the columns. */
  lemma ColumnsAgreeIff(rows: Rows, n: nat)
    requires n >= 1
    ensures OwnedColumns(rows, n) == BorrowedColumns(rows, n) <==> NoneNarrow(rows, n)
  {
    hide OwnedColumn, PaddedColumn, BorrowedColumns;
    if NoneNarrow(rows, n) {
      SameColumns(rows, n);
    }
    OwnedLength(rows, n - 1);
    BorrowedKeepsEveryRow(rows, n, n - 1);
    assert OwnedColumns(rows, n)[n - 1] == OwnedColumn(rows, n - 1);
  }

  lemma SameColumns(rows: Rows, n: nat)
    requires NoneNarrow(rows, n)
    ensures OwnedColumns(rows, n) == BorrowedColumns(rows, n)
  {
    hide OwnedColumn, PaddedColumn;
    forall c | 0 <= c < n
      ensures OwnedColumn(rows, c) == PaddedColumn(rows, c)
    {
      OwnedIsPadded(rows, c);
    }
  }

  /** Then both conversions give the same batch or the same error; and so they do when the first row
      has another width than the schema. */
  lemma ConversionsAgree(payload: Payload, schema: seq<Column>, lib: Library)
    requires RowsOf(payload) != [] && |RowsOf(payload)[0]| == |schema| ==> NoneNarrow(RowsOf(payload), |schema|)
    ensures ConvertOwned(payload, schema, lib) == ConvertBorrowed(payload, schema, lib)
  {
    hide BuildRecordBatch, OwnedColumns, BorrowedColumns;
    var rows := RowsOf(payload);
    if rows != [] && |rows[0]| == |schema| { SameColumns(rows, |schema|); }
  }

  // ---------------------------------------------------------------------------------------------
  // Ragged rows
  // ---------------------------------------------------------------------------------------------

  /** A row that has some values, but fewer than there are columns. */
  predicate IsShort(row: seq<Json>, n: nat) { 0 < |row| < n }

  function NonEmpty(rows: Rows): Rows {
    if rows == [] then []
    else NonEmpty(rows[..|rows| - 1]) + if rows[|rows| - 1] != [] then [rows[|rows| - 1]] else []
  }

  predicate NoShortRow(rows: Rows, n: nat) { forall row :: row in rows ==> !IsShort(row, n) }

  lemma {:induction false} ColumnsShrink(rows: Rows, c: nat, d: nat)
    requires c <= d
    ensures |OwnedColumn(rows, d)| <= |OwnedColumn(rows, c)|
  {
    if rows != [] { ColumnsShrink(rows[..|rows| - 1], c, d); }
  }

  /** The last column is as long as the first exactly when no row is short. */
  lemma {:induction false} EndColumnsAgree(rows: Rows, n: nat)
    requires n >= 1
    ensures |OwnedColumn(rows, n - 1)| == |OwnedColumn(rows, 0)| <==> NoShortRow(rows, n)
  {
    if rows != [] {
      var init, last := rows[..|rows| - 1], rows[|rows| - 1];
      EndColumnsAgree(init, n);
      ColumnsShrink(init, 0, n - 1);
      assert rows == init + [last];
      assert NoShortRow(rows, n) <==> NoShortRow(init, n) && !IsShort(last, n);
    }
  }

  lemma {:induction false} OwnedSkipsEmptyRows(rows: Rows, n: nat, c: nat)
    requires c < n && NoShortRow(rows, n)
    ensures OwnedColumn(rows, c) == PaddedColumn(NonEmpty(rows), c)
  {
    if rows != [] {
      var init, last := rows[..|rows| - 1], rows[|rows| - 1];
      assert rows == init + [last];
      OwnedSkipsEmptyRows(init, n, c);
      if last != [] {
        assert !IsShort(last, n);
        assert PaddedColumn(NonEmpty(rows), c) == PaddedColumn(NonEmpty(init), c) + [last[c]];
      }
    }
  }

  /** The owned columns have equal lengths exactly when no row is short, and then they are the
      borrowed columns of the rows that are not empty. */
  lemma OwnedColumnsOfRaggedRows(rows: Rows, n: nat)
    requires n >= 1
    ensures SameLengths(OwnedColumns(rows, n)) <==> NoShortRow(rows, n)
    ensures NoShortRow(rows, n) ==> OwnedColumns(rows, n) == BorrowedColumns(NonEmpty(rows), n)
  {
    hide OwnedColumn, PaddedColumn, NoShortRow;
    EndColumnsAgree(rows, n);
    var owned := OwnedColumns(rows, n);
    if SameLengths(owned) {
      assert |owned[n - 1]| == |owned[0]|;
    }
    if NoShortRow(rows, n) {
      forall c | 0 <= c < n
        ensures |owned[c]| == |owned[0]|
      {
        ColumnsShrink(rows, 0, c);
        ColumnsShrink(rows, c, n - 1);
      }
      forall c | 0 <= c < n
        ensures owned[c] == PaddedColumn(NonEmpty(rows), c)
      {
        OwnedSkipsEmptyRows(rows, n, c);
      }
      assert owned == BorrowedColumns(NonEmpty(rows), n);
    }
  }

  lemma {:induction false} ArraysKeepLengths(schema: seq<Column>, columns: seq<seq<Json>>, lib: Library)
    requires |columns| == |schema| && BuildArrays(schema, columns, lib).Ok?
    ensures SameLengths(BuildArrays(schema, columns, lib).value) <==> SameLengths(columns)
  {
    hide BuildArray;
    ArraysAreExact(schema, columns, lib);
    var arrays := BuildArrays(schema, columns, lib).value;
    forall c | 0 <= c < |schema|
      ensures |arrays[c]| == |columns[c]|
    {
      assert ArrayOf(schema, columns, c, lib) == Ok(arrays[c]);
      BuiltLength(schema[c].exasolType, columns[c], c, schema[c].name, lib);
    }
  }

  lemma BuiltLength(t: ExasolType, values: seq<Json>, column: nat, name: string, lib: Library)
    requires BuildArray(t, values, column, name, lib).Ok?
    ensures |BuildArray(t, values, column, name, lib).value| == |values|
  {
    hide Convert;
    CellsAreExact(t, values, lib);
  }

  /** So a short row makes the owned conversion fail where the borrowed one pads it with nulls. */
  lemma ShortRowsFailOwned(rows: Rows, schema: seq<Column>, lib: Library)
    requires |schema| >= 1 && rows != [] && !NoShortRow(rows, |schema|)
    ensures ConvertOwned(JsonRows(rows), schema, lib).Err?
  {
    hide BuildArrays, OwnedColumns, NoShortRow;
    OwnedColumnsOfRaggedRows(rows, |schema|);
    assert |OwnedColumns(rows, |schema|)| == |schema| by { OwnedCount(rows, |schema|); }
    if BuildArrays(schema, OwnedColumns(rows, |schema|), lib).Ok? {
      ArraysKeepLengths(schema, OwnedColumns(rows, |schema|), lib);
    }
  }

  lemma OwnedCount(rows: Rows, n: nat)
    ensures |OwnedColumns(rows, n)| == n
  {
  }
}
