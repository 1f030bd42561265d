/**
 * The typed decoding getResult() in api/lib/database.php applies to every row
 * of a result set, driven by the MySQL type code of each column
 * (mysqli_fetch_field). MySQL sends every value as text, or NULL.
 */
module ResultDecoder {
  import opened Wrappers
  import opened PhpStrings
  import opened PhpNumbers
  import opened PhpArrays

  /** A column of a result set: its name and its MySQL type code. */
  datatype Column = Column(name: string, code: int)

  /** One fetched row (MYSQLI_ASSOC): column name to the text sent, None for NULL. */
  type RawRow = map<string, Option<string>>

  /** A result set: the column descriptions and the fetched rows. */
  datatype ResultSet = ResultSet(columns: seq<Column>, rows: seq<RawRow>)

  /**
   * A decoded value. `DDateTime(t)` stands for date('Y-m-d\TH:i:s', strtotime(t)):
   * the reading of a date text by strtotime is not modelled.
   */
  datatype Decoded = DBool(b: bool) | DInt(i: int) | DFloat(x: real) | DDateTime(source: string) | DText(text: string) | DNull

  /** A decoded row: column name to value, in column order. */
  type DecodedRow = seq<(string, Decoded)>

  /** The value of a column in a fetched row; a column missing from the row reads as NULL. */
  function CellOf(raw: RawRow, name: string): Option<string> {
    if name in raw then raw[name] else None
  }

  /** A cell where a string is expected: NULL becomes "". */
  function CellText(cell: Option<string>): string {
    match cell
    case None => ""
    case Some(s) => s
  }

  /**
   * `$cell < 2`: NULL is below 2; a numeric text compares by value; any other
   * text is compared with "2" as text.
   */
  predicate BelowTwo(cell: Option<string>) {
    match cell
    case None => true
    case Some(s) => if IsNumeric(s) then PrefixValue(s) < 2.0 else LexLess(s, "2")
  }

  /** `$cell == 0`: NULL equals 0, a numeric text equals 0 by value, other texts never do. */
  predicate EqualsZero(cell: Option<string>) {
    match cell
    case None => true
    case Some(s) => IsNumeric(s) && PrefixValue(s) == 0.0
  }

  /** Type codes read as integers: smallint, integer, bigint, mediumint. */
  predicate IsIntegerCode(code: int) {
    code == 2 || code == 3 || code == 8 || code == 9
  }

  /** Type codes read as floats: float, double, decimal. */
  predicate IsFloatCode(code: int) {
    code == 4 || code == 5 || code == 246
  }

  /** Type codes read as date-times: timestamp, datetime. */
  predicate IsDateTimeCode(code: int) {
    code == 7 || code == 12
  }

  /** The decoding of one cell of a column with type code `code`. */
  function DecodeCell(code: int, cell: Option<string>): Decoded {
    var s := CellText(cell);
    if code == 1 then
      if Utf8Length(s) == 1 || BelowTwo(cell) then DBool(BoolCast(s)) else DInt(IntCast(s))
    else if IsIntegerCode(code) then DInt(IntCast(s))
    else if IsFloatCode(code) then DFloat(if EqualsZero(cell) then 0.0 else FloatCast(s))
    else if IsDateTimeCode(code) then DDateTime(s)
    else match cell
      case None => DNull
      case Some(t) => DText(t)
  }

  /** The decoded row: `$fieldsValues[name] = …` for every column, in column order. */
  function DecodeRow(columns: seq<Column>, raw: RawRow): DecodedRow {
    if |columns| == 0 then []
    else
      var c := columns[|columns| - 1];
      Put(DecodeRow(columns[..|columns| - 1], raw), c.name, DecodeCell(c.code, CellOf(raw, c.name)))
  }

  /** getResult(): every fetched row decoded, in order. */
  function DecodeResult(rs: ResultSet): (rows: seq<DecodedRow>)
    ensures |rows| == |rs.rows|
  {
    seq(|rs.rows|, i requires 0 <= i < |rs.rows| => DecodeRow(rs.columns, rs.rows[i]))
  }

  predicate DistinctNames(columns: seq<Column>) {
    forall i, j :: 0 <= i < j < |columns| ==> columns[i].name != columns[j].name
  }

  /**
   * With distinct column names, a decoded row has one entry per column, in
   * column order, holding that column's decoded cell.
   */
  lemma {:induction false} DecodeRowSpec(columns: seq<Column>, raw: RawRow)
    requires DistinctNames(columns)
    ensures |DecodeRow(columns, raw)| == |columns|
    ensures forall i :: 0 <= i < |columns| ==>
      DecodeRow(columns, raw)[i] == (columns[i].name, DecodeCell(columns[i].code, CellOf(raw, columns[i].name)))
  {
    if |columns| > 0 {
      var init := columns[..|columns| - 1];
      var c := columns[|columns| - 1];
      DecodeRowSpec(init, raw);
      var before := DecodeRow(init, raw);
      assert forall i :: 0 <= i < |before| ==> before[i].0 == columns[i].name != c.name;
      assert IndexOf(before, c.name).None?;
    }
  }

  /** Substituting 0.000 for a value equal to 0 changes nothing: a float column reads as (float) of its text. */
  lemma FloatColumnValue(code: int, cell: Option<string>)
    requires IsFloatCode(code)
    ensures DecodeCell(code, cell) == DFloat(FloatCast(CellText(cell)))
  {
    if cell.None? {
      var s := "";
      assert SpaceRun(s, 0) == 0;
      assert ScanMantissa(s, 0) == Mantissa("", "", 0);
      assert ScanNumber(s) == Scan(false, "", "", 0, 0);
    }
  }

  /** An integer column reads back the integer MySQL sent. */
  lemma IntegerColumnValue(code: int, n: int)
    requires IsIntegerCode(code)
    ensures DecodeCell(code, Some(IntToString(n))) == DInt(n)
  {
    IntToStringNumeric(n);
  }

  /**
   * A TINYINT column holding n: every value up to 9 (one character, or below
   * 2) becomes a boolean, true unless it is 0; from 10 up it stays an integer.
   */
  lemma TinyIntValue(n: int)
    ensures DecodeCell(1, Some(IntToString(n))) == if n <= 9 then DBool(n != 0) else DInt(n)
  {
    var s := IntToString(n);
    IntToStringNumeric(n);
    assert IsAscii(s) by {
      if n < 0 {
        assert s == "-" + NatToString(-n);
      }
    }
    AsciiLength(s);
    if 0 <= n <= 9 {
      assert s == [DigitChar(n)];
    } else if n >= 10 {
      assert |NatToString(n)| > 1;
    }
    if n == 0 {
      assert s == "0";
    }
  }
}
