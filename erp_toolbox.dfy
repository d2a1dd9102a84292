/**
 * The result serializer of the ERP shim (haole_erp/erptoolbox.py): the custom JSON
 * encoder that renders datetimes and dates in fixed patterns, and json_formated,
 * which zips every result row with the column names and wraps the list under "data".
 *
 * The database entry points of that file are I/O and are not modelled; the
 * `json.dumps` text encoding is modelled as a structured `Json` value.
 */
module ErpToolbox {
  import opened Wrappers

  /** The exceptions the modelled Python 2 code can raise. */
  datatype PyError =
    | KeyError(key: string)
    | ValueError
    | TypeError
    | NameError(name: string)
    | IndexError
    | UnicodeEncodeError
    | DatabaseError

  // ---------------------------------------------------------------- dates

  predicate IsLeap(y: int) {
    y % 4 == 0 && (y % 100 != 0 || y % 400 == 0)
  }

  function DaysInMonth(y: int, m: int): (n: int)
    requires 1 <= m <= 12
    ensures 28 <= n <= 31
  {
    if m == 2 then (if IsLeap(y) then 29 else 28)
    else if m == 4 || m == 6 || m == 9 || m == 11 then 30
    else 31
  }

  /** What Python's `date` constructor accepts (MINYEAR = 1, MAXYEAR = 9999). */
  predicate ValidDate(y: int, m: int, d: int) {
    1 <= y <= 9999 && 1 <= m <= 12 && 1 <= d <= DaysInMonth(y, m)
  }

  predicate ValidTime(h: int, mi: int, s: int) {
    0 <= h < 24 && 0 <= mi < 60 && 0 <= s < 60
  }

  /** A `datetime.date`; Python never lets an invalid one exist. */
  type Date = d: (int, int, int) | ValidDate(d.0, d.1, d.2) witness (1, 1, 1)

  /** A date with a time of day, valid or not. */
  datatype Stamp = DateTime(date: Date, hour: int, minute: int, second: int)

  /** A `datetime.datetime` (microseconds are not modelled); Python never lets an invalid one exist. */
  type DateTime = dt: Stamp | ValidTime(dt.hour, dt.minute, dt.second) witness DateTime((1, 1, 1), 0, 0, 0)

  /** A value as it comes out of a database cursor or out of `json.loads`. */
  datatype Value =
    | VNone
    | VBool(b: bool)
    | VInt(i: int)
    | VStr(s: string)
    | VDateTime(dt: DateTime)
    | VDate(d: Date)
    | VOther(typeName: string)   // Decimal, timedelta, ...: nothing the encoder knows

  /** `isinstance(v, date)`: a datetime is a date too, since `datetime` subclasses `date`. */
  predicate IsDateInstance(v: Value) {
    v.VDate? || v.VDateTime?
  }

  // ------------------------------------------------------- fixed-width digits

  function DigitChar(d: int): (c: char)
    requires 0 <= d < 10
    ensures '0' <= c <= '9'
  {
    ('0' as int + d) as char
  }

  function DigitValue(c: char): int {
    (c as int) - ('0' as int)
  }

  predicate IsDigit(c: char) {
    '0' <= c <= '9'
  }

  function Pad2(n: int): (s: string)
    requires 0 <= n < 100
    ensures |s| == 2
  {
    [DigitChar(n / 10), DigitChar(n % 10)]
  }

  function Pad4(n: int): (s: string)
    requires 0 <= n < 10000
    ensures |s| == 4
  {
    Pad2(n / 100) + Pad2(n % 100)
  }

  /** The number written by a string of digits, most significant first. */
  function Number(s: string): int
  {
    if |s| == 0 then 0 else 10 * Number(s[..|s| - 1]) + DigitValue(s[|s| - 1])
  }

  lemma TwoDigits(a: char, b: char)
    ensures Number([a, b]) == 10 * DigitValue(a) + DigitValue(b)
  {
    var ab := [a, b];
    assert ab[..1] == [a];
    assert [a][..0] == [];
    assert Number([a]) == DigitValue(a);
    assert Number(ab) == 10 * Number(ab[..1]) + DigitValue(b);
  }

  lemma Pad2Number(n: int)
    requires 0 <= n < 100
    ensures Number(Pad2(n)) == n
    ensures forall i | 0 <= i < 2 :: IsDigit(Pad2(n)[i])
  {
    TwoDigits(DigitChar(n / 10), DigitChar(n % 10));
  }

  lemma {:induction false} NumberAppend(a: string, b: string)
    requires |b| == 2
    ensures Number(a + b) == 100 * Number(a) + Number(b)
  {
    var ab := a + b;
    var a0 := a + [b[0]];
    assert ab[..|ab| - 1] == a0;
    assert Number(ab) == 10 * Number(a0) + DigitValue(b[1]);
    assert a0[..|a0| - 1] == a;
    assert Number(a0) == 10 * Number(a) + DigitValue(b[0]);
    assert b[..1] == [b[0]];
    assert [b[0]][..0] == [];
    assert Number([b[0]]) == DigitValue(b[0]);
    assert Number(b) == 10 * Number([b[0]]) + DigitValue(b[1]);
  }

  lemma Pad4Number(n: int)
    requires 0 <= n < 10000
    ensures Number(Pad4(n)) == n
    ensures forall i | 0 <= i < 4 :: IsDigit(Pad4(n)[i])
  {
    Pad2Number(n / 100);
    Pad2Number(n % 100);
    NumberAppend(Pad2(n / 100), Pad2(n % 100));
  }

  lemma {:induction false} Pad2OfNumber(s: string)
    requires |s| == 2 && IsDigit(s[0]) && IsDigit(s[1])
    ensures 0 <= Number(s) < 100 && Pad2(Number(s)) == s
  {
    assert s == [s[0], s[1]];
    TwoDigits(s[0], s[1]);
    var n := Number(s);
    assert n == 10 * DigitValue(s[0]) + DigitValue(s[1]);
    assert n / 10 == DigitValue(s[0]) && n % 10 == DigitValue(s[1]);
  }

  lemma {:induction false} Pad4OfNumber(s: string)
    requires |s| == 4 && forall i | 0 <= i < 4 :: IsDigit(s[i])
    ensures 0 <= Number(s) < 10000 && Pad4(Number(s)) == s
  {
    var hi, lo := s[..2], s[2..];
    assert s == hi + lo;
    NumberAppend(hi, lo);
    Pad2OfNumber(hi);
    Pad2OfNumber(lo);
    var n := Number(s);
    assert n / 100 == Number(hi) && n % 100 == Number(lo);
  }

  // ------------------------------------------------------------ strftime

  /**
   * `date.strftime('%Y-%m-%d')`. Python 2's strftime refuses years before 1900
   * with a ValueError.
   */
  function FormatDate(d: Date): (r: Result<string, PyError>)
    ensures r.Ok? <==> d.0 >= 1900
    ensures r.Ok? ==> |r.value| == 10 && r.value[4] == '-' && r.value[7] == '-'
  {
    if d.0 < 1900 then Err(ValueError)
    else Ok(Pad4(d.0) + "-" + Pad2(d.1) + "-" + Pad2(d.2))
  }

  /** `datetime.strftime('%Y-%m-%d %H:%M:%S')`, with the same year restriction. */
  function FormatDateTime(dt: DateTime): (r: Result<string, PyError>)
    ensures r.Ok? <==> dt.date.0 >= 1900
    ensures r.Ok? ==> |r.value| == 19 && r.value[..10] == FormatDate(dt.date).value
  {
    if dt.date.0 < 1900 then Err(ValueError)
    else Ok(FormatDate(dt.date).value + " " + Pad2(dt.hour) + ":" + Pad2(dt.minute) + ":" + Pad2(dt.second))
  }

  // ------------------------------------------------------------ strptime

  predicate DigitsAt(s: string, from: nat, to: nat)
    requires from <= to <= |s|
  {
    forall i | from <= i < to :: IsDigit(s[i])
  }

  /** The string has the zero-padded shape "YYYY-MM-DD HH:MM:SS". */
  predicate HasDateTimeShape(s: string) {
    |s| == 19 && s[4] == '-' && s[7] == '-' && s[10] == ' ' && s[13] == ':' && s[16] == ':'
    && DigitsAt(s, 0, 4) && DigitsAt(s, 5, 7) && DigitsAt(s, 8, 10)
    && DigitsAt(s, 11, 13) && DigitsAt(s, 14, 16) && DigitsAt(s, 17, 19)
  }

  /**
   * `datetime.strptime(s, "%Y-%m-%d %H:%M:%S")` on its zero-padded form: a
   * string of another shape, or one naming an impossible date or time, raises
   * ValueError.
   */
  function ParseDateTime(s: string): (r: Result<DateTime, PyError>)
    ensures r.Ok? ==> HasDateTimeShape(s)
  {
    if !HasDateTimeShape(s) then Err(ValueError)
    else
      var y, m, d := Number(s[..4]), Number(s[5..7]), Number(s[8..10]);
      var h, mi, sec := Number(s[11..13]), Number(s[14..16]), Number(s[17..19]);
      if ValidDate(y, m, d) && ValidTime(h, mi, sec) then Ok(DateTime((y, m, d), h, mi, sec))
      else Err(ValueError)
  }

  predicate AllDigits(s: string) {
    forall i | 0 <= i < |s| :: IsDigit(s[i])
  }

  /** The "YYYY-MM-DD HH:MM:SS" layout of six digit fields. */
  function Layout(y: string, mo: string, d: string, h: string, mi: string, sec: string): string {
    y + "-" + mo + "-" + d + " " + h + ":" + mi + ":" + sec
  }

  lemma LayoutFields(y: string, mo: string, d: string, h: string, mi: string, sec: string)
    requires |y| == 4 && |mo| == 2 && |d| == 2 && |h| == 2 && |mi| == 2 && |sec| == 2
    requires AllDigits(y) && AllDigits(mo) && AllDigits(d) && AllDigits(h) && AllDigits(mi) && AllDigits(sec)
    ensures var s := Layout(y, mo, d, h, mi, sec);
      && HasDateTimeShape(s)
      && s[..4] == y && s[5..7] == mo && s[8..10] == d
      && s[11..13] == h && s[14..16] == mi && s[17..19] == sec
  {
  }

  /** Formatting a datetime and parsing it back gives the same datetime. */
  lemma ParseFormatRoundTrip(dt: DateTime)
    requires dt.date.0 >= 1900
    ensures ParseDateTime(FormatDateTime(dt).value) == Ok(dt)
  {
    var y, mo, d := Pad4(dt.date.0), Pad2(dt.date.1), Pad2(dt.date.2);
    var h, mi, sec := Pad2(dt.hour), Pad2(dt.minute), Pad2(dt.second);
    Pad4Number(dt.date.0);
    Pad2Number(dt.date.1);
    Pad2Number(dt.date.2);
    Pad2Number(dt.hour);
    Pad2Number(dt.minute);
    Pad2Number(dt.second);
    assert FormatDateTime(dt).value == Layout(y, mo, d, h, mi, sec);
    LayoutFields(y, mo, d, h, mi, sec);
  }

  /** A string that parses, from 1900 on, is exactly the text the encoder writes back. */
  lemma FormatParseRoundTrip(s: string)
    requires ParseDateTime(s).Ok? && ParseDateTime(s).value.date.0 >= 1900
    ensures FormatDateTime(ParseDateTime(s).value) == Ok(s)
  {
    Pad4OfNumber(s[..4]);
    Pad2OfNumber(s[5..7]);
    Pad2OfNumber(s[8..10]);
    Pad2OfNumber(s[11..13]);
    Pad2OfNumber(s[14..16]);
    Pad2OfNumber(s[17..19]);
    var t := FormatDateTime(ParseDateTime(s).value).value;
    assert t == s[..4] + "-" + s[5..7] + "-" + s[8..10] + " " + s[11..13] + ":" + s[14..16] + ":" + s[17..19];
    assert t == s;
  }

  // ---------------------------------------------------------- the encoder

  /**
   * `CJsonEncoder.default`: called for every value json does not know. A
   * datetime must be checked before a date, because every datetime is a date.
   */
  function Default(v: Value): (r: Result<string, PyError>)
    ensures v.VDateTime? ==> r == FormatDateTime(v.dt)
    ensures v.VDate? ==> r == FormatDate(v.d)
    ensures !IsDateInstance(v) ==> r == Err(TypeError)
  {
    if v.VDateTime? then FormatDateTime(v.dt)
    else if IsDateInstance(v) then FormatDate(v.d)
    else Err(TypeError)
  }

  /** The datetime branch wins: a datetime is rendered with its time, 19 characters, never as a bare date. */
  lemma DefaultDateTimeBeforeDate(dt: DateTime)
    requires dt.date.0 >= 1900
    ensures IsDateInstance(VDateTime(dt))
    ensures Default(VDateTime(dt)).Ok? && |Default(VDateTime(dt)).value| == 19
    ensures Default(VDateTime(dt)) != FormatDate(dt.date)
  {
  }

  /** The JSON document `json.dumps` would write, as a structured value. */
  datatype Json =
    | JNull
    | JBool(b: bool)
    | JInt(i: int)
    | JStr(s: string)
    | JArray(items: seq<Json>)
    | JObject(fields: map<string, Json>)

  predicate Encodable(v: Value) {
    match v
    case VDateTime(dt) => dt.date.0 >= 1900
    case VDate(d) => d.0 >= 1900
    case VOther(_) => false
    case _ => true
  }

  /**
   * How one value is written: the built-in JSON types directly (with
   * `ensure_ascii=False` a string is kept literally, non-ASCII included), the
   * rest through `Default`.
   */
  function EncodeValue(v: Value): (r: Result<Json, PyError>)
    ensures r.Ok? <==> Encodable(v)
    ensures v.VStr? ==> r == Ok(JStr(v.s))
    ensures IsDateInstance(v) && r.Ok? ==> r.value.JStr? && r.value.s == Default(v).value
    ensures r.Err? ==> r.error == (if IsDateInstance(v) then ValueError else TypeError)
  {
    match v
    case VNone => Ok(JNull)
    case VBool(b) => Ok(JBool(b))
    case VInt(i) => Ok(JInt(i))
    case VStr(s) => Ok(JStr(s))
    case VOther(_) => Err(Default(v).error)
    case VDateTime(_) | VDate(_) =>
      var d := Default(v);
      if d.Ok? then Ok(JStr(d.value)) else Err(d.error)
  }

  // ------------------------------------------------------- json_formated

  /** `dict(zip(cols, row))`: zip stops at the shorter list, a repeated key keeps its last value. */
  function ZipDict(cols: seq<string>, row: seq<Value>): (d: map<string, Value>)
    decreases |cols|
  {
    if |cols| == 0 || |row| == 0 then map[]
    else if |cols| <= |row| then ZipDict(cols[..|cols| - 1], row)[cols[|cols| - 1] := row[|cols| - 1]]
    else ZipDict(cols[..|row|], row)
  }

  /** The keys of an entry are the column names that have a value, that is, the first min(|cols|, |row|). */
  lemma {:induction false} ZipDictKeys(cols: seq<string>, row: seq<Value>)
    ensures ZipDict(cols, row).Keys == set i | 0 <= i < |cols| && i < |row| :: cols[i]
    decreases |cols|
  {
    if |cols| == 0 || |row| == 0 {
    } else if |cols| <= |row| {
      var n := |cols| - 1;
      ZipDictKeys(cols[..n], row);
      var prev := set i | 0 <= i < n && i < |row| :: cols[..n][i];
      assert prev == set i | 0 <= i < n :: cols[i];
      assert (set i | 0 <= i < |cols| && i < |row| :: cols[i]) == prev + {cols[n]};
    } else {
      ZipDictKeys(cols[..|row|], row);
      assert (set i | 0 <= i < |row| && i < |row| :: cols[..|row|][i]) == set i | 0 <= i < |cols| && i < |row| :: cols[i];
    }
  }

  /** With distinct column names, column i of the entry holds value i of the row. */
  lemma {:induction false} ZipDictAt(cols: seq<string>, row: seq<Value>, i: int)
    requires forall a, b | 0 <= a < b < |cols| :: cols[a] != cols[b]
    requires 0 <= i < |cols| && i < |row|
    ensures cols[i] in ZipDict(cols, row) && ZipDict(cols, row)[cols[i]] == row[i]
    decreases |cols|
  {
    if |cols| <= |row| {
      var n := |cols| - 1;
      if i < n {
        ZipDictAt(cols[..n], row, i);
      }
    } else {
      ZipDictAt(cols[..|row|], row, i);
    }
  }

  /** The Python list `json_list` once the loop has consumed `data`. */
  function ZippedRows(cols: seq<string>, data: seq<seq<Value>>): (rows: seq<map<string, Value>>)
    ensures |rows| == |data|
    ensures forall i | 0 <= i < |data| :: rows[i] == ZipDict(cols, data[i])
  {
    seq(|data|, i requires 0 <= i < |data| => ZipDict(cols, data[i]))
  }

  predicate EncodableRow(d: map<string, Value>) {
    forall c | c in d :: Encodable(d[c])
  }

  /** Every value of every entry can be written. */
  predicate EncodableRows(rows: seq<map<string, Value>>) {
    forall i | 0 <= i < |rows| :: EncodableRow(rows[i])
  }

  /** The exceptions the values of a row raise when they are written. */
  function RowErrors(d: map<string, Value>): (errors: set<PyError>)
    ensures forall e :: e in errors <==> exists c | c in d :: EncodeValue(d[c]) == Err(e)
  {
    set c | c in d && EncodeValue(d[c]).Err? :: EncodeValue(d[c]).error
  }

  /**
   * Writing one dictionary. The first value that cannot be written raises, and
   * which one comes first is the dictionary's hash order; the model raises
   * ValueError when every such value is a date before 1900 and TypeError
   * otherwise, so the error is always one that some value raises, and the one
   * every order raises when all the failing values agree.
   */
  function EncodeDict(d: map<string, Value>): (r: Result<map<string, Json>, PyError>)
    ensures r.Ok? <==> EncodableRow(d)
    ensures r.Ok? ==> r.value.Keys == d.Keys && forall c | c in d :: r.value[c] == EncodeValue(d[c]).value
    ensures r.Err? ==> exists c | c in d :: EncodeValue(d[c]) == Err(r.error)
    ensures r.Err? && (forall c | c in d && !Encodable(d[c]) :: IsDateInstance(d[c])) ==> r.error == ValueError
    ensures r.Err? && (forall c | c in d && !Encodable(d[c]) :: !IsDateInstance(d[c])) ==> r.error == TypeError
  {
    if EncodableRow(d) then Ok(map c | c in d :: EncodeValue(d[c]).value)
    else
      var c :| c in d && !Encodable(d[c]);
      assert EncodeValue(d[c]).error in RowErrors(d);
      if RowErrors(d) == {ValueError} then Err(ValueError) else Err(TypeError)
  }

  /** The first row that cannot be written. */
  function FirstUnencodable(rows: seq<map<string, Value>>): (i: nat)
    requires !EncodableRows(rows)
    ensures i < |rows| && !EncodableRow(rows[i])
    ensures forall k | 0 <= k < i :: EncodableRow(rows[k])
  {
    if !EncodableRow(rows[0]) then 0
    else
      assert !EncodableRows(rows[1..]) by {
        var k :| 0 <= k < |rows| && !EncodableRow(rows[k]);
        assert rows[1..][k - 1] == rows[k];
      }
      1 + FirstUnencodable(rows[1..])
  }

  /**
   * `json.dumps({"data": rows}, ensure_ascii=False, cls=CJsonEncoder)`: the
   * document when every value can be written; otherwise the rows are written in
   * order and the first row that cannot be written raises.
   */
  function EncodeDocument(rows: seq<map<string, Value>>): (r: Result<Json, PyError>)
    ensures r.Ok? <==> EncodableRows(rows)
    ensures r.Err? ==> exists i | 0 <= i < |rows| ::
      (forall k | 0 <= k < i :: EncodableRow(rows[k])) && EncodeDict(rows[i]) == Err(r.error)
  {
    if EncodableRows(rows) then
      Ok(JObject(map["data" := JArray(seq(|rows|, i requires 0 <= i < |rows| => JObject(EncodeDict(rows[i]).value)))]))
    else Err(EncodeDict(rows[FirstUnencodable(rows)]).error)
  }

  /**
   * When the only values that cannot be written are dates and datetimes before
   * 1900, the dump raises strftime's ValueError, whatever the dictionary order.
   */
  lemma OldDatesRaiseValueError(rows: seq<map<string, Value>>)
    requires !EncodableRows(rows)
    requires forall i, c | 0 <= i < |rows| && c in rows[i] && !Encodable(rows[i][c]) :: IsDateInstance(rows[i][c])
    ensures EncodeDocument(rows) == Err(ValueError)
  {
    var i :| 0 <= i < |rows| && (forall k | 0 <= k < i :: EncodableRow(rows[k])) &&
      EncodeDict(rows[i]) == Err(EncodeDocument(rows).error);
  }

  /**
   * `json_formated(col_name, data)`: one dictionary per result row, collected in
   * order, then dumped under the single key "data".
   */
  method JsonFormated(colName: seq<string>, data: seq<seq<Value>>) returns (r: Result<Json, PyError>)
    ensures r == EncodeDocument(ZippedRows(colName, data))
  {
    var jsonList: seq<map<string, Value>> := [];
    var k := 0;
    while k < |data|
      invariant 0 <= k <= |data|
      invariant jsonList == ZippedRows(colName, data[..k])
    {
      var jsonDict := ZipDict(colName, data[k]);
      jsonList := jsonList + [jsonDict];
      k := k + 1;
    }
    assert data[..k] == data;
    r := EncodeDocument(jsonList);
  }

  /**
   * What the serializer promises: the document is `{"data": [...]}` with one
   * entry per row, whose keys are the zipped column names, and (for distinct
   * column names) whose column j holds the encoding of value j, a string kept
   * literally.
   */
  lemma DocumentShape(cols: seq<string>, data: seq<seq<Value>>, i: int)
    requires EncodeDocument(ZippedRows(cols, data)).Ok?
    requires 0 <= i < |data|
    ensures var doc := EncodeDocument(ZippedRows(cols, data)).value;
      && doc.JObject? && doc.fields.Keys == {"data"}
      && doc.fields["data"].JArray? && |doc.fields["data"].items| == |data|
      && doc.fields["data"].items[i].JObject?
      && doc.fields["data"].items[i].fields.Keys == set j | 0 <= j < |cols| && j < |data[i]| :: cols[j]
    ensures var doc := EncodeDocument(ZippedRows(cols, data)).value;
      (forall a, b | 0 <= a < b < |cols| :: cols[a] != cols[b]) ==>
      forall j | 0 <= j < |cols| && j < |data[i]| ::
        && Ok(doc.fields["data"].items[i].fields[cols[j]]) == EncodeValue(data[i][j])
        && (data[i][j].VStr? ==> doc.fields["data"].items[i].fields[cols[j]] == JStr(data[i][j].s))
  {
    ZipDictKeys(cols, data[i]);
    if forall a, b | 0 <= a < b < |cols| :: cols[a] != cols[b] {
      forall j | 0 <= j < |cols| && j < |data[i]|
        ensures cols[j] in ZipDict(cols, data[i]) && ZipDict(cols, data[i])[cols[j]] == data[i][j]
      {
        ZipDictAt(cols, data[i], j);
      }
    }
  }

  /** A value that cannot be written anywhere in the data makes the whole dump raise. */
  lemma UnencodableValueFails(cols: seq<string>, data: seq<seq<Value>>, i: int, j: int)
    requires forall a, b | 0 <= a < b < |cols| :: cols[a] != cols[b]
    requires 0 <= i < |data| && 0 <= j < |cols| && j < |data[i]|
    requires !Encodable(data[i][j])
    ensures EncodeDocument(ZippedRows(cols, data)).Err?
  {
    ZipDictAt(cols, data[i], j);
    var rows := ZippedRows(cols, data);
    assert !EncodableRow(rows[i]);
  }
}
