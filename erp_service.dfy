/**
 * The request logic of the two ERP handlers (haole_erp/erp_service.py):
 *
 *  - the batch insert, which turns the posted JSON rows into one INSERT
 *    statement and the list of value tuples handed to `executemany`;
 *  - the similarity query, which runs one query per request argument but only
 *    serializes the result of the last one.
 *
 * HTTP, CORS headers and the database are not modelled: the parsed request
 * arguments come in as values, `json.loads` and the database fetch as
 * function parameters, and the statement plus its tuples come out as the
 * result.
 */
module ErpService {
  import opened Wrappers
  import opened ErpToolbox

  // ------------------------------------------------------ JSON objects

  /** A decoded JSON object: its keys in the dictionary's iteration order, and its fields. */
  datatype Object = Object(keys: seq<string>, fields: map<string, Value>)

  predicate Distinct(ks: seq<string>) {
    forall i, j | 0 <= i < j < |ks| :: ks[i] != ks[j]
  }

  /** Every key once, and exactly the keys that have a field. */
  ghost predicate WellFormed(o: Object) {
    && Distinct(o.keys)
    && (forall key :: key in o.fields <==> key in o.keys)
  }

  /** A Python 2 dictionary: its `keys()` order is whatever the hash table gives, but fixed. */
  type Dict = o: Object | WellFormed(o) witness Object([], map[])

  /** `d[key]`: the field, or a KeyError. */
  function Get(d: Dict, key: string): (r: Result<Value, PyError>)
    ensures r.Ok? <==> key in d.keys
    ensures r.Ok? ==> r.value == d.fields[key]
    ensures r.Err? ==> r.error == KeyError(key)
  {
    if key in d.fields then Ok(d.fields[key]) else Err(KeyError(key))
  }

  /** The key order without `key`; the others keep their order. */
  function Without(ks: seq<string>, key: string): (r: seq<string>)
    ensures forall x :: x in r <==> x in ks && x != key
  {
    if |ks| == 0 then []
    else if ks[0] == key then Without(ks[1..], key)
    else [ks[0]] + Without(ks[1..], key)
  }

  lemma {:induction false} WithoutDistinct(ks: seq<string>, key: string)
    requires Distinct(ks)
    ensures Distinct(Without(ks, key))
  {
    if |ks| > 0 {
      WithoutDistinct(ks[1..], key);
      if ks[0] != key {
        assert ks[0] !in ks[1..];
      }
    }
  }

  lemma {:induction false} WithoutAbsent(ks: seq<string>, key: string)
    requires key !in ks
    ensures Without(ks, key) == ks
  {
    if |ks| > 0 {
      WithoutAbsent(ks[1..], key);
    }
  }

  /** Removing a key that occurs once shortens the order by one. */
  lemma {:induction false} WithoutLength(ks: seq<string>, key: string)
    requires Distinct(ks) && key in ks
    ensures |Without(ks, key)| == |ks| - 1
  {
    if ks[0] == key {
      assert key !in ks[1..];
      WithoutAbsent(ks[1..], key);
    } else {
      WithoutLength(ks[1..], key);
    }
  }

  /** `d.pop(key)` for its effect on `d`: a KeyError when the key is missing. */
  function Pop(d: Dict, key: string): (r: Result<Dict, PyError>)
    ensures r.Ok? <==> key in d.keys
    ensures r.Err? ==> r.error == KeyError(key)
    ensures r.Ok? ==> r.value.keys == Without(d.keys, key) && r.value.fields == d.fields - {key}
  {
    if key in d.fields then
      WithoutDistinct(d.keys, key);
      Ok(Object(Without(d.keys, key), d.fields - {key}))
    else Err(KeyError(key))
  }

  /** `d[key] = v` on a key `d` has: the key keeps its place in the order. */
  function Assign(d: Dict, key: string, v: Value): (r: Dict)
    requires key in d.keys
    ensures r.keys == d.keys && r.fields == d.fields[key := v]
  {
    Object(d.keys, d.fields[key := v])
  }

  /** The fields in key order. */
  function Values(d: Dict): (vs: seq<Value>)
    ensures |vs| == |d.keys| && forall i | 0 <= i < |d.keys| :: vs[i] == d.fields[d.keys[i]]
  {
    seq(|d.keys|, i requires 0 <= i < |d.keys| => d.fields[d.keys[i]])
  }

  // ------------------------------------------------ Python string methods

  /** `sep.join(parts)`. */
  function Join(sep: string, parts: seq<string>): string
  {
    if |parts| == 0 then ""
    else if |parts| == 1 then parts[0]
    else Join(sep, parts[..|parts| - 1]) + sep + parts[|parts| - 1]
  }

  /** `s.split(c)`: the pieces between the separators; never an empty list. */
  function Split(s: string, c: char): (r: seq<string>)
    ensures |r| >= 1
  {
    if |s| == 0 then [""]
    else
      var rest := Split(s[..|s| - 1], c);
      if s[|s| - 1] == c then rest + [""]
      else rest[..|rest| - 1] + [rest[|rest| - 1] + [s[|s| - 1]]]
  }

  /** The characters Python 2's `str.strip()` removes. */
  predicate IsSpace(c: char) {
    c == ' ' || c == '\t' || c == '\n' || c == '\r' || c == 11 as char || c == 12 as char
  }

  function TrimLeft(s: string): (r: string)
    ensures |r| <= |s|
    ensures |r| > 0 ==> !IsSpace(r[0])
  {
    if |s| > 0 && IsSpace(s[0]) then TrimLeft(s[1..]) else s
  }

  function TrimRight(s: string): (r: string)
    ensures |r| <= |s|
    ensures |r| > 0 ==> !IsSpace(r[|r| - 1])
  {
    if |s| > 0 && IsSpace(s[|s| - 1]) then TrimRight(s[..|s| - 1]) else s
  }

  /** `s.strip()`. */
  function Strip(s: string): string {
    TrimLeft(TrimRight(s))
  }

  predicate IsAscii(x: string) {
    forall i | 0 <= i < |x| :: x[i] < 128 as char
  }

  /** `str(x)` on a unicode string: only ASCII text converts, anything else raises UnicodeEncodeError. */
  function PyStr(x: string): (r: Result<string, PyError>)
    ensures r.Ok? <==> IsAscii(x)
    ensures r.Ok? ==> r.value == x
  {
    if IsAscii(x) then Ok(x) else Err(UnicodeEncodeError)
  }

  // ------------------------------------------------------ the insert rows

  /** The date parser the handler calls. The handler uses `ParseDateTime`; the loop's properties hold for any parser. */
  type Strptime = string -> Result<DateTime, PyError>

  /** `datetime.strptime(v, "%Y-%m-%d %H:%M:%S")`: only a string can be parsed. */
  function ParseEnterDate(v: Value, parse: Strptime): (r: Result<Value, PyError>)
    ensures r.Ok? <==> v.VStr? && parse(v.s).Ok?
    ensures r.Ok? ==> r.value == VDateTime(parse(v.s).value)
    ensures !v.VStr? ==> r == Err(TypeError)
  {
    if v.VStr? then
      var dt :- parse(v.s);
      Ok(VDateTime(dt))
    else Err(TypeError)
  }

  /** `[d[str(x).strip()] for x in pieces]`, evaluated left to right. */
  function BuildTuple(d: Dict, pieces: seq<string>): (r: Result<seq<Value>, PyError>)
    ensures r.Ok? ==> |r.value| == |pieces|
  {
    if |pieces| == 0 then Ok([])
    else
      var init :- BuildTuple(d, pieces[..|pieces| - 1]);
      var name :- PyStr(pieces[|pieces| - 1]);
      var v :- Get(d, Strip(name));
      Ok(init + [v])
  }

  /** What the loop has built so far: the Python locals `row_detail`, `columns` and `k`. */
  datatype Progress = Progress(rowDetail: seq<seq<Value>>, columns: Option<string>, last: Option<Dict>)

  /**
   * Whether the row, once its id is gone, is skipped: of `material_name`,
   * `vendor` and `count`, checked in that order with a short-circuit `or`, the
   * first that is missing raises and the first that equals '' skips.
   */
  function SkipTest(d: Dict): Result<bool, PyError>
  {
    var name :- Get(d, "material_name");
    if name == VStr("") then Ok(true)
    else
      var vendor :- Get(d, "vendor");
      if vendor == VStr("") then Ok(true)
      else
        var count :- Get(d, "count");
        Ok(count == VStr(""))
  }

  /** What a kept row yields: the `columns` text, the row with its parsed date, and its tuple. */
  datatype Kept = Kept(columns: string, row: Dict, tuple: seq<Value>)

  /** Lines 52-54 on a row that was not skipped. */
  function KeepRow(d: Dict, parse: Strptime): (r: Result<Kept, PyError>)
    ensures r.Ok? ==> r.value.columns == Join(", ", d.keys) && r.value.row.keys == d.keys
  {
    var columns := Join(", ", d.keys);
    var enter :- Get(d, "enter_date");
    var date :- ParseEnterDate(enter, parse);
    var d' := Assign(d, "enter_date", date);
    var tuple :- BuildTuple(d', Split(columns, ','));
    Ok(Kept(columns, d', tuple))
  }

  /** One pass of the loop body on one row. */
  function Step(p: Progress, row: Dict, parse: Strptime): Result<Progress, PyError>
  {
    var k :- Pop(row, "id");
    var skip :- SkipTest(k);
    if skip then Ok(Progress(p.rowDetail, p.columns, Some(k)))
    else
      var kept :- KeepRow(k, parse);
      Ok(Progress(p.rowDetail + [kept.tuple], Some(kept.columns), Some(kept.row)))
  }

  /** The loop over the decoded rows, the first raised error ending it. */
  function Steps(rows: seq<Dict>, parse: Strptime): Result<Progress, PyError>
  {
    if |rows| == 0 then Ok(Progress([], None, None))
    else
      var p :- Steps(rows[..|rows| - 1], parse);
      Step(p, rows[|rows| - 1], parse)
  }

  /** The statement and tuples handed to `executemany_data_sql`. */
  datatype Batch = Batch(sql: string, rows: seq<seq<Value>>)

  /** `', '.join(['%s'] * n)`: the VALUES placeholders. */
  function Placeholders(n: nat): string
  {
    Join(", ", seq(n, _ => "%s"))
  }

  /** `"INSERT INTO %s ( %s ) VALUES ( %s )" % (table, columns, placeholders)`. */
  function InsertSql(table: string, columns: string, placeholders: string): string
  {
    "INSERT INTO " + table + " ( " + columns + " ) VALUES ( " + placeholders + " )"
  }

  /** `arguments[name][0]`. */
  function Argument(arguments: map<string, seq<string>>, name: string): (r: Result<string, PyError>)
    ensures r.Ok? <==> name in arguments && |arguments[name]| > 0
    ensures r.Ok? ==> r.value == arguments[name][0]
    ensures name !in arguments ==> r == Err(KeyError(name))
  {
    if name !in arguments then Err(KeyError(name))
    else if |arguments[name]| == 0 then Err(IndexError)
    else Ok(arguments[name][0])
  }

  /**
   * Lines 55-56 after the loop: `len(k)` needs a row to have been seen, then
   * the table argument is read, then `columns` needs a row to have been kept.
   */
  function Finish(arguments: map<string, seq<string>>, p: Progress): (r: Result<Batch, PyError>)
    ensures p.last.None? ==> r == Err(NameError("k"))
    ensures p.last.Some? && Argument(arguments, "table").Err? ==> r == Err(Argument(arguments, "table").error)
    ensures p.last.Some? && Argument(arguments, "table").Ok? && p.columns.None? ==> r == Err(NameError("columns"))
    ensures r.Ok? ==> r.value.rows == p.rowDetail
  {
    match p.last
    case None => Err(NameError("k"))
    case Some(k) =>
      var placeholders := Placeholders(|k.keys|);
      var table :- Argument(arguments, "table");
      match p.columns
      case None => Err(NameError("columns"))
      case Some(columns) => Ok(Batch(InsertSql(table, columns, placeholders), p.rowDetail))
  }

  /** `json.loads` on the posted content: the decoded list of objects, or the error it raises. */
  type Loads = string -> Result<seq<Dict>, PyError>

  /** The insert handler's outcome, as a function of its inputs. */
  function InsertOutcome(arguments: map<string, seq<string>>, loads: Loads, parse: Strptime): Result<Batch, PyError>
  {
    var content :- Argument(arguments, "content");
    var rows :- loads(content);
    var p :- Steps(rows, parse);
    Finish(arguments, p)
  }

  lemma {:induction false} StepsError(rows: seq<Dict>, n: nat, parse: Strptime)
    requires n <= |rows| && Steps(rows[..n], parse).Err?
    ensures Steps(rows, parse) == Steps(rows[..n], parse).PropagateFailure()
    decreases |rows| - n
  {
    if n < |rows| {
      assert rows[..n + 1][..n] == rows[..n];
      StepsError(rows, n + 1, parse);
    } else {
      assert rows[..n] == rows;
    }
  }

  /** The loop body on one row (lines 48-54), as the handler runs it. */
  method ProcessRow(p: Progress, row: Dict) returns (r: Result<Progress, PyError>)
    ensures r == Step(p, row, ParseDateTime)
  {
    var k := Pop(row, "id");
    if k.Err? {
      return Err(k.error);
    }
    var skip := SkipTest(k.value);
    if skip.Err? {
      return Err(skip.error);
    }
    if skip.value {
      return Ok(Progress(p.rowDetail, p.columns, Some(k.value)));
    }
    var columns := Join(", ", k.value.keys);
    var enter := Get(k.value, "enter_date");
    if enter.Err? {
      return Err(enter.error);
    }
    var date := ParseEnterDate(enter.value, ParseDateTime);
    if date.Err? {
      return Err(date.error);
    }
    var dated := Assign(k.value, "enter_date", date.value);
    var tuple := BuildTuple(dated, Split(columns, ','));
    if tuple.Err? {
      return Err(tuple.error);
    }
    r := Ok(Progress(p.rowDetail + [tuple.value], Some(columns), Some(dated)));
  }

  /**
   * The insert handler (lines 45-57): decode the posted rows, run the loop
   * body on each, then build the INSERT statement.
   */
  method PrepareInsert(arguments: map<string, seq<string>>, loads: Loads) returns (r: Result<Batch, PyError>)
    ensures r == InsertOutcome(arguments, loads, ParseDateTime)
  {
    var content := Argument(arguments, "content");
    if content.Err? {
      return Err(content.error);
    }
    var decoded := loads(content.value);
    if decoded.Err? {
      return Err(decoded.error);
    }
    var rows := decoded.value;
    var p := Progress([], None, None);
    var i := 0;
    while i < |rows|
      invariant 0 <= i <= |rows|
      invariant Steps(rows[..i], ParseDateTime) == Ok(p)
    {
      assert rows[..i + 1][..i] == rows[..i];
      var next := ProcessRow(p, rows[i]);
      if next.Err? {
        StepsError(rows, i + 1, ParseDateTime);
        return Err(next.error);
      }
      p := next.value;
      i := i + 1;
    }
    assert rows[..i] == rows;
    r := Finish(arguments, p);
  }

  // --------------------------------------------- properties of the insert

  /** A row without an `id` key stops the whole request with a KeyError, before any other field is read. */
  lemma MissingIdRaises(p: Progress, row: Dict, parse: Strptime)
    requires "id" !in row.keys
    ensures Step(p, row, parse) == Err(KeyError("id"))
  {
  }

  /** A row the handler keeps: it has an id and none of the required fields is ''. */
  predicate IsKept(row: Dict) {
    "id" in row.keys && SkipTest(Pop(row, "id").value) == Ok(false)
  }

  /** Which field makes a row skipped or raising: the first of the three, in order, that is '' or missing. */
  lemma SkipTestCases(d: Dict)
    ensures SkipTest(d) == Ok(true) <==>
      && "material_name" in d.keys
      && (|| d.fields["material_name"] == VStr("")
          || ("vendor" in d.keys && (|| d.fields["vendor"] == VStr("")
                                     || ("count" in d.keys && d.fields["count"] == VStr("")))))
    ensures SkipTest(d).Err? <==>
      || "material_name" !in d.keys
      || (d.fields["material_name"] != VStr("") && "vendor" !in d.keys)
      || (d.fields["material_name"] != VStr("") && d.fields["vendor"] != VStr("") && "count" !in d.keys)
  {
  }

  /**
   * A row with an id whose `material_name`, `vendor` or `count` is '' (the
   * ones before it being present and not '') contributes no tuple and leaves
   * the columns alone, but becomes the last row seen, without its id.
   */
  lemma SkippedRowContributesNothing(p: Progress, row: Dict, parse: Strptime)
    requires "id" in row.keys
    requires SkipTest(Pop(row, "id").value) == Ok(true)
    ensures Step(p, row, parse) == Ok(Progress(p.rowDetail, p.columns, Some(Pop(row, "id").value)))
  {
  }

  /** A key the handler can look up again after `join`, `split(',')`, `str` and `strip`. */
  predicate PlainKey(key: string) {
    IsAscii(key) && (forall i | 0 <= i < |key| :: key[i] != ',') && Strip(key) == key
  }

  predicate PlainKeys(ks: seq<string>) {
    forall i | 0 <= i < |ks| :: PlainKey(ks[i])
  }

  /** The pieces `columns.split(',')` gives back: the first key as is, every later one after a space. */
  function Spaced(ks: seq<string>): (ps: seq<string>)
    requires |ks| >= 1
    ensures |ps| == |ks| && ps[0] == ks[0] && forall i | 1 <= i < |ks| :: ps[i] == " " + ks[i]
  {
    if |ks| == 1 then [ks[0]] else Spaced(ks[..|ks| - 1]) + [" " + ks[|ks| - 1]]
  }

  predicate NoSeparator(s: string, c: char) {
    forall i | 0 <= i < |s| :: s[i] != c
  }

  lemma {:induction false} SplitNoSeparator(s: string, c: char)
    requires NoSeparator(s, c)
    ensures Split(s, c) == [s]
  {
    if |s| > 0 {
      SplitNoSeparator(s[..|s| - 1], c);
      assert s[..|s| - 1] + [s[|s| - 1]] == s;
    }
  }

  /** Text after the last separator becomes the last piece. */
  lemma {:induction false} SplitAfterSeparator(a: string, c: char, w: string)
    requires NoSeparator(w, c)
    ensures Split(a + [c] + w, c) == Split(a, c) + [w]
    decreases |w|
  {
    var s := a + [c] + w;
    if |w| == 0 {
      assert s[..|s| - 1] == a;
    } else {
      var w', x := w[..|w| - 1], w[|w| - 1];
      assert s[..|s| - 1] == a + [c] + w';
      SplitAfterSeparator(a, c, w');
      var rest := Split(a, c) + [w'];
      assert rest[..|rest| - 1] == Split(a, c);
      assert w' + [x] == w;
    }
  }

  lemma {:induction false} SplitJoin(ks: seq<string>)
    requires |ks| >= 1
    requires forall i | 0 <= i < |ks| :: NoSeparator(ks[i], ',')
    ensures Split(Join(", ", ks), ',') == Spaced(ks)
  {
    if |ks| == 1 {
      SplitNoSeparator(ks[0], ',');
    } else {
      var init, lastKey := ks[..|ks| - 1], ks[|ks| - 1];
      SplitJoin(init);
      var spaced := " " + lastKey;
      assert Join(", ", ks) == Join(", ", init) + [','] + spaced;
      SplitAfterSeparator(Join(", ", init), ',', spaced);
    }
  }

  lemma TrimRightPrefix(s: string)
    ensures TrimRight(s) == s[..|TrimRight(s)|]
  {
  }

  lemma TrimLeftSuffix(s: string)
    ensures TrimLeft(s) == s[|s| - |TrimLeft(s)|..]
  {
  }

  /** A stripped key stays stripped, and so does the key after the space `join` put before it. */
  lemma StripSpaced(key: string)
    requires Strip(key) == key
    ensures Strip(" " + key) == key
  {
    TrimRightPrefix(key);
    assert TrimRight(key) == key;
    var s := " " + key;
    if |key| == 0 {
      assert TrimRight(s) == TrimRight(s[..0]);
    } else {
      assert TrimRight(s) == s;
      assert s[1..] == key;
      TrimLeftSuffix(key);
      assert TrimLeft(key) == key;
    }
  }

  /** Piece i converts with `str` and strips to key i of the object, for every piece. */
  predicate NamesKeys(d: Dict, ps: seq<string>) {
    && |ps| <= |d.keys|
    && (|ps| > 0 ==>
          && NamesKeys(d, ps[..|ps| - 1])
          && IsAscii(ps[|ps| - 1]) && Strip(ps[|ps| - 1]) == d.keys[|ps| - 1])
  }

  /** The last piece converts and names a key: its value ends the tuple. */
  lemma BuildTupleLast(d: Dict, ps: seq<string>)
    requires |ps| > 0 && BuildTuple(d, ps[..|ps| - 1]).Ok?
    requires IsAscii(ps[|ps| - 1]) && Strip(ps[|ps| - 1]) in d.keys
    ensures BuildTuple(d, ps) == Ok(BuildTuple(d, ps[..|ps| - 1]).value + [d.fields[Strip(ps[|ps| - 1])]])
  {
  }

  lemma {:induction false} TupleOfPieces(d: Dict, ps: seq<string>)
    requires NamesKeys(d, ps)
    ensures BuildTuple(d, ps) == Ok(Values(d)[..|ps|])
  {
    if |ps| > 0 {
      var n := |ps| - 1;
      var vs := Values(d);
      TupleOfPieces(d, ps[..n]);
      BuildTupleLast(d, ps);
      assert vs[..n] + [vs[n]] == vs[..n + 1];
    }
  }

  lemma TupleOfAllPieces(d: Dict, ps: seq<string>)
    requires NamesKeys(d, ps) && |ps| == |d.keys|
    ensures BuildTuple(d, ps) == Ok(Values(d))
  {
    TupleOfPieces(d, ps);
    assert Values(d)[..|ps|] == Values(d);
  }

  /** A space before a key keeps it ASCII. */
  lemma AsciiSpaced(key: string)
    requires IsAscii(key)
    ensures IsAscii(" " + key)
  {
    var s := " " + key;
    assert forall i | 1 <= i < |s| :: s[i] == key[i - 1];
  }

  /** The first m pieces of the split name the first m keys. */
  lemma {:induction false} SpacedNames(d: Dict, m: int)
    requires 1 <= m <= |d.keys| && PlainKeys(d.keys)
    ensures NamesKeys(d, Spaced(d.keys[..m]))
  {
    var ks := d.keys[..m];
    var ps := Spaced(ks);
    var key := d.keys[m - 1];
    assert PlainKey(key);
    if m > 1 {
      SpacedNames(d, m - 1);
      assert ks[..m - 1] == d.keys[..m - 1];
      StripSpaced(key);
      AsciiSpaced(key);
    }
  }

  lemma SpacedTuple(d: Dict)
    requires |d.keys| >= 1 && PlainKeys(d.keys)
    ensures BuildTuple(d, Spaced(d.keys)) == Ok(Values(d))
  {
    SpacedNames(d, |d.keys|);
    assert d.keys[..|d.keys|] == d.keys;
    TupleOfAllPieces(d, Spaced(d.keys));
  }

  lemma PlainKeysNoSeparator(ks: seq<string>)
    requires PlainKeys(ks)
    ensures forall i | 0 <= i < |ks| :: NoSeparator(ks[i], ',')
  {
    forall i | 0 <= i < |ks|
      ensures NoSeparator(ks[i], ',')
    {
      assert PlainKey(ks[i]);
    }
  }

  /**
   * The tuple of a kept row follows the row's own key order: joining the keys
   * with ", ", splitting on ',' and stripping each piece gives the keys back,
   * so line 54 reads the values in `keys()` order.
   */
  lemma KeyOrderTuple(d: Dict)
    requires |d.keys| >= 1 && PlainKeys(d.keys)
    ensures BuildTuple(d, Split(Join(", ", d.keys), ',')) == Ok(Values(d))
  {
    PlainKeysNoSeparator(d.keys);
    SplitJoin(d.keys);
    SpacedTuple(d);
  }

  /**
   * A kept row with plain keys and a parseable date: the tuple is the values
   * of the row, in its own key order, after `id` is dropped and `enter_date`
   * parsed; the columns are those keys joined with ", ".
   */
  lemma KeptRowTuple(p: Progress, row: Dict, parse: Strptime)
    requires IsKept(row) && PlainKeys(row.keys)
    requires "enter_date" in row.keys && ParseEnterDate(row.fields["enter_date"], parse).Ok?
    ensures var k := Pop(row, "id").value;
      var dated := Assign(k, "enter_date", ParseEnterDate(row.fields["enter_date"], parse).value);
      && Step(p, row, parse) == Ok(Progress(p.rowDetail + [Values(dated)], Some(Join(", ", k.keys)), Some(dated)))
      && "id" !in dated.keys && |dated.keys| == |row.keys| - 1
  {
    var k := Pop(row, "id").value;
    WithoutLength(row.keys, "id");
    assert "material_name" in k.keys;
    assert PlainKeys(k.keys) by {
      forall i | 0 <= i < |k.keys| ensures PlainKey(k.keys[i]) {
        assert k.keys[i] in row.keys;
      }
    }
    var dated := Assign(k, "enter_date", ParseEnterDate(row.fields["enter_date"], parse).value);
    KeyOrderTuple(dated);
  }

  /** One step, seen from the loop: `k` becomes the row without its id; a kept row appends a tuple and sets `columns`, a skipped one leaves both. */
  lemma StepEffect(p: Progress, row: Dict, parse: Strptime)
    requires Step(p, row, parse).Ok?
    ensures Step(p, row, parse).value.last.Some? && Step(p, row, parse).value.last.value.keys == Without(row.keys, "id")
    ensures IsKept(row) ==>
      && Step(p, row, parse).value.columns == Some(Join(", ", Without(row.keys, "id")))
      && |Step(p, row, parse).value.rowDetail| == |p.rowDetail| + 1
    ensures !IsKept(row) ==> Step(p, row, parse).value.columns == p.columns && Step(p, row, parse).value.rowDetail == p.rowDetail
  {
    var k := Pop(row, "id").value;
    if SkipTest(k).value {
      assert Step(p, row, parse) == Ok(Progress(p.rowDetail, p.columns, Some(k)));
    } else {
      var kept := KeepRow(k, parse).value;
      assert Step(p, row, parse) == Ok(Progress(p.rowDetail + [kept.tuple], Some(kept.columns), Some(kept.row)));
    }
  }

  /** After the loop, `k` is the last row iterated, kept or skipped, with its `id` removed. */
  lemma {:induction false} LastRowSeen(rows: seq<Dict>, parse: Strptime)
    requires Steps(rows, parse).Ok?
    ensures Steps(rows, parse).value.last.None? <==> |rows| == 0
    ensures |rows| > 0 ==> Steps(rows, parse).value.last.value.keys == Without(rows[|rows| - 1].keys, "id")
  {
    if |rows| > 0 {
      StepEffect(Steps(rows[..|rows| - 1], parse).value, rows[|rows| - 1], parse);
    }
  }

  /** The number of rows the handler keeps. */
  function CountKept(rows: seq<Dict>): nat
  {
    if |rows| == 0 then 0 else CountKept(rows[..|rows| - 1]) + (if IsKept(rows[|rows| - 1]) then 1 else 0)
  }

  /** One tuple per kept row. */
  lemma {:induction false} OneTuplePerKeptRow(rows: seq<Dict>, parse: Strptime)
    requires Steps(rows, parse).Ok?
    ensures |Steps(rows, parse).value.rowDetail| == CountKept(rows)
  {
    if |rows| > 0 {
      var init := rows[..|rows| - 1];
      OneTuplePerKeptRow(init, parse);
      StepEffect(Steps(init, parse).value, rows[|rows| - 1], parse);
    }
  }

  /** The index of the last row satisfying `kept`, if any. */
  function LastWhere(rows: seq<Dict>, kept: Dict -> bool): (r: Option<nat>)
    ensures r.Some? ==> r.value < |rows| && kept(rows[r.value])
  {
    if |rows| == 0 then None
    else if kept(rows[|rows| - 1]) then Some(|rows| - 1)
    else LastWhere(rows[..|rows| - 1], kept)
  }

  /** No row after the last one found satisfies `kept`; with none found, no row at all does. */
  lemma {:induction false} LastWhereIsLast(rows: seq<Dict>, kept: Dict -> bool)
    ensures LastWhere(rows, kept).None? ==> forall i | 0 <= i < |rows| :: !kept(rows[i])
    ensures LastWhere(rows, kept).Some? ==> forall i | LastWhere(rows, kept).value < i < |rows| :: !kept(rows[i])
  {
    if |rows| > 0 && !kept(rows[|rows| - 1]) {
      var init := rows[..|rows| - 1];
      LastWhereIsLast(init, kept);
      assert forall i | 0 <= i < |init| :: init[i] == rows[i];
    }
  }

  /** A row satisfying `kept` with none after it is the one found. */
  lemma {:induction false} LastWhereFinds(rows: seq<Dict>, kept: Dict -> bool, j: int)
    requires 0 <= j < |rows| && kept(rows[j])
    requires forall i | j < i < |rows| :: !kept(rows[i])
    ensures LastWhere(rows, kept) == Some(j)
  {
    var n := |rows| - 1;
    if j < n {
      var init := rows[..n];
      assert init[j] == rows[j];
      assert forall i | j < i < n :: init[i] == rows[i];
      LastWhereFinds(init, kept, j);
    }
  }

  /** The index of the last row the handler keeps, if any. */
  function LastKept(rows: seq<Dict>): Option<nat> {
    LastWhere(rows, IsKept)
  }

  /** After the loop, `columns` holds the keys of the last kept row without `id`, and is unbound when none was kept. */
  lemma {:induction false} ColumnsOfLastKept(rows: seq<Dict>, parse: Strptime)
    requires Steps(rows, parse).Ok?
    ensures Steps(rows, parse).value.columns
      == if LastKept(rows).None? then None else Some(Join(", ", Without(rows[LastKept(rows).value].keys, "id")))
  {
    if |rows| > 0 {
      var n := |rows| - 1;
      var init := rows[..n];
      assert Steps(init, parse).Ok?;
      var p := Steps(init, parse).value;
      assert Steps(rows, parse) == Step(p, rows[n], parse);
      StepEffect(p, rows[n], parse);
      if !IsKept(rows[n]) {
        ColumnsOfLastKept(init, parse);
        assert LastKept(rows) == LastKept(init);
        if LastKept(init).Some? {
          assert init[LastKept(init).value] == rows[LastKept(init).value];
        }
      }
    }
  }

  /** After the loop, `columns` is bound exactly when some row was kept. */
  lemma ColumnsBoundIffKept(rows: seq<Dict>, parse: Strptime)
    requires Steps(rows, parse).Ok?
    ensures Steps(rows, parse).value.columns.Some? <==> exists i | 0 <= i < |rows| :: IsKept(rows[i])
  {
    ColumnsOfLastKept(rows, parse);
    LastWhereIsLast(rows, IsKept);
  }

  /** When row j is kept and no later one is, `columns` holds row j's keys, without `id`. */
  lemma ColumnsFromLastKept(rows: seq<Dict>, j: int, parse: Strptime)
    requires Steps(rows, parse).Ok?
    requires 0 <= j < |rows| && IsKept(rows[j])
    requires forall i | j < i < |rows| :: !IsKept(rows[i])
    ensures Steps(rows, parse).value.columns == Some(Join(", ", Without(rows[j].keys, "id")))
  {
    ColumnsOfLastKept(rows, parse);
    LastWhereFinds(rows, IsKept, j);
  }

  /**
   * The placeholder count is the key count of the last row iterated, id
   * removed, whether that row was kept or skipped; the column list is that
   * of the last kept row.
   */
  lemma PlaceholdersFromLastRow(arguments: map<string, seq<string>>, rows: seq<Dict>, j: int, parse: Strptime)
    requires Steps(rows, parse).Ok?
    requires 0 <= j < |rows| && IsKept(rows[j]) && forall i | j < i < |rows| :: !IsKept(rows[i])
    requires Argument(arguments, "table").Ok?
    ensures Finish(arguments, Steps(rows, parse).value)
      == Ok(Batch(InsertSql(arguments["table"][0],
                            Join(", ", Without(rows[j].keys, "id")),
                            Placeholders(|Without(rows[|rows| - 1].keys, "id")|)),
                  Steps(rows, parse).value.rowDetail))
  {
    LastRowSeen(rows, parse);
    ColumnsFromLastKept(rows, j, parse);
  }

  /** If every row is skipped, building the statement fails on the unbound `columns`. */
  lemma AllSkippedRaises(arguments: map<string, seq<string>>, rows: seq<Dict>, parse: Strptime)
    requires Steps(rows, parse).Ok? && |rows| > 0
    requires forall i | 0 <= i < |rows| :: !IsKept(rows[i])
    requires Argument(arguments, "table").Ok?
    ensures Finish(arguments, Steps(rows, parse).value) == Err(NameError("columns"))
  {
    LastRowSeen(rows, parse);
    ColumnsBoundIffKept(rows, parse);
  }

  // ------------------------------------- placeholders of a skipped last row

  /** A row the handler keeps: an id, the three required fields set, and a date. */
  function KeptExample(): Dict {
    Object(["id", "material_name", "vendor", "count", "enter_date"],
           map["id" := VInt(1), "material_name" := VStr("bolt"), "vendor" := VStr("acme"),
               "count" := VStr("3"), "enter_date" := VStr("2018-05-04 10:00:00")])
  }

  /** A row the handler skips: its material name is ''. */
  function SkippedExample(): Dict {
    Object(["id", "material_name"], map["id" := VInt(2), "material_name" := VStr("")])
  }

  /** None of the three required fields empty: the row is not skipped. */
  lemma RequiredFieldsSet(d: Dict)
    requires "material_name" in d.fields && d.fields["material_name"] != VStr("")
    requires "vendor" in d.fields && d.fields["vendor"] != VStr("")
    requires "count" in d.fields && d.fields["count"] != VStr("")
    ensures SkipTest(d) == Ok(false)
  {
  }

  /** Popping one key leaves every other field as it was. */
  lemma PopKeeps(d: Dict, key: string, other: string)
    requires key in d.fields && other in d.fields && other != key
    ensures other in Pop(d, key).value.fields && Pop(d, key).value.fields[other] == d.fields[other]
  {
  }

  lemma KeptExampleIsKept()
    ensures IsKept(KeptExample())
  {
    var row := KeptExample();
    assert "id" in row.fields;
    assert "material_name" in row.fields && row.fields["material_name"] == VStr("bolt");
    assert "vendor" in row.fields && row.fields["vendor"] == VStr("acme");
    assert "count" in row.fields && row.fields["count"] == VStr("3");
    PopKeeps(row, "id", "material_name");
    PopKeeps(row, "id", "vendor");
    PopKeeps(row, "id", "count");
    RequiredFieldsSet(Pop(row, "id").value);
  }

  /**
   * As written, a skipped last row sets the placeholder count: after a kept
   * row with four columns and a skipped row with one field left, the
   * statement names four columns but has one placeholder.
   */
  lemma PlaceholderMismatch(parse: Strptime)
    requires parse("2018-05-04 10:00:00").Ok?
    ensures Steps([KeptExample(), SkippedExample()], parse).Ok?
    ensures Finish(map["table" := ["warehouse_record"]], Steps([KeptExample(), SkippedExample()], parse).value).Ok?
    ensures Finish(map["table" := ["warehouse_record"]], Steps([KeptExample(), SkippedExample()], parse).value).value.sql
      == InsertSql("warehouse_record", Join(", ", ["material_name", "vendor", "count", "enter_date"]), "%s")
  {
    var rows := [KeptExample(), SkippedExample()];
    ExampleKeys();
    ExampleSteps(parse);
    KeptExampleIsKept();
    SkippedExampleIsSkipped();
    PlaceholdersFromLastRow(map["table" := ["warehouse_record"]], rows, 0, parse);
    assert Placeholders(1) == "%s";
  }

  /** A non-empty word of lower-case letters and underscores is a plain key. */
  lemma WordIsPlain(key: string)
    requires |key| > 0 && forall i | 0 <= i < |key| :: 'a' <= key[i] <= 'z' || key[i] == '_'
    ensures PlainKey(key)
  {
    assert TrimRight(key) == key;
    assert TrimLeft(key) == key;
  }

  lemma ExampleKeys()
    ensures Without(KeptExample().keys, "id") == ["material_name", "vendor", "count", "enter_date"]
    ensures Without(SkippedExample().keys, "id") == ["material_name"]
  {
    var keys := KeptExample().keys;
    assert keys[1..] == ["material_name", "vendor", "count", "enter_date"];
    WithoutAbsent(keys[1..], "id");
    var skipped := SkippedExample().keys;
    assert skipped[1..] == ["material_name"];
    WithoutAbsent(skipped[1..], "id");
  }

  lemma ExampleKeysPlain()
    ensures PlainKeys(KeptExample().keys)
  {
    var keys := KeptExample().keys;
    forall i | 0 <= i < |keys|
      ensures PlainKey(keys[i])
    {
      WordIsPlain(keys[i]);
    }
  }

  lemma SkippedExampleIsSkipped()
    ensures "id" in SkippedExample().keys
    ensures SkipTest(Pop(SkippedExample(), "id").value) == Ok(true)
  {
    var row := SkippedExample();
    var k := Pop(row, "id").value;
    assert k.fields == row.fields - {"id"};
    assert "material_name" in k.fields && k.fields["material_name"] == VStr("");
  }

  lemma ExampleFirstStep(parse: Strptime)
    requires parse("2018-05-04 10:00:00").Ok?
    ensures Steps([KeptExample()], parse).Ok?
  {
    var row := KeptExample();
    ExampleKeysPlain();
    KeptExampleIsKept();
    assert row.fields["enter_date"] == VStr("2018-05-04 10:00:00");
    KeptRowTuple(Progress([], None, None), row, parse);
    assert [row][..0] == [];
  }

  lemma ExampleSteps(parse: Strptime)
    requires parse("2018-05-04 10:00:00").Ok?
    ensures Steps([KeptExample(), SkippedExample()], parse).Ok?
  {
    var rows := [KeptExample(), SkippedExample()];
    ExampleFirstStep(parse);
    assert rows[..1] == [KeptExample()];
    SkippedExampleIsSkipped();
    SkippedRowContributesNothing(Steps([KeptExample()], parse).value, rows[1], parse);
  }

  /** Lines 55-56 with the placeholders counted from the columns the statement names. */
  function FinishCorrected(arguments: map<string, seq<string>>, p: Progress): (r: Result<Batch, PyError>)
    ensures r.Ok? ==> r.value.rows == p.rowDetail
  {
    match p.last
    case None => Err(NameError("k"))
    case Some(_) =>
      var table :- Argument(arguments, "table");
      match p.columns
      case None => Err(NameError("columns"))
      case Some(columns) => Ok(Batch(InsertSql(table, columns, Placeholders(|Split(columns, ',')|)), p.rowDetail))
  }

  /**
   * Corrected, the statement has one placeholder per column of the last kept
   * row, whatever rows were skipped after it.
   */
  lemma PlaceholdersMatchColumns(arguments: map<string, seq<string>>, rows: seq<Dict>, j: int, parse: Strptime)
    requires Steps(rows, parse).Ok?
    requires 0 <= j < |rows| && IsKept(rows[j]) && forall i | j < i < |rows| :: !IsKept(rows[i])
    requires PlainKeys(rows[j].keys)
    requires Argument(arguments, "table").Ok?
    ensures var columns := Without(rows[j].keys, "id");
      FinishCorrected(arguments, Steps(rows, parse).value)
        == Ok(Batch(InsertSql(arguments["table"][0], Join(", ", columns), Placeholders(|columns|)),
                    Steps(rows, parse).value.rowDetail))
  {
    var columns := Without(rows[j].keys, "id");
    LastRowSeen(rows, parse);
    ColumnsFromLastKept(rows, j, parse);
    assert "material_name" in columns;
    assert PlainKeys(columns) by {
      forall i | 0 <= i < |columns| ensures PlainKey(columns[i]) {
        assert columns[i] in rows[j].keys;
      }
    }
    PlainKeysNoSeparator(columns);
    SplitJoin(columns);
  }

  // ----------------------------------------------------------- the query

  const QueryPrefix: string := "select * from warehouse_record where material_name regexp "
  const QuerySuffix: string := " limit 5"

  /** The query sent for one argument value: the value is pasted in as is, unquoted and unescaped. */
  function QuerySql(value: string): (sql: string)
    ensures |sql| == |QueryPrefix| + |value| + |QuerySuffix|
    ensures sql[..|QueryPrefix|] == QueryPrefix
    ensures sql[|QueryPrefix|..|QueryPrefix| + |value|] == value
  {
    QueryPrefix + value + QuerySuffix
  }

  /** Different argument values give different statements. */
  lemma QuerySqlInjective(a: string, b: string)
    requires QuerySql(a) == QuerySql(b)
    ensures a == b
  {
    assert |a| == |b|;
  }

  /** A database fetch: the column names and the rows, or the raised error. */
  type Fetch = string -> Result<(seq<string>, seq<seq<Value>>), PyError>

  /** The query loop (lines 27-29): every argument is queried in turn and overwrites `column_names, data`. */
  function QueryLoop(arguments: seq<(string, seq<string>)>, fetch: Fetch): (r: Result<Option<(seq<string>, seq<seq<Value>>)>, PyError>)
    ensures r.Ok? ==> (r.value.None? <==> |arguments| == 0)
  {
    if |arguments| == 0 then Ok(None)
    else
      var prev :- QueryLoop(arguments[..|arguments| - 1], fetch);
      var values := arguments[|arguments| - 1].1;
      if |values| == 0 then Err(IndexError)
      else
        var result :- fetch(QuerySql(values[0]));
        Ok(Some(result))
  }

  /** The handler's outcome: no argument leaves `column_names` unbound, otherwise the last result is serialized. */
  function QueryOutcome(arguments: seq<(string, seq<string>)>, fetch: Fetch): Result<Json, PyError>
  {
    var last :- QueryLoop(arguments, fetch);
    match last
    case None => Err(NameError("column_names"))
    case Some((columnNames, data)) => EncodeDocument(ZippedRows(columnNames, data))
  }

  /** The statements the loop sends, in order. */
  function QueriesSent(arguments: seq<(string, seq<string>)>): (sqls: seq<string>)
    requires forall i | 0 <= i < |arguments| :: |arguments[i].1| > 0
    ensures |sqls| == |arguments|
    ensures forall i | 0 <= i < |arguments| :: sqls[i] == QuerySql(arguments[i].1[0])
  {
    seq(|arguments|, i requires 0 <= i < |arguments| => QuerySql(arguments[i].1[0]))
  }

  lemma {:induction false} QueryLoopError(arguments: seq<(string, seq<string>)>, fetch: Fetch, n: nat)
    requires n <= |arguments| && QueryLoop(arguments[..n], fetch).Err?
    ensures QueryLoop(arguments, fetch) == QueryLoop(arguments[..n], fetch).PropagateFailure()
    decreases |arguments| - n
  {
    if n < |arguments| {
      assert arguments[..n + 1][..n] == arguments[..n];
      QueryLoopError(arguments, fetch, n + 1);
    } else {
      assert arguments[..n] == arguments;
    }
  }

  /**
   * The query handler (lines 26-31), over the request arguments in the
   * dictionary's iteration order. `executed` lists the statements sent.
   */
  method Query(arguments: seq<(string, seq<string>)>, fetch: Fetch) returns (r: Result<Json, PyError>, executed: seq<string>)
    ensures r == QueryOutcome(arguments, fetch)
    ensures r.Ok? ==> (forall i | 0 <= i < |arguments| :: |arguments[i].1| > 0) && executed == QueriesSent(arguments)
  {
    executed := [];
    var columnNames: seq<string> := [];
    var data: seq<seq<Value>> := [];
    var i := 0;
    while i < |arguments|
      invariant 0 <= i <= |arguments|
      invariant forall j | 0 <= j < i :: |arguments[j].1| > 0
      invariant executed == QueriesSent(arguments[..i])
      invariant QueryLoop(arguments[..i], fetch) == (if i == 0 then Ok(None) else Ok(Some((columnNames, data))))
    {
      assert arguments[..i + 1][..i] == arguments[..i];
      var values := arguments[i].1;
      if |values| == 0 {
        QueryLoopError(arguments, fetch, i + 1);
        return Err(IndexError), executed;
      }
      var sql := QuerySql(values[0]);
      executed := executed + [sql];
      var fetched := fetch(sql);
      if fetched.Err? {
        QueryLoopError(arguments, fetch, i + 1);
        return Err(fetched.error), executed;
      }
      columnNames, data := fetched.value.0, fetched.value.1;
      i := i + 1;
    }
    assert arguments[..i] == arguments;
    if i == 0 {
      return Err(NameError("column_names")), executed;
    }
    r := JsonFormated(columnNames, data);
  }

  /**
   * Only the last argument's result reaches the serializer: once every query
   * goes through, the outcome is that of the last argument alone.
   */
  lemma LastArgumentWins(arguments: seq<(string, seq<string>)>, fetch: Fetch)
    requires |arguments| > 0
    requires QueryLoop(arguments, fetch).Ok?
    ensures var v := arguments[|arguments| - 1].1;
      && |v| > 0 && fetch(QuerySql(v[0])).Ok?
      && QueryOutcome(arguments, fetch) == QueryOutcome([arguments[|arguments| - 1]], fetch)
  {
    var last := [arguments[|arguments| - 1]];
    assert last[..0] == [];
    assert QueryLoop(last[..0], fetch) == Ok(None);
    assert QueryLoop(arguments[..|arguments| - 1], fetch).Ok?;
  }

  /** Without any argument the handler raises on the unbound `column_names`. */
  lemma NoArgumentRaises(fetch: Fetch)
    ensures QueryOutcome([], fetch) == Err(NameError("column_names"))
  {
  }
}
