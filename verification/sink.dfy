/** The SQLite sink: `valid_column_key`, `column_names_csv`, the module-level
    `current_columns` / `current_columns_types` tables that `insert_into_db`
    grows, and the type dispatch of `convert_db_to_parquet`. The connection is
    modelled by the list of statements executed on it. */
module Sink {
  import opened Wrappers
  import opened Strings
  import opened Dicts
  import opened Values

  /** A character of the class `[a-zA-Z0-9 _@/:\[\]-]`. */
  predicate ColumnChar(c: char) {
    || 'a' <= c <= 'z' || 'A' <= c <= 'Z' || '0' <= c <= '9'
    || c == ' ' || c == '_' || c == '@' || c == '/' || c == ':' || c == '[' || c == ']' || c == '-'
  }

  /** The rest of a key after its first character: characters of the
      class, up to an optional final newline. */
  predicate ClassTail(s: string)
    ensures ClassTail(s) ==> '"' !in s && ',' !in s
    decreases |s|
  {
    s == "" || s == "\n" || (ColumnChar(s[0]) && ClassTail(s[1..]))
  }

  /** `re.match(r'^[a-zA-Z0-9 _@/:\[\]-]+$', k)`: one or more characters of
      the class; Python's `$` also matches just before a final newline. */
  function ValidColumnKey(k: string): (r: bool)
    ensures r ==> k != "" && '"' !in k && ',' !in k
  {
    k != "" && ColumnChar(k[0]) && ClassTail(k[1..])
  }

  /** Character by character: every character of a valid key is in the
      class, except that the last one may be a newline after at least one
      character of the class. */
  lemma {:induction false} ClassTailChars(s: string, first: bool)
    ensures (if first then s != "" && ColumnChar(s[0]) && ClassTail(s[1..]) else ClassTail(s)) <==>
      && (first ==> s != "")
      && (forall i :: 0 <= i < |s| ==> ColumnChar(s[i]) || ((!first || 0 < i) && i == |s| - 1 && s[i] == '\n'))
    decreases |s|
  {
    if s != "" {
      ClassTailChars(s[1..], false);
      assert forall i :: 0 < i < |s| ==> s[1..][i - 1] == s[i];
    }
  }

  lemma ValidColumnKeyChars(k: string)
    ensures ValidColumnKey(k) <==>
      && k != ""
      && (forall i :: 0 <= i < |k| ==> ColumnChar(k[i]) || (0 < i && i == |k| - 1 && k[i] == '\n'))
  {
    ClassTailChars(k, true);
  }

  function Quote(c: string): string { "\"" + c + "\"" }

  /** `column_names_csv(columns)`: each name in double quotes, joined by
      commas. */
  function ColumnNamesCsv(columns: seq<string>): (s: string)
    ensures columns == [] <==> s == ""
    decreases |columns|
  {
    if columns == [] then ""
    else if |columns| == 1 then Quote(columns[0])
    else Quote(columns[0]) + "," + ColumnNamesCsv(columns[1..])
  }

  /** The index of the first double quote at or after `i`, or `|s|`. */
  function FindQuote(s: string, i: nat): (j: nat)
    requires i <= |s|
    ensures i <= j <= |s| && (j < |s| ==> s[j] == '"')
    ensures forall m :: i <= m < j ==> s[m] != '"'
    decreases |s| - i
  {
    if i == |s| || s[i] == '"' then i else FindQuote(s, i + 1)
  }

  /** Reads a non-empty comma-separated list of double-quoted names. */
  function ParseQuoted(s: string): Option<seq<string>>
    decreases |s|
  {
    if s == "" || s[0] != '"' then None
    else
      var j := FindQuote(s, 1);
      if j == |s| then None
      else
        var name := s[1..j];
        var rest := s[j + 1..];
        if rest == "" then Some([name])
        else if rest[0] != ',' then None
        else match ParseQuoted(rest[1..])
          case None => None
          case Some(names) => Some([name] + names)
  }

  /** Reads a column list back: the inverse of `ColumnNamesCsv`. */
  function ParseColumnNames(s: string): Option<seq<string>> {
    if s == "" then Some([]) else ParseQuoted(s)
  }

  lemma FindQuoteAfterName(c: string, tail: string)
    requires '"' !in c
    ensures FindQuote(Quote(c) + tail, 1) == |c| + 1
  {
    var s := Quote(c) + tail;
    assert forall m :: 1 <= m < |c| + 1 ==> s[m] == c[m - 1];
    assert s[|c| + 1] == '"';
  }

  /** One quoted name, alone or followed by a comma and more. */
  lemma ParseQuotedStep(c: string, more: string)
    requires '"' !in c
    ensures ParseQuoted(Quote(c)) == Some([c])
    ensures more != "" ==>
      ParseQuoted(Quote(c) + "," + more) == (match ParseQuoted(more) case None => None case Some(names) => Some([c] + names))
  {
    FindQuoteAfterName(c, "");
    assert Quote(c) + "" == Quote(c);
    assert Quote(c)[1..|c| + 1] == c;
    assert Quote(c)[|c| + 2..] == "";
    if more != "" {
      var tail := "," + more;
      var s := Quote(c) + tail;
      assert Quote(c) + "," + more == s;
      FindQuoteAfterName(c, tail);
      assert s[1..|c| + 1] == c;
      assert s[|c| + 2..] == tail;
      assert tail[1..] == more;
    }
  }

  /** Names without double quotes read back from their column list. */
  lemma {:induction false} ColumnNamesRoundTrip(columns: seq<string>)
    requires forall i :: 0 <= i < |columns| ==> '"' !in columns[i]
    ensures ParseColumnNames(ColumnNamesCsv(columns)) == Some(columns)
    decreases |columns|
  {
    if columns != [] {
      ParseQuotedStep(columns[0], ColumnNamesCsv(columns[1..]));
      if |columns| == 1 {
        assert [columns[0]] == columns;
      } else {
        ColumnNamesRoundTrip(columns[1..]);
        assert [columns[0]] + columns[1..] == columns;
      }
    }
  }

  /** Valid column keys read back from the list they are written into. */
  lemma ValidColumnsRoundTrip(columns: seq<string>)
    requires forall i :: 0 <= i < |columns| ==> ValidColumnKey(columns[i])
    ensures ParseColumnNames(ColumnNamesCsv(columns)) == Some(columns)
  {
    ColumnNamesRoundTrip(columns);
  }

  /** The statements `insert_into_db` executes on the connection. */
  datatype Statement =
    | CreateTable(table: string, columns: seq<string>)
    | AddColumn(table: string, column: string)
    | InsertRow(table: string, columns: seq<string>, values: seq<string>)

  /** The SQL text of each statement; an inserted row is passed as `?`
      parameters. */
  function Sql(st: Statement): string {
    match st
    case CreateTable(t, cs) => "CREATE TABLE " + t + " (" + ColumnNamesCsv(cs) + ")"
    case AddColumn(t, c) => "ALTER TABLE " + t + " ADD COLUMN " + Quote(c)
    case InsertRow(t, cs, _) =>
      "INSERT INTO " + t + "( " + ColumnNamesCsv(cs) + " )VALUES( " + Join(seq(|cs|, _ => "?"), ",") + " )"
  }

  /** `str(v)`. The text of a set or a dict depends on Python's hash order
      and is supplied by `repr`. */
  function Show(v: Value, repr: Value -> string): string {
    match v
    case Str(s) => s
    case Nil => "None"
    case Num(n) => IntToString(n)
    case Set(_) => repr(v)
    case Rec(_) => repr(v)
  }

  function Row(d: Record, repr: Value -> string): seq<string> {
    seq(|d|, i requires 0 <= i < |d| => Show(d[i].1, repr))
  }

  function AssertMessage(k: string): string {
    "\"" + k + "\" is not a valid column name"
  }

  /** The loop that fills the column list of a new table: every key is
      checked and appended, the first invalid one stops the loop. */
  function CreateLoop(cols: seq<string>, keys: seq<string>): (r: (seq<string>, Option<string>))
    decreases |keys|
  {
    if keys == [] then (cols, None)
    else if !ValidColumnKey(keys[0]) then (cols, Some(keys[0]))
    else CreateLoop(cols + [keys[0]], keys[1..])
  }

  /** The loop that adds the missing columns: a key not yet a column is
      checked, appended and added by `ALTER TABLE`. */
  function AlterLoop(table: string, cols: seq<string>, added: seq<Statement>, keys: seq<string>)
    : (r: (seq<string>, seq<Statement>, Option<string>))
    decreases |keys|
  {
    if keys == [] then (cols, added, None)
    else if keys[0] in cols then AlterLoop(table, cols, added, keys[1..])
    else if !ValidColumnKey(keys[0]) then (cols, added, Some(keys[0]))
    else AlterLoop(table, cols + [keys[0]], added + [AddColumn(table, keys[0])], keys[1..])
  }

  /** The loop that records the type name of every key seen the first
      time. */
  function TypesLoop(types: Dict<string, string>, d: Record): Dict<string, string>
    decreases |d|
  {
    if d == [] then types else TypesLoop(RecordType(types, d[0]), d[1..])
  }

  /** One step of that loop. */
  function RecordType(types: Dict<string, string>, item: (string, Value)): Dict<string, string> {
    if item.0 in Keys(types) then types else Put(types, item.0, TypeName(item.1))
  }

  lemma TypesLoopStep(types: Dict<string, string>, d: Record, i: nat)
    requires i < |d|
    ensures TypesLoop(types, d[i..]) == TypesLoop(RecordType(types, d[i]), d[i + 1..])
  {
    assert d[i..][0] == d[i] && d[i..][1..] == d[i + 1..];
  }

  /** What one `insert_into_db` does to the table's columns and types, the
      statements it executes and the key whose assertion fails, if any. */
  datatype Outcome = Outcome(columns: seq<string>, types: Dict<string, string>, statements: seq<Statement>, error: Option<string>)

  /** The two column loops: the statements they execute and the key whose
      assertion fails, if any. A table without columns is created after the
      first loop; its keys are then all present for the second. */
  function ColumnsStage(table: string, cols: seq<string>, keys: seq<string>): (seq<string>, seq<Statement>, Option<string>) {
    var created := if cols == [] then CreateLoop(cols, keys) else (cols, None);
    if created.1.Some? then (created.0, [], created.1)
    else
      var first := if cols == [] then [CreateTable(table, created.0)] else [];
      var altered := AlterLoop(table, created.0, [], keys);
      (altered.0, first + altered.1, altered.2)
  }

  function InsertOutcome(table: string, cols: seq<string>, types: Dict<string, string>, d: Record, repr: Value -> string): Outcome {
    var keys := Keys(d);
    var st := ColumnsStage(table, cols, keys);
    if st.2.Some? then Outcome(st.0, types, st.1, st.2)
    else Outcome(st.0, TypesLoop(types, d), st.1 + [InsertRow(table, keys, Row(d, repr))], None)
  }

  /** The module-level state and the connection's log, as one value. */
  datatype Schema = Schema(columns: map<string, seq<string>>, types: map<string, Dict<string, string>>, executed: seq<Statement>) {
    /** `current_columns[table]`, a `defaultdict(list)`. */
    function Columns(table: string): seq<string> {
      if table in columns then columns[table] else []
    }

    /** `current_columns_types[table]`, a `defaultdict(dict)`. */
    function Types(table: string): Dict<string, string> {
      if table in types then types[table] else []
    }
  }

  /** The state after an insert with outcome `o`: the column list is always
      touched, the types only when the insert got as far as the type loop. */
  function Apply(s: Schema, table: string, o: Outcome): Schema {
    Schema(
      s.columns[table := o.columns],
      if o.error.None? then s.types[table := o.types] else s.types,
      s.executed + o.statements)
  }

  function InsertInto(s: Schema, table: string, d: Record, repr: Value -> string): Outcome {
    InsertOutcome(table, s.Columns(table), s.Types(table), d, repr)
  }

  /** `insert_into_db_multiple`: one insert per record, stopped by the first
      failing assertion. */
  function InsertAll(s: Schema, table: string, ld: seq<Record>, repr: Value -> string): (r: (Schema, Option<string>))
    decreases |ld|
  {
    if ld == [] then (s, None)
    else
      var o := InsertInto(s, table, ld[0], repr);
      if o.error.Some? then (Apply(s, table, o), o.error)
      else InsertAll(Apply(s, table, o), table, ld[1..], repr)
  }

  /** The first loop succeeds exactly when every key is valid, and then
      the column list is the keys in order. */
  lemma {:induction false} CreateLoopOk(cols: seq<string>, keys: seq<string>)
    ensures CreateLoop(cols, keys).1.None? <==> forall i :: 0 <= i < |keys| ==> ValidColumnKey(keys[i])
    ensures CreateLoop(cols, keys).1.None? ==> CreateLoop(cols, keys).0 == cols + keys
    decreases |keys|
  {
    if keys == [] {
      assert cols + keys == cols;
    } else if ValidColumnKey(keys[0]) {
      var rest := keys[1..];
      CreateLoopOk(cols + [keys[0]], rest);
      assert forall i :: 0 < i < |keys| ==> keys[i] == rest[i - 1];
      assert (cols + [keys[0]]) + rest == cols + keys;
    }
  }

  /** Otherwise the first loop stops at the first invalid key, with the keys
      before it appended. */
  lemma {:induction false} CreateLoopErr(cols: seq<string>, keys: seq<string>, i: nat)
    requires i < |keys| && !ValidColumnKey(keys[i])
    requires forall j :: 0 <= j < i ==> ValidColumnKey(keys[j])
    ensures CreateLoop(cols, keys) == (cols + keys[..i], Some(keys[i]))
    decreases |keys|
  {
    if i == 0 {
      assert cols + keys[..0] == cols;
    } else {
      var rest := keys[1..];
      assert ValidColumnKey(keys[0]);
      assert forall j :: 0 <= j < i - 1 ==> rest[j] == keys[j + 1];
      CreateLoopErr(cols + [keys[0]], rest, i - 1);
      assert (cols + [keys[0]]) + rest[..i - 1] == cols + keys[..i];
    }
  }

  /** One `ALTER TABLE` per added column, in order. */
  function AddColumns(table: string, cs: seq<string>): (r: seq<Statement>)
    ensures |r| == |cs|
    ensures forall i :: 0 <= i < |cs| ==> r[i] == AddColumn(table, cs[i])
  {
    seq(|cs|, i requires 0 <= i < |cs| => AddColumn(table, cs[i]))
  }

  /** The second loop only appends: the old columns stay first and every new
      column is a valid key. */
  lemma {:induction false} AlterLoopGrows(table: string, cols: seq<string>, added: seq<Statement>, keys: seq<string>)
    ensures var r := AlterLoop(table, cols, added, keys);
      && |cols| <= |r.0| && r.0[..|cols|] == cols
      && (forall i :: |cols| <= i < |r.0| ==> ValidColumnKey(r.0[i]) && r.0[i] in keys)
    decreases |keys|
  {
    var r := AlterLoop(table, cols, added, keys);
    if keys != [] && keys[0] in cols {
      AlterLoopGrows(table, cols, added, keys[1..]);
      assert forall k :: k in keys[1..] ==> k in keys;
    } else if keys != [] && ValidColumnKey(keys[0]) {
      var c := cols + [keys[0]];
      AlterLoopGrows(table, c, added + [AddColumn(table, keys[0])], keys[1..]);
      assert forall k :: k in keys[1..] ==> k in keys;
      assert r.0[..|cols|] == c[..|cols|];
    }
  }

  /** Each added column gets its `ALTER TABLE`, in order. */
  lemma {:induction false} AlterLoopStatements(table: string, cols: seq<string>, added: seq<Statement>, keys: seq<string>)
    ensures var r := AlterLoop(table, cols, added, keys);
      |cols| <= |r.0| && r.1 == added + AddColumns(table, r.0[|cols|..])
    decreases |keys|
  {
    var r := AlterLoop(table, cols, added, keys);
    if keys != [] && keys[0] in cols {
      AlterLoopStatements(table, cols, added, keys[1..]);
    } else if keys != [] && ValidColumnKey(keys[0]) {
      var c := cols + [keys[0]];
      AlterLoopStatements(table, c, added + [AddColumn(table, keys[0])], keys[1..]);
      AlterLoopGrows(table, c, added + [AddColumn(table, keys[0])], keys[1..]);
      assert r.0[|cols|] == c[|cols|];
      assert r.0[|cols|..] == [keys[0]] + r.0[|c|..];
      assert AddColumns(table, r.0[|cols|..]) == [AddColumn(table, keys[0])] + AddColumns(table, r.0[|c|..]);
    } else {
      assert r.0[|cols|..] == [];
    }
  }

  /** The second loop never appends a column twice. */
  lemma {:induction false} AlterLoopDistinct(table: string, cols: seq<string>, added: seq<Statement>, keys: seq<string>)
    requires Distinct(cols)
    ensures Distinct(AlterLoop(table, cols, added, keys).0)
    decreases |keys|
  {
    if keys != [] && keys[0] !in cols && ValidColumnKey(keys[0]) {
      var c := cols + [keys[0]];
      assert Distinct(c) by {
        forall i, j | 0 <= i < j < |c| ensures c[i] != c[j] {
          if j == |cols| { assert c[i] in cols; }
        }
      }
      AlterLoopDistinct(table, c, added + [AddColumn(table, keys[0])], keys[1..]);
    } else if keys != [] {
      AlterLoopDistinct(table, cols, added, keys[1..]);
    }
  }

  /** The second loop succeeds exactly when every key that is not already a
      column is valid, and then the columns are the old ones and the keys. */
  lemma {:induction false} AlterLoopOk(table: string, cols: seq<string>, added: seq<Statement>, keys: seq<string>)
    ensures var r := AlterLoop(table, cols, added, keys);
      && (r.2.None? <==> forall i :: 0 <= i < |keys| ==> keys[i] in cols || ValidColumnKey(keys[i]))
      && (r.2.None? ==> forall k :: k in r.0 <==> k in cols || k in keys)
      && (r.2.Some? ==> r.2.value in keys && r.2.value !in cols && !ValidColumnKey(r.2.value))
    decreases |keys|
  {
    if keys != [] {
      var rest := keys[1..];
      assert forall i :: 0 <= i < |rest| ==> rest[i] == keys[i + 1];
      assert keys == [keys[0]] + rest;
      if keys[0] in cols {
        AlterLoopOk(table, cols, added, rest);
      } else if ValidColumnKey(keys[0]) {
        var c := cols + [keys[0]];
        AlterLoopOk(table, c, added + [AddColumn(table, keys[0])], rest);
        var r := AlterLoop(table, cols, added, keys);
        if r.2.None? {
          forall i | 0 <= i < |keys| ensures keys[i] in cols || ValidColumnKey(keys[i]) {
            if i > 0 && keys[i] !in c { assert rest[i - 1] == keys[i]; }
          }
        } else {
          assert !(forall i :: 0 <= i < |keys| ==> keys[i] in cols || ValidColumnKey(keys[i])) by {
            var k := r.2.value;
            var i :| 0 <= i < |rest| && rest[i] == k;
            assert keys[i + 1] == k;
          }
        }
      }
    }
  }

  /** When every key is already a column, the second loop does nothing. */
  lemma {:induction false} AlterLoopAllPresent(table: string, cols: seq<string>, added: seq<Statement>, keys: seq<string>)
    requires forall i :: 0 <= i < |keys| ==> keys[i] in cols
    ensures AlterLoop(table, cols, added, keys) == (cols, added, None)
    decreases |keys|
  {
    if keys != [] {
      assert keys[0] in cols;
      AlterLoopAllPresent(table, cols, added, keys[1..]);
    }
  }

  /** The recorded type of a key is the one it already had, or the type
      name of its first value in the record. */
  lemma {:induction false} TypesLoopGet(types: Dict<string, string>, d: Record, k: string)
    ensures Get(TypesLoop(types, d), k) ==
      if k in Keys(types) then Get(types, k)
      else if Get(d, k).Some? then Some(TypeName(Get(d, k).value))
      else None
    decreases |d|
  {
    if d != [] {
      KeysCons(d);
      if d[0].0 !in Keys(types) {
        PutGet(types, d[0].0, TypeName(d[0].1), k);
      }
      TypesLoopGet(RecordType(types, d[0]), d[1..], k);
    }
  }

  /** An insert fails exactly when a key that is not yet a column is not a
      valid column name. */
  lemma InsertOk(table: string, cols: seq<string>, types: Dict<string, string>, d: Record, repr: Value -> string)
    ensures InsertOutcome(table, cols, types, d, repr).error.None? <==>
      forall i :: 0 <= i < |d| ==> d[i].0 in cols || ValidColumnKey(d[i].0)
  {
    var keys := Keys(d);
    if cols == [] {
      CreateLoopOk(cols, keys);
      var created := CreateLoop(cols, keys);
      if created.1.None? {
        AlterLoopAllPresent(table, created.0, [], keys);
      }
    } else {
      AlterLoopOk(table, cols, [], keys);
    }
  }

  /** The failing key is a key of the record that is not a column and not
      valid, and the exception carries it. */
  lemma InsertErr(table: string, cols: seq<string>, types: Dict<string, string>, d: Record, repr: Value -> string)
    ensures var o := InsertOutcome(table, cols, types, d, repr);
      o.error.Some? ==> o.error.value in Keys(d) && o.error.value !in cols && !ValidColumnKey(o.error.value)
  {
    var keys := Keys(d);
    if cols == [] {
      var created := CreateLoop(cols, keys);
      if created.1.Some? {
        CreateLoopOk(cols, keys);
        var i :| 0 <= i < |keys| && !ValidColumnKey(keys[i]);
        var m := FirstInvalid(keys, i);
        CreateLoopErr(cols, keys, m);
      } else {
        CreateLoopOk(cols, keys);
        AlterLoopAllPresent(table, created.0, [], keys);
      }
    } else {
      AlterLoopOk(table, cols, [], keys);
    }
  }

  /** The position of the first invalid key, given one. */
  function FirstInvalid(keys: seq<string>, i: nat): (m: nat)
    requires i < |keys| && !ValidColumnKey(keys[i])
    ensures m <= i && !ValidColumnKey(keys[m])
    ensures forall j :: 0 <= j < m ==> ValidColumnKey(keys[j])
  {
    if exists j :: 0 <= j < i && !ValidColumnKey(keys[j]) then
      var j :| 0 <= j < i && !ValidColumnKey(keys[j]);
      FirstInvalid(keys, j)
    else i
  }

  /** Columns are only ever appended, each new one is a valid key, and none
      appears twice. */
  lemma InsertColumnsGrow(table: string, cols: seq<string>, types: Dict<string, string>, d: Record, repr: Value -> string)
    ensures var o := InsertOutcome(table, cols, types, d, repr);
      && |cols| <= |o.columns| && o.columns[..|cols|] == cols
      && (forall i :: |cols| <= i < |o.columns| ==> ValidColumnKey(o.columns[i]))
      && (Distinct(cols) && IsDict(d) ==> Distinct(o.columns))
  {
    var keys := Keys(d);
    if cols == [] {
      var created := CreateLoop(cols, keys);
      CreateLoopOk(cols, keys);
      if created.1.Some? {
        var i :| 0 <= i < |keys| && !ValidColumnKey(keys[i]);
        var m := FirstInvalid(keys, i);
        CreateLoopErr(cols, keys, m);
        assert cols + keys[..m] == keys[..m];
      } else {
        AlterLoopAllPresent(table, created.0, [], keys);
      }
    } else {
      AlterLoopGrows(table, cols, [], keys);
      if Distinct(cols) {
        AlterLoopDistinct(table, cols, [], keys);
      }
    }
  }

  /** `[k for k in keys if k not in cols]`. */
  function Missing(cols: seq<string>, keys: seq<string>): (r: seq<string>)
    ensures forall k :: k in r <==> k in keys && k !in cols
  {
    if keys == [] then [] else (if keys[0] in cols then [] else [keys[0]]) + Missing(cols, keys[1..])
  }

  /** A column added before the keys are visited changes nothing for keys
      that differ from it. */
  lemma {:induction false} MissingAfterAdd(cols: seq<string>, x: string, keys: seq<string>)
    requires x !in keys
    ensures Missing(cols + [x], keys) == Missing(cols, keys)
  {
    if keys != [] {
      assert keys[0] != x && x !in keys[1..];
      MissingAfterAdd(cols, x, keys[1..]);
    }
  }

  /** Keys none of which is a column all survive the filter. */
  lemma {:induction false} MissingNone(cols: seq<string>, keys: seq<string>)
    requires forall k :: k in keys ==> k !in cols
    ensures Missing(cols, keys) == keys
  {
    if keys != [] {
      assert keys[0] in keys && forall k :: k in keys[1..] ==> k in keys;
      MissingNone(cols, keys[1..]);
    }
  }

  /** The second loop, run to its end over distinct keys, appends the keys
      that are not yet columns, in the keys' order. */
  lemma {:induction false} AlterLoopColumns(table: string, cols: seq<string>, added: seq<Statement>, keys: seq<string>)
    requires Distinct(keys)
    ensures var r := AlterLoop(table, cols, added, keys);
      r.2.None? ==> r.0 == cols + Missing(cols, keys)
    decreases |keys|
  {
    if keys != [] {
      var rest := keys[1..];
      assert Distinct(rest) by {
        forall i, j | 0 <= i < j < |rest| ensures rest[i] != rest[j] {
          assert rest[i] == keys[i + 1] && rest[j] == keys[j + 1];
        }
      }
      if keys[0] in cols {
        AlterLoopColumns(table, cols, added, rest);
      } else if ValidColumnKey(keys[0]) {
        var c := cols + [keys[0]];
        AlterLoopColumns(table, c, added + [AddColumn(table, keys[0])], rest);
        assert keys[0] !in rest by {
          forall i | 0 <= i < |rest| ensures rest[i] != keys[0] {
            assert rest[i] == keys[i + 1];
          }
        }
        MissingAfterAdd(cols, keys[0], rest);
        assert c + Missing(cols, rest) == cols + ([keys[0]] + Missing(cols, rest));
      }
    }
  }

  /** After a successful insert the columns are the old ones and the keys
      of the record; the new columns are the record's keys that were not
      columns yet, appended in the record's order. */
  lemma InsertColumnsOk(table: string, cols: seq<string>, types: Dict<string, string>, d: Record, repr: Value -> string)
    ensures var o := InsertOutcome(table, cols, types, d, repr);
      o.error.None? ==> forall k :: k in o.columns <==> k in cols || k in Keys(d)
    ensures var o := InsertOutcome(table, cols, types, d, repr);
      o.error.None? && IsDict(d) ==> o.columns == cols + Missing(cols, Keys(d))
  {
    var keys := Keys(d);
    if cols == [] {
      CreateLoopOk(cols, keys);
      var created := CreateLoop(cols, keys);
      if created.1.None? {
        AlterLoopAllPresent(table, created.0, [], keys);
        MissingNone(cols, keys);
      }
    } else {
      AlterLoopOk(table, cols, [], keys);
      if IsDict(d) {
        AlterLoopColumns(table, cols, [], keys);
      }
    }
  }

  /** A successful insert creates the table with the record's keys when it
      had no columns, and otherwise adds each new column; then it inserts
      the record's values under the record's keys. */
  lemma InsertStatements(table: string, cols: seq<string>, types: Dict<string, string>, d: Record, repr: Value -> string)
    ensures var o := InsertOutcome(table, cols, types, d, repr);
      o.error.None? ==>
        && |cols| <= |o.columns|
        && o.statements ==
          (if cols == [] then [CreateTable(table, Keys(d))] else AddColumns(table, o.columns[|cols|..]))
          + [InsertRow(table, Keys(d), Row(d, repr))]
  {
    var keys := Keys(d);
    var st := ColumnsStage(table, cols, keys);
    if cols == [] {
      CreateLoopOk(cols, keys);
      var created := CreateLoop(cols, keys);
      if created.1.None? {
        assert created.0 == keys;
        AlterLoopAllPresent(table, created.0, [], keys);
        assert st.1 == [CreateTable(table, keys)] + [];
      }
    } else {
      AlterLoopStatements(table, cols, [], keys);
      assert st.1 == [] + AlterLoop(table, cols, [], keys).1;
    }
  }

  /** The inserted row holds `str(d[c])` for each column `c` of the
      record. */
  lemma RowValues(d: Record, repr: Value -> string, i: nat)
    requires IsDict(d) && i < |d|
    ensures |Row(d, repr)| == |Keys(d)|
    ensures Get(d, Keys(d)[i]).Some? && Row(d, repr)[i] == Show(Get(d, Keys(d)[i]).value, repr)
  {
    GetAt(d, i);
  }

  /** A successful insert records the type of each key seen for the first
      time, from its value in the record, and keeps every recorded type. */
  lemma InsertTypes(table: string, cols: seq<string>, types: Dict<string, string>, d: Record, repr: Value -> string, k: string)
    ensures var o := InsertOutcome(table, cols, types, d, repr);
      o.error.None? ==>
        Get(o.types, k) ==
          (if k in Keys(types) then Get(types, k)
           else if Get(d, k).Some? then Some(TypeName(Get(d, k).value))
           else None)
  {
    TypesLoopGet(types, d, k);
  }

  /** Every column of the table has a recorded type. */
  predicate Typed(s: Schema, table: string) {
    forall c :: c in s.Columns(table) ==> c in Keys(s.Types(table))
  }

  /** A successful insert keeps every column typed. */
  lemma InsertKeepsTyped(s: Schema, table: string, d: Record, repr: Value -> string)
    requires Typed(s, table)
    ensures var o := InsertInto(s, table, d, repr);
      o.error.None? ==> Typed(Apply(s, table, o), table)
  {
    var o := InsertInto(s, table, d, repr);
    if o.error.None? {
      var cols := s.Columns(table);
      InsertColumnsOk(table, cols, s.Types(table), d, repr);
      forall c | c in o.columns ensures c in Keys(o.types) {
        InsertTypes(table, cols, s.Types(table), d, repr, c);
      }
    }
  }

  /** Every key of every record inserted without an assertion failure is a
      column afterwards, old columns stay, and the columns stay typed; a
      failure names an invalid key of one of the records. */
  lemma {:induction false} InsertAllSpec(s: Schema, table: string, ld: seq<Record>, repr: Value -> string)
    requires Typed(s, table)
    ensures var r := InsertAll(s, table, ld, repr);
      r.1.None? ==>
        && Typed(r.0, table)
        && (forall c :: c in s.Columns(table) ==> c in r.0.Columns(table))
        && (forall j, i :: 0 <= j < |ld| && 0 <= i < |ld[j]| ==> ld[j][i].0 in r.0.Columns(table))
    decreases |ld|
  {
    if ld != [] {
      var o := InsertInto(s, table, ld[0], repr);
      if o.error.None? {
        var s1 := Apply(s, table, o);
        InsertKeepsTyped(s, table, ld[0], repr);
        InsertColumnsOk(table, s.Columns(table), s.Types(table), ld[0], repr);
        InsertAllSpec(s1, table, ld[1..], repr);
        var r := InsertAll(s, table, ld, repr);
        if r.1.None? {
          forall j, i | 0 <= j < |ld| && 0 <= i < |ld[j]| ensures ld[j][i].0 in r.0.Columns(table) {
            if j == 0 {
              assert ld[0][i].0 in Keys(ld[0]);
            } else {
              assert ld[j] == ld[1..][j - 1];
            }
          }
        }
      }
    }
  }

  lemma {:induction false} InsertAllErr(s: Schema, table: string, ld: seq<Record>, repr: Value -> string)
    ensures var r := InsertAll(s, table, ld, repr);
      r.1.Some? ==> exists j :: 0 <= j < |ld| && r.1.value in Keys(ld[j]) && !ValidColumnKey(r.1.value)
    decreases |ld|
  {
    if ld != [] {
      var o := InsertInto(s, table, ld[0], repr);
      InsertErr(table, s.Columns(table), s.Types(table), ld[0], repr);
      if o.error.None? {
        InsertAllErr(Apply(s, table, o), table, ld[1..], repr);
        var r := InsertAll(s, table, ld, repr);
        if r.1.Some? {
          var j :| 0 <= j < |ld[1..]| && r.1.value in Keys(ld[1..][j]) && !ValidColumnKey(r.1.value);
          assert ld[1..][j] == ld[j + 1];
        }
      }
    }
  }

  /** The pandas dtype a column is converted to. */
  datatype Cast = Keep | Int64 | Float64 | Boolean

  function UnsupportedType(column: string, typeName: string): string {
    "Column " + column + ": type " + typeName + " not implemented yet."
  }

  /** The dispatch on the recorded Python type name of a column. */
  function CastFor(column: string, typeName: string): (r: Result<Cast>)
    ensures r.Err? ==> r.error.NotImplementedError?
  {
    if typeName == "str" then Ok(Keep)
    else if typeName == "int" then Ok(Int64)
    else if typeName == "float64" then Ok(Float64)
    else if typeName == "bool" then Ok(Boolean)
    else if typeName == "set" then Ok(Keep)
    else Err(NotImplementedError(UnsupportedType(column, typeName)))
  }

  /** For the types the converters record, strings and sets are kept as
      text, integers become `Int64`, and a column whose first value was
      `None` (or a nested dict) cannot be converted. */
  lemma CastForValue(column: string, v: Value)
    ensures CastFor(column, TypeName(v)).Ok? <==> !v.Nil? && !v.Rec?
    ensures (v.Str? || v.Set?) ==> CastFor(column, TypeName(v)) == Ok(Keep)
    ensures v.Num? ==> CastFor(column, TypeName(v)) == Ok(Int64)
    ensures v.Nil? ==> CastFor(column, TypeName(v)) == Err(NotImplementedError(UnsupportedType(column, "NoneType")))
  {
    match v
    case Str(_) => assert TypeName(v) == "str";
    case Nil => assert TypeName(v) == "NoneType";
    case Num(_) => assert TypeName(v) == "int";
    case Set(_) => assert TypeName(v) == "set";
    case Rec(_) => assert TypeName(v) == "dict";
  }

  /** The frame's columns: the table's columns without the index column. */
  function DataColumns(cols: seq<string>, indexCol: string): (r: seq<string>)
    ensures forall c :: c in r <==> c in cols && c != indexCol
    decreases |cols|
  {
    if cols == [] then []
    else (if cols[0] == indexCol then [] else [cols[0]]) + DataColumns(cols[1..], indexCol)
  }

  /** The conversion loop from the column `cs[0]` on, after the casts
      `acc`: a column without a recorded type raises `KeyError`, an
      unsupported type `NotImplementedError`. */
  function CastLoop(types: Dict<string, string>, acc: seq<(string, Cast)>, cs: seq<string>): Result<seq<(string, Cast)>>
    decreases |cs|
  {
    if cs == [] then Ok(acc)
    else match Get(types, cs[0])
      case None => Err(KeyError(cs[0]))
      case Some(t) =>
        match CastFor(cs[0], t)
        case Err(e) => Err(e)
        case Ok(c) => CastLoop(types, acc + [(cs[0], c)], cs[1..])
  }

  lemma CastLoopStep(types: Dict<string, string>, acc: seq<(string, Cast)>, cs: seq<string>, i: nat)
    requires i < |cs|
    ensures CastLoop(types, acc, cs[i..]) ==
      if Get(types, cs[i]).None? then Err(KeyError(cs[i]))
      else if CastFor(cs[i], Get(types, cs[i]).value).Err? then Err(CastFor(cs[i], Get(types, cs[i]).value).error)
      else CastLoop(types, acc + [(cs[i], CastFor(cs[i], Get(types, cs[i]).value).value)], cs[i + 1..])
  {
    assert cs[i..][0] == cs[i] && cs[i..][1..] == cs[i + 1..];
  }

  /** The conversion succeeds exactly when every column has a recorded type
      that the dispatch knows, and then each column gets the cast of its
      type, in order. */
  lemma {:induction false} CastLoopSpec(types: Dict<string, string>, acc: seq<(string, Cast)>, cs: seq<string>)
    ensures CastLoop(types, acc, cs).Ok? <==>
      forall i :: 0 <= i < |cs| ==> Get(types, cs[i]).Some? && CastFor(cs[i], Get(types, cs[i]).value).Ok?
    ensures CastLoop(types, acc, cs).Ok? ==>
      var r := CastLoop(types, acc, cs).value;
      && |r| == |acc| + |cs| && r[..|acc|] == acc
      && (forall i :: 0 <= i < |cs| ==> r[|acc| + i] == (cs[i], CastFor(cs[i], Get(types, cs[i]).value).value))
    decreases |cs|
  {
    if cs != [] {
      var t := Get(types, cs[0]);
      if t.Some? && CastFor(cs[0], t.value).Ok? {
        var a := acc + [(cs[0], CastFor(cs[0], t.value).value)];
        CastLoopSpec(types, a, cs[1..]);
        assert forall i :: 0 < i < |cs| ==> cs[i] == cs[1..][i - 1];
        var r := CastLoop(types, acc, cs);
        if r.Ok? {
          assert r.value[..|a|] == a;
          assert r.value[..|acc|] == a[..|acc|] == acc;
          assert r.value[|acc|] == a[|acc|];
        }
      }
    }
  }

  /** A table whose every column is typed by a value that is neither `None`
      nor a dict converts without error. */
  lemma ConvertibleTable(s: Schema, table: string, indexCol: string)
    requires Typed(s, table)
    requires forall c :: c in Keys(s.Types(table)) ==> Get(s.Types(table), c).value in ["str", "int", "set"]
    ensures CastLoop(s.Types(table), [], DataColumns(s.Columns(table), indexCol)).Ok?
  {
    CastLoopSpec(s.Types(table), [], DataColumns(s.Columns(table), indexCol));
  }

  /** The statement creates `table`. */
  predicate Creates(st: Statement, table: string) {
    st.CreateTable? && st.table == table
  }

  /** Some statement of `ex` creates `table`. */
  predicate HasCreate(ex: seq<Statement>, table: string) {
    exists j :: 0 <= j < |ex| && Creates(ex[j], table)
  }

  /** Every statement on `table` comes at or after its `CREATE TABLE`. */
  predicate CreatedFirst(ex: seq<Statement>, table: string) {
    forall i :: 0 <= i < |ex| && ex[i].table == table ==> HasCreate(ex[..i + 1], table)
  }

  /** The table exists before anything refers to it: a table with columns
      has been created, and every statement on it comes after its creation. */
  predicate TableOrder(s: Schema, table: string) {
    && (s.Columns(table) != [] ==> HasCreate(s.executed, table))
    && CreatedFirst(s.executed, table)
  }

  /** Statements appended after a creation, or starting with one, keep the
      order. */
  lemma AppendKeepsOrder(ex: seq<Statement>, more: seq<Statement>, table: string)
    requires CreatedFirst(ex, table)
    requires HasCreate(ex, table) || (more != [] && Creates(more[0], table))
    ensures CreatedFirst(ex + more, table) && HasCreate(ex + more, table)
  {
    var all := ex + more;
    var n := |ex|;
    var j :| 0 <= j < |all| && Creates(all[j], table) && j <= n by {
      if HasCreate(ex, table) {
        var j :| 0 <= j < n && Creates(ex[j], table);
        assert all[j] == ex[j];
      } else {
        assert all[n] == more[0];
      }
    }
    forall i | 0 <= i < |all| && all[i].table == table
      ensures HasCreate(all[..i + 1], table)
    {
      if i < n {
        assert all[..i + 1] == ex[..i + 1];
        assert all[i] == ex[i];
      } else {
        assert all[..i + 1][j] == all[j];
      }
    }
    assert all[..|all|][j] == all[j];
  }

  /** As written, an invalid key in the first record of a table leaves the
      keys before it in `current_columns` although `CREATE TABLE` never ran;
      the next record then only inserts, into a table that does not exist. */
  lemma AsWrittenSkipsCreate()
    ensures var repr := (v: Value) => "";
      var s0 := Schema(map[], map[], []);
      var o1 := InsertInto(s0, "t", [("a", Str("x")), ("b,c", Str("y"))], repr);
      var s1 := Apply(s0, "t", o1);
      var o2 := InsertInto(s1, "t", [("a", Str("z"))], repr);
      var s2 := Apply(s1, "t", o2);
      && TableOrder(s0, "t")
      && o1.error == Some("b,c") && s1.Columns("t") == ["a"] && s1.executed == []
      && o2.error.None? && s2.executed == [InsertRow("t", ["a"], ["z"])]
      && !TableOrder(s1, "t") && !TableOrder(s2, "t")
  {
    var repr := (v: Value) => "";
    var s0 := Schema(map[], map[], []);
    var d1 := [("a", Str("x")), ("b,c", Str("y"))];
    assert Keys(d1) == ["a", "b,c"];
    assert ValidColumnKey("a");
    assert !ValidColumnKey("b,c");
    var keys := ["a", "b,c"];
    assert keys[0] == "a" && keys[1..] == ["b,c"] && [] + [keys[0]] == ["a"];
    assert CreateLoop([], keys) == CreateLoop(["a"], ["b,c"]);
    var o1 := InsertInto(s0, "t", d1, repr);
    var s1 := Apply(s0, "t", o1);
    var d2 := [("a", Str("z"))];
    assert Keys(d2) == ["a"];
    assert AlterLoop("t", ["a"], [], ["a"]) == AlterLoop("t", ["a"], [], []);
    assert Row(d2, repr) == ["z"];
  }

  /** `insert_into_db` with the first loop building the column list aside
      and storing it only once every key has passed: a failing first record
      leaves the table without columns. */
  function InsertFixed(s: Schema, table: string, d: Record, repr: Value -> string): Outcome {
    var o := InsertInto(s, table, d, repr);
    if s.Columns(table) == [] && o.error.Some? then o.(columns := []) else o
  }

  /** For a table without columns, a failing insert executes nothing, and a
      successful one starts with `CREATE TABLE`. */
  lemma NewTableStatements(table: string, types: Dict<string, string>, d: Record, repr: Value -> string)
    ensures var o := InsertOutcome(table, [], types, d, repr);
      && (o.error.Some? ==> o.statements == [])
      && (o.error.None? ==> o.statements == [CreateTable(table, Keys(d)), InsertRow(table, Keys(d), Row(d, repr))])
  {
    var keys := Keys(d);
    CreateLoopOk([], keys);
    if CreateLoop([], keys).1.None? {
      AlterLoopAllPresent(table, keys, [], keys);
      assert [] + keys == keys;
    }
  }

  /** With that change every insert keeps the table created before it is
      used. */
  lemma FixedKeepsTableOrder(s: Schema, table: string, d: Record, repr: Value -> string)
    requires TableOrder(s, table)
    ensures TableOrder(Apply(s, table, InsertFixed(s, table, d, repr)), table)
  {
    var o := InsertFixed(s, table, d, repr);
    if s.Columns(table) == [] {
      NewTableStatements(table, s.Types(table), d, repr);
      if o.error.None? {
        AppendKeepsOrder(s.executed, o.statements, table);
      } else {
        assert s.executed + o.statements == s.executed;
      }
    } else {
      AppendKeepsOrder(s.executed, o.statements, table);
    }
  }

  lemma UpdateTwice<K, V>(m: map<K, V>, k: K, a: V, b: V)
    ensures m[k := a][k := b] == m[k := b]
  {
  }

  /** The module-level `current_columns` and `current_columns_types` and the
      connection the statements are executed on. */
  class Database {
    var columns: map<string, seq<string>>
    var types: map<string, Dict<string, string>>
    var executed: seq<Statement>

    constructor ()
      ensures columns == map[] && types == map[] && executed == []
    {
      columns := map[];
      types := map[];
      executed := [];
    }

    function State(): Schema
      reads this
    {
      Schema(columns, types, executed)
    }

    /** `insert_into_db(con, table, d)`. A failed assertion propagates as
        `AssertionError` and leaves the state as far as the loops got. */
    method Insert(table: string, d: Record, repr: Value -> string) returns (r: Result<()>)
      modifies this
      ensures var o := InsertInto(old(State()), table, d, repr); columns == old(columns)[table := o.columns]
      ensures var o := InsertInto(old(State()), table, d, repr); types == if o.error.None? then old(types)[table := o.types] else old(types)
      ensures var o := InsertInto(old(State()), table, d, repr); executed == old(executed) + o.statements
      ensures r.Ok? <==> InsertInto(old(State()), table, d, repr).error.None?
      ensures r.Err? ==> r.error == AssertionError(AssertMessage(InsertInto(old(State()), table, d, repr).error.value))
    {
      ghost var s0 := State();
      ghost var o := InsertInto(s0, table, d, repr);
      var keys := Keys(d);
      var bad := ColumnLoops(table, keys);
      if bad.Some? {
        return Err(AssertionError(AssertMessage(bad.value)));
      }
      SaveTypes(table, d);
      executed := executed + [InsertRow(table, keys, Row(d, repr))];
      r := Ok(());
    }

    /** The column loops of `insert_into_db` and the `CREATE TABLE` between
        them. */
    method ColumnLoops(table: string, keys: seq<string>) returns (bad: Option<string>)
      modifies this
      ensures var st := ColumnsStage(table, old(State()).Columns(table), keys);
        && columns == old(columns)[table := st.0]
        && executed == old(executed) + st.1
        && bad == st.2
      ensures types == old(types)
    {
      ghost var s0 := State();
      var cols := if table in columns then columns[table] else [];
      ghost var created := if cols == [] then CreateLoop(cols, keys) else (cols, None);
      if cols == [] {
        bad := CreateColumns(table, keys);
        if bad.Some? {
          assert executed == s0.executed + [];
          return;
        }
        executed := executed + [CreateTable(table, columns[table])];
      } else {
        columns := columns[table := cols];
      }
      ghost var first := if cols == [] then [CreateTable(table, created.0)] else [];
      assert columns == s0.columns[table := created.0];
      assert executed == s0.executed + first;
      bad := AddMissingColumns(table, keys);
      ghost var altered := AlterLoop(table, created.0, [], keys);
      UpdateTwice(s0.columns, table, created.0, altered.0);
      assert executed == s0.executed + (first + altered.1);
    }

    /** The first loop of `insert_into_db`, for a table without columns. */
    method CreateColumns(table: string, keys: seq<string>) returns (bad: Option<string>)
      modifies this
      ensures columns == old(columns)[table := CreateLoop([], keys).0]
      ensures bad == CreateLoop([], keys).1
      ensures types == old(types) && executed == old(executed)
    {
      var cols: seq<string> := [];
      columns := columns[table := cols];
      var i := 0;
      while i < |keys|
        invariant 0 <= i <= |keys|
        invariant columns == old(columns)[table := cols]
        invariant CreateLoop(cols, keys[i..]) == CreateLoop([], keys)
        invariant types == old(types) && executed == old(executed)
      {
        assert keys[i..][0] == keys[i] && keys[i..][1..] == keys[i + 1..];
        if !ValidColumnKey(keys[i]) {
          return Some(keys[i]);
        }
        cols := cols + [keys[i]];
        columns := columns[table := cols];
        i := i + 1;
      }
      return None;
    }

    /** The second loop of `insert_into_db`: each key not yet a column is
        checked, appended and added to the table. */
    method AddMissingColumns(table: string, keys: seq<string>) returns (bad: Option<string>)
      requires table in columns
      modifies this
      ensures columns == old(columns)[table := AlterLoop(table, old(columns)[table], [], keys).0]
      ensures executed == old(executed) + AlterLoop(table, old(columns)[table], [], keys).1
      ensures bad == AlterLoop(table, old(columns)[table], [], keys).2
      ensures types == old(types)
    {
      ghost var c0 := columns[table];
      ghost var acc: seq<Statement> := [];
      var i := 0;
      while i < |keys|
        invariant 0 <= i <= |keys|
        invariant table in columns && columns == old(columns)[table := columns[table]]
        invariant AlterLoop(table, columns[table], acc, keys[i..]) == AlterLoop(table, c0, [], keys)
        invariant executed == old(executed) + acc
        invariant types == old(types)
      {
        assert keys[i..][0] == keys[i] && keys[i..][1..] == keys[i + 1..];
        var k := keys[i];
        if k !in columns[table] {
          if !ValidColumnKey(k) {
            return Some(k);
          }
          columns := columns[table := columns[table] + [k]];
          acc := acc + [AddColumn(table, k)];
          executed := executed + [AddColumn(table, k)];
        }
        i := i + 1;
      }
      return None;
    }

    /** The third loop of `insert_into_db`: the type name of each key's value
        is recorded the first time the key is seen. */
    method SaveTypes(table: string, d: Record)
      modifies this
      ensures types == old(types)[table := TypesLoop(old(State()).Types(table), d)]
      ensures columns == old(columns) && executed == old(executed)
    {
      ghost var t0 := State().Types(table);
      var t := if table in types then types[table] else [];
      types := types[table := t];
      var i := 0;
      while i < |d|
        invariant 0 <= i <= |d|
        invariant types == old(types)[table := t]
        invariant TypesLoop(t, d[i..]) == TypesLoop(t0, d)
        invariant columns == old(columns) && executed == old(executed)
      {
        TypesLoopStep(t, d, i);
        if d[i].0 !in Keys(t) {
          UpdateTwice(old(types), table, t, Put(t, d[i].0, TypeName(d[i].1)));
          t := Put(t, d[i].0, TypeName(d[i].1));
          types := types[table := t];
        }
        i := i + 1;
      }
    }

    /** `insert_into_db_multiple(con, table, ld)`. */
    method InsertMultiple(table: string, ld: seq<Record>, repr: Value -> string) returns (r: Result<()>)
      modifies this
      ensures State() == InsertAll(old(State()), table, ld, repr).0
      ensures r.Ok? <==> InsertAll(old(State()), table, ld, repr).1.None?
      ensures r.Err? ==> r.error == AssertionError(AssertMessage(InsertAll(old(State()), table, ld, repr).1.value))
    {
      ghost var goal := InsertAll(State(), table, ld, repr);
      var i := 0;
      while i < |ld|
        invariant 0 <= i <= |ld|
        invariant InsertAll(State(), table, ld[i..], repr) == goal
      {
        assert ld[i..][0] == ld[i] && ld[i..][1..] == ld[i + 1..];
        r := Insert(table, ld[i], repr);
        if r.Err? {
          return;
        }
        i := i + 1;
      }
      r := Ok(());
    }

    /** The conversion loop of `convert_db_to_parquet` over the frame's
        columns: the cast of each column, or the exception it raises. */
    method ParquetCasts(table: string, indexCol: string) returns (r: Result<seq<(string, Cast)>>)
      ensures r == CastLoop(State().Types(table), [], DataColumns(State().Columns(table), indexCol))
    {
      var cols := DataColumns(if table in columns then columns[table] else [], indexCol);
      var t := if table in types then types[table] else [];
      var casts: seq<(string, Cast)> := [];
      var i := 0;
      while i < |cols|
        invariant 0 <= i <= |cols|
        invariant CastLoop(t, casts, cols[i..]) == CastLoop(t, [], cols)
      {
        CastLoopStep(t, casts, cols, i);
        var c := cols[i];
        var typeName := Get(t, c);
        if typeName.None? {
          return Err(KeyError(c));
        }
        var cast := CastFor(c, typeName.value);
        if cast.Err? {
          return Err(cast.error);
        }
        casts := casts + [(c, cast.value)];
        i := i + 1;
      }
      return Ok(casts);
    }
  }
}
