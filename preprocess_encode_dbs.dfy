/** `encode_schema` of `src/preprocess/encode_dbs.py`, the earlier reader:
    only statements whose stripped text starts with `create table` in any
    letter case are read, silently skipping the rest; the table name is the
    first identifier token with its quotes removed and its case kept; and the
    result is the schema text of the table dictionary. The SQL parser is a
    parameter of the model. */
module PreprocessEncodeDbs {
  import opened Wrappers
  import opened Text
  import opened Mapping
  import opened Ddl

  /** The position of the first identifier token. */
  function FirstIdentifier(tokens: seq<Token>): (r: Option<nat>)
    ensures r.None? <==> forall i :: 0 <= i < |tokens| ==> tokens[i].kind != Identifier
    ensures r.Some? ==> r.value < |tokens| && tokens[r.value].kind == Identifier
                        && forall i :: 0 <= i < r.value ==> tokens[i].kind != Identifier
    decreases |tokens|
  {
    if tokens == [] then None
    else if tokens[0].kind == Identifier then Some(0)
    else match FirstIdentifier(tokens[1..])
      case None => None
      case Some(i) => Some(i + 1)
  }

  /** `table_name`: the first identifier's text without surrounding quotes. */
  function TableName(tokens: seq<Token>): (r: Option<string>)
    ensures r.None? <==> forall i :: 0 <= i < |tokens| ==> tokens[i].kind != Identifier
    ensures r.Some? && r.value != [] ==> r.value[0] !in Quotes && r.value[|r.value| - 1] !in Quotes
  {
    match FirstIdentifier(tokens)
    case None => None
    case Some(i) => Some(StripChars(tokens[i].value, Quotes))
  }

  /** The table name is the first identifier's text as written, in its own
      letter case: a stretch `v[lo..hi]` of that text `v` where everything
      outside the stretch is a double quote or a backtick. */
  lemma TableNameKeepsCase(tokens: seq<Token>)
    ensures TableName(tokens).Some? ==>
      FirstIdentifier(tokens).Some? &&
      var v := tokens[FirstIdentifier(tokens).value].value;
      exists lo, hi ::
        && 0 <= lo <= hi <= |v|
        && TableName(tokens).value == v[lo..hi]
        && (forall k :: 0 <= k < lo ==> v[k] in Quotes)
        && (forall k :: hi <= k < |v| ==> v[k] in Quotes)
  {
    if TableName(tokens).Some? {
      StripCharsExact(tokens[FirstIdentifier(tokens).value].value, Quotes);
    }
  }

  /** The loop that looks for the table name. */
  method FindTableName(tokens: seq<Token>) returns (name: Option<string>)
    ensures name == TableName(tokens)
  {
    for i := 0 to |tokens|
      invariant forall j :: 0 <= j < i ==> tokens[j].kind != Identifier
    {
      if tokens[i].kind == Identifier {
        assert FirstIdentifier(tokens) == Some(i) by {
          var f := FirstIdentifier(tokens);
          assert f.Some? && f.value <= i;
        }
        return Some(StripChars(tokens[i].value, Quotes));
      }
    }
    return None;
  }

  /** What reading one statement amounts to. */
  function ReadStatement(raw: string, parse: string -> Parsed): Outcome {
    var s := Strip(raw);
    if !StartsWith(Lower(s), "create table") then Skip(None)
    else
      var tokens := Significant(parse(s).tokens);
      match TableName(tokens)
      case None => Fail(TableNameNotFound)
      case Some(name) => Table(name, Columns(tokens))
  }

  /** A statement is read exactly when its stripped text starts with
      `create table` in any letter case, and nothing is printed for the
      others; it raises exactly when the parser finds no identifier in it. */
  lemma ReadStatementCases(raw: string, parse: string -> Parsed)
    ensures var o, s := ReadStatement(raw, parse), Strip(raw);
            && (o.Skip? <==> !StartsWith(Lower(s), "create table"))
            && (o.Skip? ==> o.warning.None?)
            && (o.Fail? <==> StartsWith(Lower(s), "create table")
                             && forall i :: 0 <= i < |Significant(parse(s).tokens)| ==>
                                  Significant(parse(s).tokens)[i].kind != Identifier)
            && (o.Fail? ==> o.error == TableNameNotFound)
  {
    var s := Strip(raw);
    if StartsWith(Lower(s), "create table") {
      var tokens := Significant(parse(s).tokens);
      match TableName(tokens)
      case None =>
        assert ReadStatement(raw, parse) == Fail(TableNameNotFound);
      case Some(name) =>
        assert ReadStatement(raw, parse) == Table(name, Columns(tokens));
    } else {
      assert ReadStatement(raw, parse) == Skip(None);
    }
  }

  /** A table's name has no quote at either end, and its columns are those
      of the statement's parenthesised tokens. */
  lemma ReadStatementTable(raw: string, parse: string -> Parsed)
    requires ReadStatement(raw, parse).Table?
    ensures var o, s := ReadStatement(raw, parse), Strip(raw);
            && (o.name != [] ==> o.name[0] !in Quotes && o.name[|o.name| - 1] !in Quotes)
            && Some(o.name) == TableName(Significant(parse(s).tokens))
            && o.columns == Columns(Significant(parse(s).tokens))
  {
  }

  /** The loop body for one statement. */
  method ReadCreateTable(raw: string, parse: string -> Parsed) returns (o: Outcome)
    ensures o == ReadStatement(raw, parse)
  {
    var s := Strip(raw);
    if !StartsWith(Lower(s), "create table") {
      return Skip(None);
    }
    var tokens := Significant(parse(s).tokens);
    var name := FindTableName(tokens);
    if name.None? {
      return Fail(TableNameNotFound);
    }
    var cols := ExtractColumns(tokens);
    o := Table(name.value, cols);
  }

  /** The reader of one statement, for a given parser. */
  function Reader(parse: string -> Parsed): string -> Outcome {
    raw => ReadStatement(raw, parse)
  }

  /** What `encode_schema` returns as its schema text, or the error it raises. */
  function SchemaTextOf(statements: seq<string>, parse: string -> Parsed): Result<string, SchemaError> {
    match Accumulate(Outcomes(statements, Reader(parse)))
    case Failure(e) => Failure(e)
    case Success(x) => Success(SchemaText(x.tables))
  }

  /** The statement loop of `encode_schema` followed by the schema text. */
  method EncodeSchema(statements: seq<string>, parse: string -> Parsed)
    returns (r: Result<string, SchemaError>)
    ensures r == SchemaTextOf(statements, parse)
  {
    var tables: Schema := [];
    for i := 0 to |statements|
      invariant Accumulate(Outcomes(statements[..i], Reader(parse))) == Success(Extraction(tables, []))
    {
      var o := ReadCreateTable(statements[i], parse);
      OutcomesSplit(statements, Reader(parse), i);
      AccumulateStep(Outcomes(statements[..i], Reader(parse)), o);
      match o
      case Fail(e) =>
        var upto := Outcomes(statements[..i + 1], Reader(parse));
        assert Accumulate(upto) == Failure(e);
        OutcomesSplit(statements, Reader(parse), i + 1);
        AccumulateStopsAtFailure(upto, Outcomes(statements[i + 1..], Reader(parse)));
        assert Accumulate(Outcomes(statements, Reader(parse))) == Failure(e);
        return Failure(e);
      case Skip(w) =>
      case Table(name, cols) =>
        tables := Put(tables, name, cols);
    }
    assert statements[..|statements|] == statements;
    r := Success(SchemaText(tables));
  }

  /** A statement that does not start with `create table` changes nothing. */
  lemma SkippedStatementChangesNothing(statements: seq<string>, parse: string -> Parsed, raw: string)
    requires !StartsWith(Lower(Strip(raw)), "create table")
    ensures SchemaTextOf(statements + [raw], parse) == SchemaTextOf(statements, parse)
  {
    var read := Reader(parse);
    assert Outcomes(statements + [raw], read) == Outcomes(statements, read) + [Skip(None)];
    AccumulateStep(Outcomes(statements, read), Skip(None));
  }

  /** The earlier reader raises exactly when some CREATE TABLE statement has
      no identifier, and then with the error of the first such statement. */
  lemma EncodeSchemaFails(statements: seq<string>, parse: string -> Parsed)
    ensures SchemaTextOf(statements, parse).Failure? <==>
              exists i :: 0 <= i < |statements| && ReadStatement(statements[i], parse).Fail?
    ensures SchemaTextOf(statements, parse).Failure? ==> SchemaTextOf(statements, parse).error == TableNameNotFound
  {
    var os := Outcomes(statements, Reader(parse));
    AccumulateFails(os);
    if Accumulate(os).Failure? {
      var i :| 0 <= i < |os| && os[i].Fail? && Accumulate(os).error == os[i].error
               && forall j :: 0 <= j < i ==> !os[j].Fail?;
      ReadStatementCases(statements[i], parse);
    }
  }

  /** The schema text lists one entry per distinct table name, in the order
      tables were first defined, and reads back when no name contains `;`. */
  lemma SchemaTextOfEntries(statements: seq<string>, parse: string -> Parsed)
    requires SchemaTextOf(statements, parse).Success?
    ensures var m := Accumulate(Outcomes(statements, Reader(parse))).value.tables;
            && SchemaTextOf(statements, parse).value == SchemaText(m)
            && DistinctKeys(m)
            && Keys(m) == FirstDefined(Outcomes(statements, Reader(parse)))
            && (forall k :: k in Keys(m) <==> k in TableNames(Outcomes(statements, Reader(parse))))
            && (m != [] && (forall i :: 0 <= i < |m| ==> ';' !in Entry(m[i].0, m[i].1)) ==>
                  Split(SchemaText(m), ';') == [Entries(m)[0]] + SpacedTail(Entries(m)) + [""])
  {
    var os := Outcomes(statements, Reader(parse));
    var m := Accumulate(os).value.tables;
    AccumulateKeys(os);
    AccumulateKeysOrder(os);
    if m != [] && (forall i :: 0 <= i < |m| ==> ';' !in Entry(m[i].0, m[i].1)) {
      SchemaTextSplits(m);
    }
  }
}
