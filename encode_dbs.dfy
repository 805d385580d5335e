/** `encode_schema` of `src/data/encode_dbs.py`: every statement is stripped
    and lower-cased; a statement that is not a CREATE TABLE is skipped, with
    a warning when it starts with `create`; the table name is the token in
    front of the first parenthesised token; and the statements fold into the
    table dictionary. The SQL parser is a parameter of the model. */
module EncodeDbs {
  import opened Wrappers
  import opened Text
  import opened Mapping
  import opened Ddl

  /** The text printed in front of a skipped `create ...` statement. */
  const WarningPrefix: string := "Warning: Skipping non-CREATE TABLE statement:\n"

  /** The first position at or after `i` holding a parenthesised token. */
  function ParenthesisFrom(tokens: seq<Token>, i: nat): (r: Option<nat>)
    requires i <= |tokens|
    ensures r.None? <==> forall j :: i <= j < |tokens| ==> tokens[j].kind != Parenthesis
    ensures r.Some? ==> i <= r.value < |tokens| && tokens[r.value].kind == Parenthesis
                        && forall j :: i <= j < r.value ==> tokens[j].kind != Parenthesis
    decreases |tokens| - i
  {
    if i == |tokens| then None
    else if tokens[i].kind == Parenthesis then Some(i)
    else ParenthesisFrom(tokens, i + 1)
  }

  /** `name_idx`: the position in front of the first parenthesised token that
      is not the very first token, None when there is none. */
  function NameIndex(tokens: seq<Token>): (r: Option<nat>)
    ensures r.None? <==> forall i :: 1 <= i < |tokens| ==> tokens[i].kind != Parenthesis
    ensures r.Some? ==> r.value + 1 < |tokens| && tokens[r.value + 1].kind == Parenthesis
                        && forall i :: 1 <= i <= r.value ==> tokens[i].kind != Parenthesis
  {
    if |tokens| == 0 then None
    else match ParenthesisFrom(tokens, 1)
      case None => None
      case Some(p) => Some(p - 1)
  }

  /** The loop that looks for the table name's position. */
  method FindNameIndex(tokens: seq<Token>) returns (nameIdx: Option<nat>)
    ensures nameIdx == NameIndex(tokens)
  {
    for i := 0 to |tokens|
      invariant forall j :: 1 <= j < i ==> tokens[j].kind != Parenthesis
    {
      if i > 0 && tokens[i].kind == Parenthesis {
        return Some(i - 1);
      }
    }
    return None;
  }

  /** `value.lower().strip('"`')`: the table name is lower-case and has no
      quote at either end. */
  function TableName(value: string): (name: string)
    ensures IsLowerCase(name)
    ensures name != [] ==> name[0] !in Quotes && name[|name| - 1] !in Quotes
  {
    var lowered := Lower(value);
    var name := StripChars(lowered, Quotes);
    StripCharsWithin(lowered, Quotes);
    assert forall i :: 0 <= i < |name| ==> name[i] in lowered;
    name
  }

  /** The table name is the token's text with the double quotes and
      backticks at both of its ends removed, lower-cased: the lower-casing of
      a stretch `value[lo..hi]` where everything outside the stretch is a
      quote (and, by `TableName`'s own contract, the name neither starts nor
      ends with one). */
  lemma TableNameValue(value: string)
    ensures exists lo, hi ::
      && 0 <= lo <= hi <= |value|
      && TableName(value) == Lower(value[lo..hi])
      && (forall k :: 0 <= k < lo ==> value[k] in Quotes)
      && (forall k :: hi <= k < |value| ==> value[k] in Quotes)
  {
    var lowered := Lower(value);
    StripCharsExact(lowered, Quotes);
    var lo, hi :| && 0 <= lo <= hi <= |lowered|
                  && StripChars(lowered, Quotes) == lowered[lo..hi]
                  && (forall k :: 0 <= k < lo ==> lowered[k] in Quotes)
                  && (forall k :: hi <= k < |lowered| ==> lowered[k] in Quotes);
    LowerSlice(value, lo, hi);
    LowerKeepsQuotes(value);
  }

  lemma LowerSlice(value: string, lo: nat, hi: nat)
    requires lo <= hi <= |value|
    ensures Lower(value[lo..hi]) == Lower(value)[lo..hi]
  {
    assert forall k :: 0 <= k < hi - lo ==> Lower(value[lo..hi])[k] == LowerChar(value[lo + k]);
  }

  /** Lower-casing makes no quote character out of anything else. */
  lemma LowerKeepsQuotes(value: string)
    ensures forall k :: 0 <= k < |value| && Lower(value)[k] in Quotes ==> value[k] in Quotes
  {
  }

  /** What reading one statement amounts to. */
  function ReadStatement(raw: string, parse: string -> Parsed): Outcome {
    var s := Lower(Strip(raw));
    var parsed := parse(s);
    if parsed.statementType != "CREATE" || !Contains(s, "table") then
      Skip(if StartsWith(s, "create") then Some(WarningPrefix + s) else None)
    else
      var tokens := Significant(parsed.tokens);
      match NameIndex(tokens)
      case None => Fail(NotProperlyFormed)
      case Some(n) =>
        if n == 0 then Fail(NotProperlyFormed)
        else if tokens[n].kind == Identifier || tokens[n].kind == Plain then
          Table(TableName(tokens[n].value), Columns(tokens))
        else Fail(TableNameNotFound)
  }

  /** A statement is skipped exactly when the parser does not call it a
      CREATE or its lower-cased text does not contain `table`; a warning is
      printed for it exactly when that text starts with `create`. */
  lemma ReadStatementSkips(raw: string, parse: string -> Parsed)
    ensures var o, s := ReadStatement(raw, parse), Lower(Strip(raw));
            && (o.Skip? <==> parse(s).statementType != "CREATE" || !Contains(s, "table"))
            && (o.Skip? ==> (o.warning.Some? <==> StartsWith(s, "create")))
            && (o.Skip? && o.warning.Some? ==> o.warning.value == WarningPrefix + s)
  {
  }

  /** A CREATE TABLE statement raises "not properly formed" exactly when no
      parenthesised token follows its second token's position, or the first
      parenthesised token after the first token is the second one. */
  lemma ReadStatementMalformed(raw: string, parse: string -> Parsed)
    ensures var o, s := ReadStatement(raw, parse), Lower(Strip(raw));
            o == Fail(NotProperlyFormed) <==>
              && parse(s).statementType == "CREATE" && Contains(s, "table")
              && (NameIndex(Significant(parse(s).tokens)).None? || NameIndex(Significant(parse(s).tokens)) == Some(0))
  {
  }

  /** A table is read from a CREATE statement containing `table` whose name
      position is found and is not the first token, and holds an identifier
      or a plain token; its name is that token's text, lower-case with no
      quote at either end, and its columns are those of the statement's
      parenthesised tokens. */
  lemma ReadStatementTable(raw: string, parse: string -> Parsed)
    requires ReadStatement(raw, parse).Table?
    ensures var o, s := ReadStatement(raw, parse), Lower(Strip(raw));
            var ts := Significant(parse(s).tokens);
            && parse(s).statementType == "CREATE" && Contains(s, "table")
            && NameIndex(ts).Some? && NameIndex(ts).value != 0
            && (ts[NameIndex(ts).value].kind == Identifier || ts[NameIndex(ts).value].kind == Plain)
            && o.name == TableName(ts[NameIndex(ts).value].value)
            && IsLowerCase(o.name)
            && (o.name != [] ==> o.name[0] !in Quotes && o.name[|o.name| - 1] !in Quotes)
            && o.columns == Columns(ts)
  {
  }

  /** A CREATE TABLE statement raises "table name not found" exactly when its
      name position is found and is not the first token, but the token there
      is neither an identifier nor a plain token. */
  lemma ReadStatementNameNotFound(raw: string, parse: string -> Parsed)
    ensures var o, s := ReadStatement(raw, parse), Lower(Strip(raw));
            var ts := Significant(parse(s).tokens);
            o == Fail(TableNameNotFound) <==>
              && parse(s).statementType == "CREATE" && Contains(s, "table")
              && NameIndex(ts).Some? && NameIndex(ts).value != 0
              && ts[NameIndex(ts).value].kind != Identifier && ts[NameIndex(ts).value].kind != Plain
  {
  }

  /** The loop body for one statement. */
  method ReadCreateTable(raw: string, parse: string -> Parsed) returns (o: Outcome)
    ensures o == ReadStatement(raw, parse)
  {
    var s := Lower(Strip(raw));
    var parsed := parse(s);
    if parsed.statementType != "CREATE" || !Contains(s, "table") {
      if StartsWith(s, "create") {
        return Skip(Some(WarningPrefix + s));
      }
      return Skip(None);
    }
    var tokens := Significant(parsed.tokens);
    var nameIdx := FindNameIndex(tokens);
    if nameIdx.None? || nameIdx.value == 0 {
      return Fail(NotProperlyFormed);
    }
    var t := tokens[nameIdx.value];
    if !(t.kind == Identifier || t.kind == Plain) {
      return Fail(TableNameNotFound);
    }
    var name := TableName(t.value);
    var cols := ExtractColumns(tokens);
    o := Table(name, cols);
  }

  /** The reader of one statement, for a given parser. */
  function Reader(parse: string -> Parsed): string -> Outcome {
    raw => ReadStatement(raw, parse)
  }

  /** The statement loop of `encode_schema`: the table dictionary and the
      printed warnings, or the error of the first statement that raises. */
  method EncodeSchema(statements: seq<string>, parse: string -> Parsed)
    returns (r: Result<Extraction, SchemaError>)
    ensures r == Accumulate(Outcomes(statements, Reader(parse)))
  {
    var tables: Schema := [];
    var warnings: seq<string> := [];
    for i := 0 to |statements|
      invariant Accumulate(Outcomes(statements[..i], Reader(parse))) == Success(Extraction(tables, warnings))
    {
      var o := ReadCreateTable(statements[i], parse);
      OutcomesSplit(statements, Reader(parse), i);
      AccumulateStep(Outcomes(statements[..i], Reader(parse)), o);
      match o
      case Fail(e) =>
        var upto := Outcomes(statements[..i + 1], Reader(parse));
        assert Accumulate(upto) == Failure(e);
        OutcomesSplit(statements, Reader(parse), i + 1);
        AccumulateStopsAtFailure(upto, Outcomes(statements[i + 1..], Reader(parse)));
        assert Accumulate(Outcomes(statements, Reader(parse))) == Failure(e);
        return Failure(e);
      case Skip(w) =>
        if w.Some? {
          warnings := warnings + [w.value];
        }
      case Table(name, cols) =>
        tables := Put(tables, name, cols);
    }
    assert statements[..|statements|] == statements;
    r := Success(Extraction(tables, warnings));
  }

  /** The dictionary `encode_schema` returns. */
  function Tables(statements: seq<string>, parse: string -> Parsed): Result<Schema, SchemaError> {
    match Accumulate(Outcomes(statements, Reader(parse)))
    case Failure(e) => Failure(e)
    case Success(x) => Success(x.tables)
  }

  /** The dictionary has distinct keys, in the order the tables were first
      defined, each of them lower-case with no quote at either end and the
      name of some CREATE TABLE statement. */
  lemma TableKeysWellFormed(statements: seq<string>, parse: string -> Parsed)
    requires Tables(statements, parse).Success?
    ensures DistinctKeys(Tables(statements, parse).value)
    ensures Keys(Tables(statements, parse).value) == FirstDefined(Outcomes(statements, Reader(parse)))
    ensures forall k :: k in Keys(Tables(statements, parse).value) ==>
              && IsLowerCase(k)
              && (k != [] ==> k[0] !in Quotes && k[|k| - 1] !in Quotes)
              && exists i :: 0 <= i < |statements| && ReadStatement(statements[i], parse).Table?
                             && ReadStatement(statements[i], parse).name == k
  {
    var os := Outcomes(statements, Reader(parse));
    var m := Accumulate(os).value.tables;
    AccumulateKeys(os);
    AccumulateKeysOrder(os);
    forall k | k in Keys(m)
      ensures IsLowerCase(k) && (k != [] ==> k[0] !in Quotes && k[|k| - 1] !in Quotes)
      ensures exists i :: 0 <= i < |statements| && ReadStatement(statements[i], parse).Table?
                          && ReadStatement(statements[i], parse).name == k
    {
      assert k in TableNames(os);
      TableNameWellFormed(statements, parse, k);
    }
  }

  lemma TableNameWellFormed(statements: seq<string>, parse: string -> Parsed, k: string)
    requires k in TableNames(Outcomes(statements, Reader(parse)))
    ensures IsLowerCase(k) && (k != [] ==> k[0] !in Quotes && k[|k| - 1] !in Quotes)
    ensures exists i :: 0 <= i < |statements| && ReadStatement(statements[i], parse).Table?
                        && ReadStatement(statements[i], parse).name == k
  {
    var os := Outcomes(statements, Reader(parse));
    var i :| 0 <= i < |os| && os[i].Table? && os[i].name == k;
    var raw := statements[i];
    assert ReadStatement(raw, parse) == os[i];
    ReadStatementTable(raw, parse);
  }

  /** Every column list in the dictionary is made of well-formed column names. */
  lemma TableColumnsWellFormed(statements: seq<string>, parse: string -> Parsed, k: string)
    requires Tables(statements, parse).Success?
    requires Lookup(Tables(statements, parse).value, k).Some?
    ensures forall j :: 0 <= j < |Lookup(Tables(statements, parse).value, k).value| ==>
              ColumnName(Lookup(Tables(statements, parse).value, k).value[j])
  {
    var os := Outcomes(statements, Reader(parse));
    var cols := Lookup(Accumulate(os).value.tables, k).value;
    AccumulateLookup(os, k);
    var i :| 0 <= i < |os| && os[i] == Table(k, cols);
    var raw := statements[i];
    assert ReadStatement(raw, parse) == Table(k, cols);
    ReadStatementTable(raw, parse);
    ColumnsAreNames(Significant(parse(Lower(Strip(raw))).tokens));
  }

  /** A parser whose tokens are pieces of the text it reads, as sqlparse's
      are: the text of every token of a lower-case statement is lower-case. */
  ghost predicate KeepsLowerCase(parse: string -> Parsed) {
    forall s :: IsLowerCase(s) ==> forall t :: t in parse(s).tokens ==> IsLowerCase(t.value)
  }

  /** With such a parser every column name in the dictionary is lower-case,
      as the statement it was read from was lower-cased first. */
  lemma TableColumnsLowerCase(statements: seq<string>, parse: string -> Parsed, k: string)
    requires KeepsLowerCase(parse)
    requires Tables(statements, parse).Success?
    requires Lookup(Tables(statements, parse).value, k).Some?
    ensures forall j :: 0 <= j < |Lookup(Tables(statements, parse).value, k).value| ==>
              IsLowerCase(Lookup(Tables(statements, parse).value, k).value[j])
  {
    var os := Outcomes(statements, Reader(parse));
    var cols := Lookup(Accumulate(os).value.tables, k).value;
    AccumulateLookup(os, k);
    var i :| 0 <= i < |os| && os[i] == Table(k, cols);
    var raw := statements[i];
    assert ReadStatement(raw, parse) == Table(k, cols);
    ReadStatementTable(raw, parse);
    SignificantLowerCase(Lower(Strip(raw)), parse);
  }

  /** The columns read from a lower-cased statement are lower-case. */
  lemma SignificantLowerCase(s: string, parse: string -> Parsed)
    requires KeepsLowerCase(parse) && IsLowerCase(s)
    ensures forall j :: 0 <= j < |Columns(Significant(parse(s).tokens))| ==>
              IsLowerCase(Columns(Significant(parse(s).tokens))[j])
  {
    var ts := Significant(parse(s).tokens);
    assert forall j :: 0 <= j < |ts| ==> IsLowerCase(ts[j].value) by {
      forall j | 0 <= j < |ts| ensures IsLowerCase(ts[j].value) {
        assert ts[j] in parse(s).tokens;
      }
    }
    ColumnsLowerCase(ts);
  }

  /** A table defined by several statements keeps the columns of the last one. */
  lemma TablesLastDefinitionWins(statements: seq<string>, parse: string -> Parsed, i: nat)
    requires Tables(statements, parse).Success?
    requires i < |statements| && ReadStatement(statements[i], parse).Table?
    requires forall j :: i < j < |statements| ==>
               !(ReadStatement(statements[j], parse).Table?
                 && ReadStatement(statements[j], parse).name == ReadStatement(statements[i], parse).name)
    ensures Lookup(Tables(statements, parse).value, ReadStatement(statements[i], parse).name)
            == Some(ReadStatement(statements[i], parse).columns)
  {
    AccumulateLastWins(Outcomes(statements, Reader(parse)), i);
  }

  /** `encode_schema` raises exactly when some statement is a malformed
      CREATE TABLE, and then with the error of the first such statement. */
  lemma EncodeSchemaFails(statements: seq<string>, parse: string -> Parsed)
    ensures Tables(statements, parse).Failure? <==>
              exists i :: 0 <= i < |statements| && ReadStatement(statements[i], parse).Fail?
    ensures Tables(statements, parse).Failure? ==>
              exists i :: 0 <= i < |statements| && ReadStatement(statements[i], parse).Fail?
                          && Tables(statements, parse).error == ReadStatement(statements[i], parse).error
                          && forall j :: 0 <= j < i ==> !ReadStatement(statements[j], parse).Fail?
  {
    AccumulateFails(Outcomes(statements, Reader(parse)));
  }

  /** Every printed warning shows a skipped statement that starts with `create`. */
  lemma WarningsAreCreateStatements(statements: seq<string>, parse: string -> Parsed, w: string)
    requires Accumulate(Outcomes(statements, Reader(parse))).Success?
    requires w in Accumulate(Outcomes(statements, Reader(parse))).value.warnings
    ensures StartsWith(w, WarningPrefix) && StartsWith(w[|WarningPrefix|..], "create")
    ensures exists i :: 0 <= i < |statements| && w == WarningPrefix + Lower(Strip(statements[i]))
  {
    var os := Outcomes(statements, Reader(parse));
    AccumulateWarnings(os);
    WarningsFromSkips(os, w);
    var i :| 0 <= i < |os| && os[i] == Skip(Some(w));
    var raw := statements[i];
    assert ReadStatement(raw, parse) == Skip(Some(w));
    ReadStatementSkips(raw, parse);
    var s := Lower(Strip(raw));
    assert w == WarningPrefix + s;
    assert w[..|WarningPrefix|] == WarningPrefix && w[|WarningPrefix|..] == s;
  }
}
