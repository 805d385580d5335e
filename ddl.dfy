/** What both versions of the schema reader share: the tokens a SQL parser
    yields for one statement, the column names read out of a parenthesised
    column list, the table dictionary the statements are folded into, and the
    text `table(col, col); ...;` that dictionary is rendered as. */
module Ddl {
  import opened Wrappers
  import opened Text
  import opened Mapping

  /** The token classes the readers tell apart: `sqlparse.sql.Identifier`,
      the plain `sqlparse.sql.Token`, `sqlparse.sql.Parenthesis`, and every
      other grouped class (functions, identifier lists, comments, ...). */
  datatype TokenKind = Identifier | Plain | Parenthesis | Other

  /** One top-level token: its class, its text and `is_whitespace`. */
  datatype Token = Token(kind: TokenKind, value: string, isWhitespace: bool)

  /** `sqlparse.parse(s)[0]`: the statement type and its top-level tokens. */
  datatype Parsed = Parsed(statementType: string, tokens: seq<Token>)

  /** `[t for t in parsed.tokens if not t.is_whitespace]`. */
  function Significant(ts: seq<Token>): (r: seq<Token>)
    ensures |r| <= |ts|
    ensures forall t :: t in r <==> t in ts && !t.isWhitespace
    decreases |ts|
  {
    if ts == [] then []
    else
      var last := ts[|ts| - 1];
      assert ts == ts[..|ts| - 1] + [last];
      Significant(ts[..|ts| - 1]) + (if last.isWhitespace then [] else [last])
  }

  /** One more token is kept at the end exactly when it is not whitespace. */
  lemma SignificantSnoc(ts: seq<Token>, t: Token)
    ensures Significant(ts + [t]) == Significant(ts) + if t.isWhitespace then [] else [t]
  {
    assert (ts + [t])[..|ts|] == ts;
  }

  /** Filtering keeps the order: the significant tokens of two stretches are
      those of the first followed by those of the second. */
  lemma {:induction false} SignificantConcat(a: seq<Token>, b: seq<Token>)
    ensures Significant(a + b) == Significant(a) + Significant(b)
    decreases |b|
  {
    if b == [] {
      assert a + b == a;
    } else {
      var front, last := b[..|b| - 1], b[|b| - 1];
      SignificantConcat(a, front);
      SignificantConcatSnoc(a, front, last);
      LastSplit(b);
    }
  }

  lemma SignificantConcatSnoc(a: seq<Token>, front: seq<Token>, last: Token)
    requires Significant(a + front) == Significant(a) + Significant(front)
    ensures Significant(a + (front + [last])) == Significant(a) + Significant(front + [last])
  {
    var tail: seq<Token> := if last.isWhitespace then [] else [last];
    calc {
      Significant(a + (front + [last]));
    == { ConcatAssoc(a, front, [last]); }
      Significant((a + front) + [last]);
    == { SignificantSnoc(a + front, last); }
      Significant(a + front) + tail;
      (Significant(a) + Significant(front)) + tail;
    == { ConcatAssoc(Significant(a), Significant(front), tail); }
      Significant(a) + (Significant(front) + tail);
    == { SignificantSnoc(front, last); }
      Significant(a) + Significant(front + [last]);
    }
  }

  // ---------------------------------------------------------------- columns

  const Quotes: set<char> := {'"', '`'}

  const Parens: set<char> := {'(', ')'}

  /** A piece that declares a table constraint rather than a column. */
  predicate IsConstraint(a: string) {
    StartsWith(Lower(a), "primary key") || StartsWith(Lower(a), "foreign key")
  }

  /** One comma-separated piece of a column list: skipped when it is blank or
      a PRIMARY KEY / FOREIGN KEY constraint in any letter case; otherwise it
      names a column (see `PieceColumnIsFirstWord`). */
  function PieceColumn(piece: string): (r: Option<string>)
    ensures r.None? <==> Strip(piece) == "" || IsConstraint(Strip(piece))
  {
    var a := Strip(piece);
    if a == "" || IsConstraint(a) then None else Some(StripChars(FirstWord(a), Quotes))
  }

  /** What a column name read by the code always satisfies: no whitespace, no
      comma, and no quote character at either end. */
  predicate ColumnName(c: string) {
    && (forall i :: 0 <= i < |c| ==> !IsSpace(c[i]) && c[i] != ',')
    && (c != [] ==> c[0] !in Quotes && c[|c| - 1] !in Quotes)
  }

  /** The column a piece names is its leading run of non-blank characters,
      once the piece is stripped, with only the quotes around it removed. */
  lemma PieceColumnIsFirstWord(piece: string)
    ensures PieceColumn(piece).Some? ==>
      exists n ::
        && 0 < n <= |Strip(piece)|
        && (forall i :: 0 <= i < n ==> !IsSpace(Strip(piece)[i]))
        && (n < |Strip(piece)| ==> IsSpace(Strip(piece)[n]))
        && PieceColumn(piece).value == StripChars(Strip(piece)[..n], Quotes)
  {
    if PieceColumn(piece).Some? {
      WordName(Strip(piece));
    }
  }

  /** A column name has no blank, is made of characters of its piece and has
      no quote at either end; it is a well-formed column name when the piece
      has no comma. */
  lemma PieceColumnChars(piece: string)
    ensures PieceColumn(piece).Some? ==>
      forall i :: 0 <= i < |PieceColumn(piece).value| ==>
        !IsSpace(PieceColumn(piece).value[i]) && PieceColumn(piece).value[i] in piece
    ensures PieceColumn(piece).Some? && PieceColumn(piece).value != [] ==>
      PieceColumn(piece).value[0] !in Quotes && PieceColumn(piece).value[|PieceColumn(piece).value| - 1] !in Quotes
    ensures PieceColumn(piece).Some? && ',' !in piece ==> ColumnName(PieceColumn(piece).value)
  {
    if PieceColumn(piece).Some? {
      var a := Strip(piece);
      var w := FirstWord(a);
      StripCharsWithin(piece, Whitespace);
      assert forall j :: 0 <= j < |w| ==> w[j] in piece && !IsSpace(w[j]) by {
        forall j | 0 <= j < |w| ensures w[j] in piece && !IsSpace(w[j]) {
          assert w[j] == a[j];
        }
      }
      WordChars(piece, w);
    }
  }

  /** The first word of text that starts with a non-blank character. */
  lemma WordName(a: string)
    requires a != [] && !IsSpace(a[0])
    ensures exists n ::
      && 0 < n <= |a|
      && (forall i :: 0 <= i < n ==> !IsSpace(a[i]))
      && (n < |a| ==> IsSpace(a[n]))
      && StripChars(FirstWord(a), Quotes) == StripChars(a[..n], Quotes)
  {
    var w := FirstWord(a);
    var n := |w|;
    assert 0 < n <= |a| && a[..n] == w;
    assert forall i :: 0 <= i < n ==> !IsSpace(a[i]) by {
      forall i | 0 <= i < n ensures !IsSpace(a[i]) {
        assert a[i] == w[i];
      }
    }
    assert StripChars(FirstWord(a), Quotes) == StripChars(a[..n], Quotes);
  }

  lemma WordChars(piece: string, w: string)
    requires forall j :: 0 <= j < |w| ==> w[j] in piece && !IsSpace(w[j])
    ensures forall i :: 0 <= i < |StripChars(w, Quotes)| ==>
      !IsSpace(StripChars(w, Quotes)[i]) && StripChars(w, Quotes)[i] in piece
  {
    StripCharsWithin(w, Quotes);
    var c := StripChars(w, Quotes);
    forall i | 0 <= i < |c| ensures !IsSpace(c[i]) && c[i] in piece {
      var j :| 0 <= j < |w| && w[j] == c[i];
    }
  }

  /** The column name of one piece as a list: empty when the piece is skipped. */
  function PieceNames(piece: string): (r: seq<string>)
    ensures |r| <= 1
  {
    match PieceColumn(piece)
    case Some(c) => [c]
    case None => []
  }

  /** The column names of a list of pieces, in order. */
  function PiecesColumns(pieces: seq<string>): (r: seq<string>)
    ensures |r| <= |pieces|
    decreases |pieces|
  {
    if pieces == [] then []
    else PiecesColumns(pieces[..|pieces| - 1]) + PieceNames(pieces[|pieces| - 1])
  }

  lemma PiecesColumnsSnoc(pieces: seq<string>, piece: string)
    ensures PiecesColumns(pieces + [piece]) == PiecesColumns(pieces) + PieceNames(piece)
  {
    assert (pieces + [piece])[..|pieces|] == pieces;
  }

  lemma PiecesColumnsPrefix(pieces: seq<string>, k: nat)
    requires k < |pieces|
    ensures PiecesColumns(pieces[..k + 1]) == PiecesColumns(pieces[..k]) + PieceNames(pieces[k])
  {
    assert pieces[..k + 1][..k] == pieces[..k];
  }

  lemma {:induction false} PiecesColumnsNames(pieces: seq<string>)
    requires forall i :: 0 <= i < |pieces| ==> ',' !in pieces[i]
    ensures forall k :: 0 <= k < |PiecesColumns(pieces)| ==> ColumnName(PiecesColumns(pieces)[k])
    decreases |pieces|
  {
    if pieces != [] {
      var front := pieces[..|pieces| - 1];
      PiecesColumnsNames(front);
      PieceColumnChars(pieces[|pieces| - 1]);
    }
  }

  /** The column names in the text of one parenthesised token, as written:
      the brackets are stripped from both ends and the rest is split at
      every comma, including the commas of a nested `DECIMAL(10,2)`. */
  function GroupColumns(value: string): (r: seq<string>)
    ensures forall k :: 0 <= k < |r| ==> ColumnName(r[k])
  {
    var pieces := Split(StripChars(value, Parens), ',');
    PiecesColumnsNames(pieces);
    PiecesColumns(pieces)
  }

  /** The column names one token contributes: none unless it is parenthesised. */
  function TokenColumns(t: Token): seq<string> {
    if t.kind == Parenthesis then GroupColumns(t.value) else []
  }

  /** The column names contributed by every parenthesised token, in order. */
  function Columns(ts: seq<Token>): seq<string>
    decreases |ts|
  {
    if ts == [] then [] else TokenColumns(ts[0]) + Columns(ts[1..])
  }

  /** Every column name the reader produces is well formed. */
  lemma {:induction false} ColumnsAreNames(ts: seq<Token>)
    ensures forall k :: 0 <= k < |Columns(ts)| ==> ColumnName(Columns(ts)[k])
    decreases |ts|
  {
    if ts != [] {
      ColumnsAreNames(ts[1..]);
    }
  }

  /** The column names read from tokens whose text is lower-case are lower-case. */
  lemma {:induction false} ColumnsLowerCase(ts: seq<Token>)
    requires forall i :: 0 <= i < |ts| ==> IsLowerCase(ts[i].value)
    ensures forall k :: 0 <= k < |Columns(ts)| ==> IsLowerCase(Columns(ts)[k])
    decreases |ts|
  {
    if ts != [] {
      ColumnsLowerCase(ts[1..]);
      if ts[0].kind == Parenthesis {
        var v := StripChars(ts[0].value, Parens);
        StripCharsWithin(ts[0].value, Parens);
        LowerCaseWithin(v, ts[0].value);
        SplitLowerCase(v, ',');
        PiecesColumnsLowerCase(Split(v, ','));
      }
    }
  }

  lemma {:induction false} PiecesColumnsLowerCase(pieces: seq<string>)
    requires forall i :: 0 <= i < |pieces| ==> IsLowerCase(pieces[i])
    ensures forall k :: 0 <= k < |PiecesColumns(pieces)| ==> IsLowerCase(PiecesColumns(pieces)[k])
    decreases |pieces|
  {
    if pieces != [] {
      var last := pieces[|pieces| - 1];
      PiecesColumnsLowerCase(pieces[..|pieces| - 1]);
      PieceColumnChars(last);
      if PieceColumn(last).Some? {
        LowerCaseWithin(PieceColumn(last).value, last);
      }
    }
  }

  lemma {:induction false} ColumnsConcat(a: seq<Token>, b: seq<Token>)
    ensures Columns(a + b) == Columns(a) + Columns(b)
    decreases |a|
  {
    if a == [] {
      assert a + b == b;
    } else {
      assert (a + b)[1..] == a[1..] + b;
      ColumnsConcat(a[1..], b);
    }
  }

  /** The inner column loop: every comma-separated piece of one
      parenthesised token's text, appending the name of each column piece. */
  method ExtractGroupColumns(value: string) returns (names: seq<string>)
    ensures names == GroupColumns(value)
  {
    var pieces := Split(StripChars(value, Parens), ',');
    names := ExtractPieceColumns(pieces);
  }

  /** The inner column loop over the pieces already split. */
  method ExtractPieceColumns(pieces: seq<string>) returns (names: seq<string>)
    ensures names == PiecesColumns(pieces)
  {
    names := [];
    for k := 0 to |pieces|
      invariant names == PiecesColumns(pieces[..k])
    {
      PiecesColumnsPrefix(pieces, k);
      var name := PieceColumn(pieces[k]);
      if name.Some? {
        names := names + [name.value];
      }
    }
    assert pieces[..|pieces|] == pieces;
  }

  /** The column loop both readers run over the significant tokens. */
  method ExtractColumns(tokens: seq<Token>) returns (cols: seq<string>)
    ensures cols == Columns(tokens)
  {
    cols := [];
    for i := 0 to |tokens|
      invariant cols == Columns(tokens[..i])
    {
      var names: seq<string> := [];
      if tokens[i].kind == Parenthesis {
        names := ExtractGroupColumns(tokens[i].value);
      }
      assert Columns([tokens[i]]) == names by {
        assert [tokens[i]][1..] == [];
      }
      ColumnsConcat(tokens[..i], [tokens[i]]);
      assert tokens[..i + 1] == tokens[..i] + [tokens[i]];
      cols := cols + names;
    }
    assert tokens[..|tokens|] == tokens;
  }

  // ---------------------------------------------------------------- the table dictionary

  datatype SchemaError =
    | NotProperlyFormed   // ValueError: CREATE TABLE statement not properly formed.
    | TableNameNotFound   // ValueError: Table name not found in CREATE TABLE statement.

  /** What reading one statement amounts to: it is skipped (with the warning
      the reader prints, if any), it defines a table, or it raises. */
  datatype Outcome =
    | Skip(warning: Option<string>)
    | Table(name: string, columns: seq<string>)
    | Fail(error: SchemaError)

  /** The table dictionary built so far and the warnings printed so far. */
  datatype Extraction = Extraction(tables: Schema, warnings: seq<string>)

  /** The statement loop: `tables[name] = cols` for each table, in order, and
      the first raised error ends the loop. */
  function Accumulate(os: seq<Outcome>): (r: Result<Extraction, SchemaError>)
    decreases |os|
  {
    if os == [] then Success(Extraction([], []))
    else match Accumulate(os[..|os| - 1])
      case Failure(e) => Failure(e)
      case Success(x) =>
        match os[|os| - 1]
        case Skip(None) => Success(x)
        case Skip(Some(w)) => Success(x.(warnings := x.warnings + [w]))
        case Table(n, cs) => Success(x.(tables := Put(x.tables, n, cs)))
        case Fail(e) => Failure(e)
  }

  /** The outcome of every statement, in order, for a statement reader. */
  function Outcomes(statements: seq<string>, read: string -> Outcome): (os: seq<Outcome>)
    ensures |os| == |statements|
    ensures forall i :: 0 <= i < |os| ==> os[i] == read(statements[i])
  {
    seq(|statements|, i requires 0 <= i < |statements| => read(statements[i]))
  }

  lemma OutcomesSplit(statements: seq<string>, read: string -> Outcome, i: nat)
    requires i <= |statements|
    ensures Outcomes(statements, read) == Outcomes(statements[..i], read) + Outcomes(statements[i..], read)
    ensures i < |statements| ==>
              Outcomes(statements[..i + 1], read) == Outcomes(statements[..i], read) + [read(statements[i])]
  {
  }

  /** One more statement, as the loop body handles it. */
  lemma AccumulateStep(os: seq<Outcome>, o: Outcome)
    ensures Accumulate(os + [o]) ==
              match Accumulate(os)
              case Failure(e) => Failure(e)
              case Success(x) =>
                match o
                case Skip(None) => Success(x)
                case Skip(Some(w)) => Success(x.(warnings := x.warnings + [w]))
                case Table(n, cs) => Success(x.(tables := Put(x.tables, n, cs)))
                case Fail(e) => Failure(e)
  {
    assert (os + [o])[..|os|] == os;
  }

  /** Once a statement raises, the statements after it are never read. */
  lemma {:induction false} AccumulateStopsAtFailure(os: seq<Outcome>, more: seq<Outcome>)
    requires Accumulate(os).Failure?
    ensures Accumulate(os + more) == Accumulate(os)
    decreases |more|
  {
    if more == [] {
      assert os + more == os;
    } else {
      var front := more[..|more| - 1];
      AccumulateStopsAtFailure(os, front);
      assert os + more == (os + front) + [more[|more| - 1]];
      AccumulateStep(os + front, more[|more| - 1]);
    }
  }

  /** The loop raises exactly when some statement raises, and then with the
      error of the first one. */
  lemma {:induction false} AccumulateFails(os: seq<Outcome>)
    ensures Accumulate(os).Failure? <==> exists i :: 0 <= i < |os| && os[i].Fail?
    ensures Accumulate(os).Failure? ==>
              exists i :: 0 <= i < |os| && os[i].Fail? && Accumulate(os).error == os[i].error
                          && forall j :: 0 <= j < i ==> !os[j].Fail?
    decreases |os|
  {
    if os != [] {
      var front := os[..|os| - 1];
      AccumulateFails(front);
      assert forall i :: 0 <= i < |front| ==> front[i] == os[i];
      if Accumulate(front).Failure? {
        var i :| 0 <= i < |front| && front[i].Fail? && Accumulate(front).error == front[i].error
                 && forall j :: 0 <= j < i ==> !front[j].Fail?;
        assert os[i].Fail?;
      } else if os[|os| - 1].Fail? {
        assert forall j :: 0 <= j < |os| - 1 ==> !os[j].Fail?;
      } else {
        forall i | 0 <= i < |os| ensures !os[i].Fail? {
          if i < |os| - 1 {
            assert front[i] == os[i];
          }
        }
      }
    }
  }

  /** The names of the tables the outcomes define. */
  function TableNames(os: seq<Outcome>): set<string> {
    set i | 0 <= i < |os| && os[i].Table? :: os[i].name
  }

  lemma TableNamesSnoc(os: seq<Outcome>, o: Outcome)
    ensures TableNames(os + [o]) == TableNames(os) + (if o.Table? then {o.name} else {})
  {
    var all := os + [o];
    assert forall i :: 0 <= i < |os| ==> all[i] == os[i];
    assert all[|os|] == o;
  }

  /** The dictionary's keys are exactly the names of the tables defined, and
      none occurs twice. */
  lemma {:induction false} AccumulateKeys(os: seq<Outcome>)
    requires Accumulate(os).Success?
    ensures DistinctKeys(Accumulate(os).value.tables)
    ensures forall k :: k in Keys(Accumulate(os).value.tables) <==> k in TableNames(os)
    decreases |os|
  {
    if os != [] {
      var front := os[..|os| - 1];
      var last := os[|os| - 1];
      assert os == front + [last];
      AccumulateStep(front, last);
      AccumulateKeys(front);
      TableNamesSnoc(front, last);
      var m := Accumulate(front).value.tables;
      var r := Accumulate(os).value.tables;
      if last.Table? {
        assert r == Put(m, last.name, last.columns);
        PutKeepsDistinct(m, last.name, last.columns);
        assert Keys(r) == if last.name in Keys(m) then Keys(m) else Keys(m) + [last.name];
      } else {
        assert r == m;
      }
    }
  }

  /** A table the outcomes have not defined before goes last in the
      dictionary; a table defined again keeps its place. */
  lemma AccumulateKeysSnoc(os: seq<Outcome>, o: Outcome)
    requires Accumulate(os + [o]).Success?
    ensures Accumulate(os).Success?
    ensures Keys(Accumulate(os + [o]).value.tables)
            == Keys(Accumulate(os).value.tables) + (if o.Table? && o.name !in TableNames(os) then [o.name] else [])
  {
    AccumulateStep(os, o);
    AccumulateKeys(os);
    var m := Accumulate(os).value.tables;
    if o.Table? {
      assert Keys(Accumulate(os + [o]).value.tables) == Keys(Put(m, o.name, o.columns));
    } else {
      assert Accumulate(os + [o]).value.tables == m;
      assert Keys(m) + [] == Keys(m);
    }
  }

  /** The names of the tables the outcomes define, each once, in the order
      of its first definition. */
  function FirstDefined(os: seq<Outcome>): (r: seq<string>)
    decreases |os|
  {
    if os == [] then []
    else
      var names := FirstDefined(os[..|os| - 1]);
      var o := os[|os| - 1];
      if o.Table? && o.name !in names then names + [o.name] else names
  }

  /** The dictionary's keys are the table names in the order each was first
      defined, whatever the later definitions do to the column lists. */
  lemma {:induction false} AccumulateKeysOrder(os: seq<Outcome>)
    requires Accumulate(os).Success?
    ensures Keys(Accumulate(os).value.tables) == FirstDefined(os)
    decreases |os|
  {
    if os != [] {
      var front, last := os[..|os| - 1], os[|os| - 1];
      LastSplit(os);
      AccumulateKeysSnoc(front, last);
      AccumulateKeysOrder(front);
      AccumulateKeys(front);
    }
  }

  /** Every entry of the dictionary comes from some table definition. */
  lemma {:induction false} AccumulateLookup(os: seq<Outcome>, k: string)
    requires Accumulate(os).Success?
    requires Lookup(Accumulate(os).value.tables, k).Some?
    ensures exists i :: 0 <= i < |os| && os[i] == Table(k, Lookup(Accumulate(os).value.tables, k).value)
    decreases |os|
  {
    var front := os[..|os| - 1];
    var last := os[|os| - 1];
    var cs := Lookup(Accumulate(os).value.tables, k).value;
    if !(last.Table? && last.name == k) {
      var m := Accumulate(front).value.tables;
      assert Lookup(m, k) == Some(cs);
      AccumulateLookup(front, k);
      var i :| 0 <= i < |front| && front[i] == Table(k, cs);
      assert os[i] == front[i];
    }
  }

  /** A table defined twice keeps the columns of its last definition. */
  lemma {:induction false} AccumulateLastWins(os: seq<Outcome>, i: nat)
    requires Accumulate(os).Success?
    requires i < |os| && os[i].Table?
    requires forall j :: i < j < |os| ==> !(os[j].Table? && os[j].name == os[i].name)
    ensures Lookup(Accumulate(os).value.tables, os[i].name) == Some(os[i].columns)
    decreases |os|
  {
    var front := os[..|os| - 1];
    var last := os[|os| - 1];
    if i < |os| - 1 {
      assert front[i] == os[i];
      AccumulateLastWins(front, i);
      assert !(last.Table? && last.name == os[i].name);
    }
  }

  /** The warnings of the skipped statements that print one, in statement order. */
  function Warnings(os: seq<Outcome>): seq<string>
    decreases |os|
  {
    if os == [] then []
    else Warnings(os[..|os| - 1]) + (match os[|os| - 1] case Skip(Some(w)) => [w] case _ => [])
  }

  /** The loop prints exactly the warnings of the skipped statements, in order. */
  lemma {:induction false} AccumulateWarnings(os: seq<Outcome>)
    requires Accumulate(os).Success?
    ensures Accumulate(os).value.warnings == Warnings(os)
    decreases |os|
  {
    if os != [] {
      var front := os[..|os| - 1];
      var last := os[|os| - 1];
      AccumulateWarnings(front);
      var x := Accumulate(front).value;
      match last
      case Skip(Some(w)) =>
        assert Accumulate(os).value.warnings == x.warnings + [w];
      case Skip(None) =>
      case Table(n, cs) =>
    }
  }

  /** Every warning comes from some skipped statement. */
  lemma {:induction false} WarningsFromSkips(os: seq<Outcome>, w: string)
    requires w in Warnings(os)
    ensures exists i :: 0 <= i < |os| && os[i] == Skip(Some(w))
    decreases |os|
  {
    var front := os[..|os| - 1];
    var last := os[|os| - 1];
    if last != Skip(Some(w)) {
      assert w in Warnings(front);
      WarningsFromSkips(front, w);
      var i :| 0 <= i < |front| && front[i] == Skip(Some(w));
      assert os[i] == front[i];
    }
  }

  // ---------------------------------------------------------------- schema text

  /** `f"{table}({', '.join(cols)})"`. */
  function Entry(table: string, cols: seq<string>): string {
    table + "(" + Join(", ", cols) + ")"
  }

  function Entries(m: Schema): (r: seq<string>)
    ensures |r| == |m|
    ensures forall i :: 0 <= i < |m| ==> r[i] == Entry(m[i].0, m[i].1)
  {
    seq(|m|, i requires 0 <= i < |m| => Entry(m[i].0, m[i].1))
  }

  /** `"; ".join(entries) + ";"`, the entries in key order. */
  function SchemaText(m: Schema): (r: string)
    ensures |r| >= 1 && r[|r| - 1] == ';'
    ensures m == [] ==> r == ";"
  {
    Join("; ", Entries(m)) + ";"
  }

  /** Each further table adds `; ` and its entry before the closing `;`. */
  lemma SchemaTextAppend(m: Schema, table: string, cols: seq<string>)
    ensures m == [] ==> SchemaText([(table, cols)]) == Entry(table, cols) + ";"
    ensures m != [] ==> SchemaText(m + [(table, cols)])
                        == SchemaText(m)[..|SchemaText(m)| - 1] + "; " + Entry(table, cols) + ";"
  {
    assert Entries(m + [(table, cols)]) == Entries(m) + [Entry(table, cols)];
    if m != [] {
      JoinAppend("; ", Entries(m), Entry(table, cols));
      var t := SchemaText(m);
      assert t[..|t| - 1] == Join("; ", Entries(m));
    }
  }

  /** The entries after the first, as a split at `;` sees them: each keeps
      the space that followed the separator. */
  function SpacedTail(es: seq<string>): (r: seq<string>)
    requires |es| >= 1
    ensures |r| == |es| - 1
    ensures forall i :: 0 <= i < |r| ==> r[i] == " " + es[i + 1]
  {
    seq(|es| - 1, i requires 0 <= i < |es| - 1 => " " + es[i + 1])
  }

  lemma {:induction false} JoinSpaced(es: seq<string>)
    requires |es| >= 1
    ensures Join("; ", es) == Join([';'], [es[0]] + SpacedTail(es))
    decreases |es|
  {
    if |es| > 1 {
      JoinSpaced(es[1..]);
      var tail := SpacedTail(es[1..]);
      assert SpacedTail(es) == [" " + es[1]] + tail;
      var xs := [es[0]] + SpacedTail(es);
      assert xs[1..] == [" " + es[1]] + tail;
      assert ([es[1]] + tail)[1..] == tail;
      assert Join([';'], xs) == es[0] + [';'] + Join([';'], xs[1..]);
      if |es| == 2 {
        assert Join([';'], xs[1..]) == " " + es[1];
      } else {
        assert Join([';'], xs[1..]) == " " + es[1] + [';'] + Join([';'], tail);
        assert Join([';'], [es[1]] + tail) == es[1] + [';'] + Join([';'], tail);
      }
    }
  }

  /** The schema text reads back: split at `;` it gives the first entry, the
      others each behind a space, and the empty text after the final `;`,
      provided no table or column name contains `;`. */
  lemma SchemaTextSplits(m: Schema)
    requires m != []
    requires forall i :: 0 <= i < |m| ==> ';' !in Entry(m[i].0, m[i].1)
    ensures Split(SchemaText(m), ';') == [Entries(m)[0]] + SpacedTail(Entries(m)) + [""]
  {
    var es := Entries(m);
    var xs := [es[0]] + SpacedTail(es);
    JoinSpaced(es);
    JoinAppend([';'], xs, "");
    assert Join([';'], xs + [""]) == SchemaText(m);
    forall i | 0 <= i < |xs + [""]| ensures ';' !in (xs + [""])[i] {
      if 1 <= i < |xs| {
        assert xs[i] == " " + es[i];
        assert (" " + es[i])[1..] == es[i];
      }
    }
    SplitJoin(xs + [""], ';');
  }

  // ---------------------------------------------------------------- comma split at depth 0

  /** Nesting depth after reading `c` at depth `d`; a stray `)` stays at 0. */
  function StepDepth(d: nat, c: char): nat {
    if c == '(' then d + 1 else if c == ')' && d > 0 then d - 1 else d
  }

  /** The split the column reader evidently intends: at the commas outside
      every parenthesis, reading from depth `d`. */
  function SplitTopFrom(s: string, d: nat): (r: seq<string>)
    ensures |r| >= 1
    ensures Join([','], r) == s
    decreases |s|
  {
    if s == [] then [""]
    else if s[0] == ',' && d == 0 then
      var rest := SplitTopFrom(s[1..], 0);
      assert ([""] + rest)[1..] == rest;
      [""] + rest
    else
      var rest := SplitTopFrom(s[1..], StepDepth(d, s[0]));
      JoinPrepend([','], s[0], rest);
      assert s == [s[0]] + s[1..];
      [[s[0]] + rest[0]] + rest[1..]
  }

  /** Every comma of `s` read from depth `d` is inside parentheses. */
  predicate NoTopComma(s: string, d: nat)
    decreases |s|
  {
    s == [] || ((s[0] == ',' ==> d > 0) && NoTopComma(s[1..], StepDepth(d, s[0])))
  }

  /** The depth after reading `s` from depth `d`. */
  function EndDepth(s: string, d: nat): nat
    decreases |s|
  {
    if s == [] then d else EndDepth(s[1..], StepDepth(d, s[0]))
  }

  lemma {:induction false} SplitTopWhole(a: string, d: nat)
    requires NoTopComma(a, d)
    ensures SplitTopFrom(a, d) == [a]
    decreases |a|
  {
    if a != [] {
      SplitTopWhole(a[1..], StepDepth(d, a[0]));
      assert [a[0]] + a[1..] == a;
    }
  }

  lemma {:induction false} SplitTopAtComma(a: string, d: nat, b: string)
    requires NoTopComma(a, d) && EndDepth(a, d) == 0
    ensures SplitTopFrom(a + [','] + b, d) == [a] + SplitTopFrom(b, 0)
    decreases |a|
  {
    if a == [] {
      assert a + [','] + b == [','] + b;
      assert ([','] + b)[1..] == b;
    } else {
      assert (a + [','] + b)[1..] == a[1..] + [','] + b;
      SplitTopAtComma(a[1..], StepDepth(d, a[0]), b);
      assert [a[0]] + a[1..] == a;
    }
  }

  /** The intended split undoes a comma join of column definitions whose own
      commas are all nested inside balanced parentheses. */
  lemma {:induction false} SplitTopJoin(ds: seq<string>)
    requires |ds| >= 1
    requires forall i :: 0 <= i < |ds| ==> NoTopComma(ds[i], 0)
    requires forall i :: 0 <= i < |ds| - 1 ==> EndDepth(ds[i], 0) == 0
    ensures SplitTopFrom(Join([','], ds), 0) == ds
    decreases |ds|
  {
    if |ds| == 1 {
      SplitTopWhole(ds[0], 0);
    } else {
      SplitTopJoin(ds[1..]);
      SplitTopAtComma(ds[0], 0, Join([','], ds[1..]));
      assert [ds[0]] + ds[1..] == ds;
    }
  }

  /** Without parentheses the intended split is the plain one. */
  lemma {:induction false} SplitTopWithoutParentheses(s: string)
    requires '(' !in s && ')' !in s
    ensures SplitTopFrom(s, 0) == Split(s, ',')
    decreases |s|
  {
    if s != [] {
      assert '(' !in s[1..] && ')' !in s[1..] by {
        forall k | 0 <= k < |s| - 1 ensures s[1..][k] == s[k + 1] { }
      }
      SplitTopWithoutParentheses(s[1..]);
    }
  }

  /** The column names of one parenthesised token with the depth-aware split. */
  function GroupColumnsIntended(value: string): (r: seq<string>)
    ensures forall k :: 0 <= k < |r| ==> UnquotedWord(r[k])
  {
    var pieces := SplitTopFrom(StripChars(value, Parens), 0);
    PiecesColumnsWords(pieces);
    PiecesColumns(pieces)
  }

  /** Text without blanks and without a quote at either end: what every
      column name is, commas aside. */
  predicate UnquotedWord(c: string) {
    && (forall i :: 0 <= i < |c| ==> !IsSpace(c[i]))
    && (c != [] ==> c[0] !in Quotes && c[|c| - 1] !in Quotes)
  }

  lemma {:induction false} PiecesColumnsWords(pieces: seq<string>)
    ensures forall k :: 0 <= k < |PiecesColumns(pieces)| ==> UnquotedWord(PiecesColumns(pieces)[k])
    decreases |pieces|
  {
    if pieces != [] {
      var front, last := pieces[..|pieces| - 1], pieces[|pieces| - 1];
      PiecesColumnsWords(front);
      PieceNamesWords(last);
      assert PiecesColumns(pieces) == PiecesColumns(front) + PieceNames(last);
    }
  }

  lemma PieceNamesWords(piece: string)
    ensures forall k :: 0 <= k < |PieceNames(piece)| ==> UnquotedWord(PieceNames(piece)[k])
  {
    PieceColumnChars(piece);
  }

  /** A piece whose `i`-th letter differs, in any case, from the `i`-th
      letter of both `primary key` and `foreign key` is not a constraint. */
  lemma NotConstraintAt(a: string, i: nat)
    requires i < |a| && i < 11
    requires LowerChar(a[i]) != "primary key"[i] && LowerChar(a[i]) != "foreign key"[i]
    ensures !IsConstraint(a)
  {
    assert Lower(a)[i] == LowerChar(a[i]);
  }

  lemma PieceColumnOfStripped(piece: string)
    requires Strip(piece) == piece && piece != []
    requires !IsConstraint(piece)
    ensures PieceColumn(piece) == Some(StripChars(FirstWord(piece), Quotes))
  {
  }

  /** A stripped piece that is not a constraint yields its first `n`
      characters, when they are a word without quotes at either end. */
  lemma PieceColumnWord(piece: string, n: nat)
    requires piece != [] && !IsSpace(piece[0]) && !IsSpace(piece[|piece| - 1])
    requires !IsConstraint(piece)
    requires 0 < n <= |piece| && (n < |piece| ==> IsSpace(piece[n]))
    requires forall i :: 0 <= i < n ==> !IsSpace(piece[i])
    requires piece[0] !in Quotes && piece[n - 1] !in Quotes
    ensures PieceColumn(piece) == Some(piece[..n])
  {
    StripCharsUntouched(piece, Whitespace);
    PieceColumnOfStripped(piece);
    FirstWordAt(piece, n);
    StripCharsUntouched(piece[..n], Quotes);
  }

  /** A piece with one leading blank reads like the piece itself. */
  lemma PieceColumnLeadingSpace(piece: string)
    requires piece != [] && !IsSpace(piece[0]) && !IsSpace(piece[|piece| - 1])
    ensures PieceColumn([' '] + piece) == PieceColumn(piece)
  {
    StripCharsLeading(' ', piece, Whitespace);
    StripCharsUntouched(piece, Whitespace);
  }

  lemma {:induction false} DepthConcat(a: string, b: string, d: nat)
    ensures NoTopComma(a + b, d) <==> NoTopComma(a, d) && NoTopComma(b, EndDepth(a, d))
    ensures EndDepth(a + b, d) == EndDepth(b, EndDepth(a, d))
    decreases |a|
  {
    if a == [] {
      assert a + b == b;
    } else {
      assert (a + b)[1..] == a[1..] + b;
      DepthConcat(a[1..], b, StepDepth(d, a[0]));
    }
  }

  /** Text without brackets or commas leaves the depth alone. */
  lemma {:induction false} DepthPlain(s: string, d: nat)
    requires forall i :: 0 <= i < |s| ==> s[i] != ',' && s[i] !in Parens
    ensures NoTopComma(s, d) && EndDepth(s, d) == d
    decreases |s|
  {
    if s != [] {
      assert forall i :: 0 <= i < |s| - 1 ==> s[1..][i] == s[i + 1];
      DepthPlain(s[1..], d);
    }
  }

  /** Text of one word: no blank, comma, bracket or quote character. */
  predicate Plain(w: string) {
    forall i :: 0 <= i < |w| ==> !IsSpace(w[i]) && w[i] != ',' && w[i] !in Parens && w[i] !in Quotes
  }

  /** A column name that a constraint check cannot mistake for `primary key`
      or `foreign key`: a non-empty word not starting with `p` or `f`. */
  predicate PlainColumn(c: string) {
    c != [] && Plain(c) && LowerChar(c[0]) != 'p' && LowerChar(c[0]) != 'f'
  }

  /** A number: one or more decimal digits. */
  predicate Number(n: string) {
    n != [] && AllDigits(n)
  }

  /** A column definition, that is a piece that is not a constraint, made of
      a one-word name, a blank and the rest, names that column. */
  lemma PieceColumnOfDefinition(c: string, rest: string)
    requires c != [] && Plain(c)
    requires rest != [] && !IsSpace(rest[|rest| - 1])
    requires !IsConstraint(c + " " + rest)
    ensures PieceColumn(c + " " + rest) == Some(c)
  {
    var piece := c + " " + rest;
    assert piece[|c|] == ' ';
    assert piece[..|c|] == c;
    assert piece[0] == c[0];
    assert !IsSpace(piece[|piece| - 1]);
    assert forall i :: 0 <= i < |c| ==> !IsSpace(piece[i]);
    assert IsSpace(piece[|c|]);
    assert piece[|c| - 1] !in Quotes;
    PieceColumnWord(piece, |c|);
  }

  /** A definition whose name does not start with `p` or `f` is no constraint. */
  lemma PlainColumnDefinition(c: string, rest: string)
    requires PlainColumn(c)
    ensures !IsConstraint(c + " " + rest)
  {
    var piece := c + " " + rest;
    assert piece[0] == c[0];
    NotConstraintAt(piece, 0);
  }

  /** The shapes of the column list `(c1 t1(p,q), c2 t2)`: plain column
      names and type names, and a type with two numbers such as `DEC(5,2)`. */
  predicate ScaledShape(c1: string, t1: string, p: string, q: string, c2: string, t2: string) {
    PlainColumn(c1) && PlainColumn(c2) && t1 != [] && Plain(t1) && t2 != [] && Plain(t2) && Number(p) && Number(q)
  }

  /** The first column's definition, `c1 t1(p,q)`. */
  function ScaledDefinition(c1: string, t1: string, p: string, q: string): string {
    c1 + " " + (t1 + "(" + p + "," + q + ")")
  }

  /** The second column's definition behind the separating blank, ` c2 t2`. */
  function SecondDefinition(c2: string, t2: string): string {
    [' '] + (c2 + " " + t2)
  }

  /** The text of the parenthesised column list `(c1 t1(p,q), c2 t2)`. */
  function ScaledColumns(c1: string, t1: string, p: string, q: string, c2: string, t2: string): string {
    "(" + ScaledDefinition(c1, t1, p, q) + "," + SecondDefinition(c2, t2) + ")"
  }

  lemma ScaledColumnsInside(c1: string, t1: string, p: string, q: string, c2: string, t2: string)
    requires ScaledShape(c1, t1, p, q, c2, t2)
    ensures StripChars(ScaledColumns(c1, t1, p, q, c2, t2), Parens)
            == ScaledDefinition(c1, t1, p, q) + [','] + SecondDefinition(c2, t2)
  {
    var inside := ScaledDefinition(c1, t1, p, q) + [','] + SecondDefinition(c2, t2);
    assert ScaledColumns(c1, t1, p, q, c2, t2) == ['('] + inside + [')'];
    assert inside[0] == c1[0] && inside[|inside| - 1] == t2[|t2| - 1];
    StripCharsEnclosed(inside, Parens, '(', ')');
  }

  lemma SecondDefinitionPlain(c2: string, t2: string)
    requires Plain(c2) && Plain(t2)
    ensures forall i :: 0 <= i < |SecondDefinition(c2, t2)| ==>
              SecondDefinition(c2, t2)[i] != ',' && SecondDefinition(c2, t2)[i] !in Parens
  {
    var c := SecondDefinition(c2, t2);
    assert forall i :: 0 <= i < |c| ==> c[i] in c2 || c[i] in t2 || c[i] == ' ';
  }

  lemma SecondDefinitionColumn(c2: string, t2: string)
    requires PlainColumn(c2) && t2 != [] && Plain(t2)
    ensures PieceNames(SecondDefinition(c2, t2)) == [c2]
  {
    PieceColumnLeadingSpace(c2 + " " + t2);
    PlainColumnDefinition(c2, t2);
    PieceColumnOfDefinition(c2, t2);
  }

  /** The pieces an every-comma split makes of the column list. */
  lemma ScaledPieces(c1: string, t1: string, p: string, q: string, c2: string, t2: string)
    requires ScaledShape(c1, t1, p, q, c2, t2)
    ensures Split(ScaledDefinition(c1, t1, p, q) + [','] + SecondDefinition(c2, t2), ',')
            == [c1 + " " + (t1 + "(" + p), q + ")", SecondDefinition(c2, t2)]
  {
    var a, b, c := c1 + " " + (t1 + "(" + p), q + ")", SecondDefinition(c2, t2);
    assert ScaledDefinition(c1, t1, p, q) + [','] + c == a + [','] + (b + [','] + c);
    assert ',' !in a by {
      assert forall i :: 0 <= i < |a| ==> a[i] in c1 || a[i] in t1 || a[i] in p || a[i] == ' ' || a[i] == '(';
    }
    assert ',' !in b by { assert forall i :: 0 <= i < |b| ==> b[i] in q || b[i] == ')'; }
    SecondDefinitionPlain(c2, t2);
    assert ',' !in c;
    SplitAtSeparator(a, ',', b + [','] + c);
    SplitAtSeparator(b, ',', c);
    SplitWithoutSeparator(c, ',');
  }

  lemma ScalePieceColumn(q: string)
    requires Number(q)
    ensures PieceNames(q + ")") == [q + ")"]
  {
    assert Plain(q);
    var b := q + ")";
    assert b[0] == q[0];
    NotConstraintAt(b, 0);
    PieceColumnWord(b, |b|);
    assert b[..|b|] == b;
  }

  lemma DefinitionNames(c: string, rest: string)
    requires PlainColumn(c)
    requires rest != [] && !IsSpace(rest[|rest| - 1])
    ensures PieceNames(c + " " + rest) == [c]
  {
    PlainColumnDefinition(c, rest);
    PieceColumnOfDefinition(c, rest);
  }

  lemma PiecesColumnsOfOne(a: string)
    ensures PiecesColumns([a]) == PieceNames(a)
  {
    assert [a][..0] == [];
  }

  lemma PiecesColumnsOfTwo(a: string, b: string)
    ensures PiecesColumns([a, b]) == PieceNames(a) + PieceNames(b)
  {
    PiecesColumnsOfOne(a);
    PiecesColumnsSnoc([a], b);
    assert [a] + [b] == [a, b];
  }

  lemma PiecesColumnsOfThree(a: string, b: string, c: string)
    ensures PiecesColumns([a, b, c]) == PieceNames(a) + PieceNames(b) + PieceNames(c)
  {
    PiecesColumnsOfTwo(a, b);
    PiecesColumnsSnoc([a, b], c);
    assert [a, b] + [c] == [a, b, c];
  }

  // A local solver aid: the three-name display stated apart from the
  // proofs that would otherwise build it from literals.
  lemma ThreeNames(x: string, y: string, z: string)
    ensures [x] + [y] + [z] == [x, y, z]
  {
  }

  lemma ScaledPieceNames(c1: string, t1: string, p: string, q: string, c2: string, t2: string)
    requires ScaledShape(c1, t1, p, q, c2, t2)
    ensures PieceNames(c1 + " " + (t1 + "(" + p)) == [c1]
    ensures PieceNames(q + ")") == [q + ")"]
    ensures PieceNames(SecondDefinition(c2, t2)) == [c2]
  {
    DefinitionNames(c1, t1 + "(" + p);
    ScalePieceColumn(q);
    SecondDefinitionColumn(c2, t2);
  }

  /** As written, the comma of a type such as `DEC(5,2)` splits its column
      definition: the reader returns the scale followed by `)` as a column
      of its own, between the two real columns. */
  lemma GroupColumnsSplitsNestedComma(c1: string, t1: string, p: string, q: string, c2: string, t2: string)
    requires ScaledShape(c1, t1, p, q, c2, t2)
    ensures GroupColumns(ScaledColumns(c1, t1, p, q, c2, t2)) == [c1, q + ")", c2]
  {
    var v, inside := ScaledColumns(c1, t1, p, q, c2, t2), ScaledDefinition(c1, t1, p, q) + [','] + SecondDefinition(c2, t2);
    var a, b, c := c1 + " " + (t1 + "(" + p), q + ")", SecondDefinition(c2, t2);
    ScaledColumnsInside(c1, t1, p, q, c2, t2);
    ScaledPieces(c1, t1, p, q, c2, t2);
    assert GroupColumns(v) == PiecesColumns([a, b, c]);
    ScaledPieceNames(c1, t1, p, q, c2, t2);
    PiecesColumnsOfThree(a, b, c);
    ThreeNames(c1, q + ")", c2);
  }

  /** Inside the type's brackets: the scale and the closing bracket. */
  lemma ScaleDepth(q: string)
    requires Number(q)
    ensures NoTopComma(q + ")", 1) && EndDepth(q + ")", 1) == 0
  {
    assert Plain(q);
    DepthPlain(q, 1);
    DepthConcat(q, ")", 1);
  }

  /** Inside the type's brackets: `p,q)` read from depth one. */
  lemma PrecisionScaleDepth(p: string, q: string)
    requires Number(p) && Number(q)
    ensures NoTopComma(p + ("," + (q + ")")), 1) && EndDepth(p + ("," + (q + ")")), 1) == 0
  {
    assert Plain(p);
    DepthPlain(p, 1);
    ScaleDepth(q);
    DepthConcat(",", q + ")", 1);
    DepthConcat(p, "," + (q + ")"), 1);
  }

  lemma ScaledDefinitionDepth(c1: string, t1: string, p: string, q: string)
    requires PlainColumn(c1) && t1 != [] && Plain(t1) && Number(p) && Number(q)
    ensures NoTopComma(ScaledDefinition(c1, t1, p, q), 0) && EndDepth(ScaledDefinition(c1, t1, p, q), 0) == 0
  {
    var head := c1 + " " + t1;
    var tail := p + ("," + (q + ")"));
    assert forall i :: 0 <= i < |head| ==> head[i] in c1 || head[i] in t1 || head[i] == ' ';
    DepthPlain(head, 0);
    PrecisionScaleDepth(p, q);
    DepthConcat("(", tail, 0);
    DepthConcat(head, "(" + tail, 0);
    assert ScaledDefinition(c1, t1, p, q) == head + ("(" + tail);
  }

  /** The pieces the depth-aware split makes of the column list. */
  lemma ScaledPiecesIntended(c1: string, t1: string, p: string, q: string, c2: string, t2: string)
    requires ScaledShape(c1, t1, p, q, c2, t2)
    ensures SplitTopFrom(ScaledDefinition(c1, t1, p, q) + [','] + SecondDefinition(c2, t2), 0)
            == [ScaledDefinition(c1, t1, p, q), SecondDefinition(c2, t2)]
  {
    var d, c := ScaledDefinition(c1, t1, p, q), SecondDefinition(c2, t2);
    ScaledDefinitionDepth(c1, t1, p, q);
    SplitTopAtComma(d, 0, c);
    SecondDefinitionPlain(c2, t2);
    DepthPlain(c, 0);
    SplitTopWhole(c, 0);
  }

  lemma ScaledIntendedPieces(c1: string, t1: string, p: string, q: string, c2: string, t2: string)
    requires ScaledShape(c1, t1, p, q, c2, t2)
    ensures GroupColumnsIntended(ScaledColumns(c1, t1, p, q, c2, t2))
            == PiecesColumns([ScaledDefinition(c1, t1, p, q), SecondDefinition(c2, t2)])
  {
    ScaledColumnsInside(c1, t1, p, q, c2, t2);
    ScaledPiecesIntended(c1, t1, p, q, c2, t2);
  }

  lemma ScaledDefinitionName(c1: string, t1: string, p: string, q: string)
    requires PlainColumn(c1) && t1 != [] && Plain(t1) && Number(p) && Number(q)
    ensures PieceNames(ScaledDefinition(c1, t1, p, q)) == [c1]
  {
    DefinitionNames(c1, t1 + "(" + p + "," + q + ")");
  }

  /** The depth-aware split reads the same list as just its two columns. */
  lemma GroupColumnsIntendedKeepsNestedComma(c1: string, t1: string, p: string, q: string, c2: string, t2: string)
    requires ScaledShape(c1, t1, p, q, c2, t2)
    ensures GroupColumnsIntended(ScaledColumns(c1, t1, p, q, c2, t2)) == [c1, c2]
  {
    var d, c := ScaledDefinition(c1, t1, p, q), SecondDefinition(c2, t2);
    ScaledIntendedPieces(c1, t1, p, q, c2, t2);
    ScaledDefinitionName(c1, t1, p, q);
    SecondDefinitionColumn(c2, t2);
    PiecesColumnsOfTwo(d, c);
    assert [c1] + [c2] == [c1, c2];
  }
}
