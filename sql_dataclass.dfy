/** The query intermediate representation of `src/data/sql_dataclass.py`: the
    frozen `Query` value, its projection onto a 0/1 label vector against a
    schema, its rendering as SQL text, and the decoder from a lower-cased token
    list. Raised exceptions become `Failure` values. */
module SqlDataclass {
  import opened Wrappers
  import opened Text
  import opened Mapping
  import opened SqlClauses

  /** `Query`. `fromTable` is None only when the decoder found no `from`;
      `orderBy` stands for both `None` and `[]`, which the code treats alike. */
  datatype Query = Query(
    select: seq<string>,
    fromTable: Option<string>,
    where: Where,
    orderBy: seq<OrderBy>,
    limit: Option<int>)

  datatype QueryError =
    | MissingFromTable          // ValueError: FROM table is not specified in the query.
    | EmptySchema               // ValueError from max() of an empty list of column counts
    | UnknownTable(name: string) // ValueError: Table ... not found in schema.
    | MissingTableAfterFrom     // IndexError: `from` is the last token before the clauses

  /** Python truthiness of `from_table`: neither None nor the empty string. */
  predicate HasTable(q: Query) {
    q.fromTable.Some? && q.fromTable.value != ""
  }

  // ---------------------------------------------------------------- label

  /** `max([len(cols) for cols in schema.values()])`: the widest table. */
  function MaxColumns(schema: Schema): (w: nat)
    requires schema != []
    ensures forall i :: 0 <= i < |schema| ==> |schema[i].1| <= w
    ensures exists i :: 0 <= i < |schema| && |schema[i].1| == w
    decreases |schema|
  {
    if |schema| == 1 then |schema[0].1|
    else
      var rest := MaxColumns(schema[1..]);
      assert forall i :: 1 <= i < |schema| ==> schema[i] == schema[1..][i - 1];
      if |schema[0].1| >= rest then |schema[0].1| else rest
  }

  /** Whether column slot `j` of the label is set for `cols`: every existing slot
      when nothing is selected, otherwise exactly the slots that are the first
      position in `cols` of some selected name. */
  predicate SlotSet(select: seq<string>, cols: seq<string>, j: nat) {
    j < |cols| && (select == [] || (cols[j] in select && cols[j] !in cols[..j]))
  }

  /** The table part of a label: a 1 at position `t` of `n`, 0 elsewhere. */
  function OneHot(n: nat, t: nat): seq<int> {
    seq(n, i requires 0 <= i < n => if i == t then 1 else 0)
  }

  /** The column part of a label: `width` slots, 1 where `SlotSet` holds. */
  function ColumnSlots(select: seq<string>, cols: seq<string>, width: nat): seq<int> {
    seq(width, j requires 0 <= j < width => if SlotSet(select, cols, j) then 1 else 0)
  }

  /** What `convert_to_label` returns or raises. */
  function Label(q: Query, schema: Schema): (r: Result<seq<int>, QueryError>)
    ensures r.Success? <==> HasTable(q) && q.fromTable.value in Keys(schema)
    ensures r.Success? ==> |r.value| == |schema| + MaxColumns(schema)
                           && forall i :: 0 <= i < |r.value| ==> r.value[i] == 0 || r.value[i] == 1
  {
    if !HasTable(q) then Failure(MissingFromTable)
    else if schema == [] then Failure(EmptySchema)
    else match KeyIndex(schema, q.fromTable.value)
      case None => Failure(UnknownTable(q.fromTable.value))
      case Some(t) => Success(OneHot(|schema|, t) + ColumnSlots(q.select, schema[t].1, MaxColumns(schema)))
  }

  /** The error cases of `convert_to_label`, in the order the code meets them,
      and the shape of a label: one table bit, at the table's position in key
      order, followed by `MaxColumns` column slots set as `SlotSet` says. */
  lemma LabelSpec(q: Query, schema: Schema)
    ensures !HasTable(q) ==> Label(q, schema) == Failure(MissingFromTable)
    ensures HasTable(q) && schema == [] ==> Label(q, schema) == Failure(EmptySchema)
    ensures HasTable(q) && schema != [] && q.fromTable.value !in Keys(schema)
            ==> Label(q, schema) == Failure(UnknownTable(q.fromTable.value))
    ensures Label(q, schema).Success? <==> HasTable(q) && q.fromTable.value in Keys(schema)
    ensures Label(q, schema).Success? ==>
              var r, name := Label(q, schema).value, q.fromTable.value;
              && |r| == |schema| + MaxColumns(schema)
              && (forall i :: 0 <= i < |schema| ==> (r[i] == 1 <==> Some(i) == KeyIndex(schema, name)))
              && (forall i :: 0 <= i < |schema| ==> r[i] == 0 || r[i] == 1)
              && (forall j :: 0 <= j < MaxColumns(schema) ==>
                    r[|schema| + j] == if SlotSet(q.select, Lookup(schema, name).value, j) then 1 else 0)
  {
  }

  /** Whether `cols[j]` is a selected name met for the first time at `j`. */
  predicate FirstSelected(select: seq<string>, cols: seq<string>, j: nat) {
    j < |cols| && cols[j] in select && cols[j] !in cols[..j]
  }

  /** Selecting one more name marks exactly its first position in `cols`, if any. */
  lemma FirstSelectedStep(select: seq<string>, col: string, cols: seq<string>, j: nat)
    ensures FirstSelected(select + [col], cols, j)
            <==> FirstSelected(select, cols, j) || IndexOf(cols, col) == Some(j)
  {
    if j < |cols| && cols[j] == col && cols[j] !in cols[..j] {
      var k := IndexOf(cols, col);
      FirstOccurrenceUnique(cols, col, k.value, j);
    }
  }

  /** The column half of `convert_to_label`, on a zeroed array of `width`
      slots: every slot of the table when nothing is selected, otherwise the
      slot `cols.index(col)` of each selected `col` that the table has. */
  method MarkColumns(select: seq<string>, cols: seq<string>, width: nat) returns (labels: seq<int>)
    requires |cols| <= width
    ensures labels == ColumnSlots(select, cols, width)
  {
    var a := new int[width](_ => 0);
    if select == [] {
      for i := 0 to |cols|
        invariant forall j :: 0 <= j < width ==> a[j] == if j < i then 1 else 0
      {
        a[i] := 1;
      }
    } else {
      for k := 0 to |select|
        invariant forall j :: 0 <= j < width ==> a[j] == if FirstSelected(select[..k], cols, j) then 1 else 0
      {
        var col := select[k];
        assert select[..k + 1] == select[..k] + [col];
        forall j | 0 <= j < width {
          FirstSelectedStep(select[..k], col, cols, j);
        }
        match IndexOf(cols, col)
        case Some(j) =>
          a[j] := 1;
        case None =>
      }
      assert select[..|select|] == select;
    }
    labels := a[..];
  }

  /** `Query.convert_to_label`: a zeroed table array with the table's position
      set to 1, followed by the marked column slots. */
  method ConvertToLabel(q: Query, schema: Schema) returns (r: Result<seq<int>, QueryError>)
    ensures r == Label(q, schema)
  {
    if !HasTable(q) {
      return Failure(MissingFromTable);
    }
    var name := q.fromTable.value;
    var tableLabels := new int[|schema|](_ => 0);
    if schema == [] {
      return Failure(EmptySchema);
    }
    var width := MaxColumns(schema);
    var t := KeyIndex(schema, name);
    if t.None? {
      return Failure(UnknownTable(name));
    }
    tableLabels[t.value] := 1;
    assert tableLabels[..] == OneHot(|schema|, t.value);
    var columnLabels := MarkColumns(q.select, schema[t.value].1, width);
    r := Success(tableLabels[..] + columnLabels);
  }

  /** Selecting a name the target table does not have changes nothing. */
  lemma LabelIgnoresUnknownColumn(q: Query, schema: Schema, c: string)
    requires q.select != [] && HasTable(q)
    requires Lookup(schema, q.fromTable.value).Some?
    requires c !in Lookup(schema, q.fromTable.value).value
    ensures Label(q.(select := q.select + [c]), schema) == Label(q, schema)
  {
    var t := KeyIndex(schema, q.fromTable.value).value;
    var cols, w := schema[t].1, MaxColumns(schema);
    forall j | 0 <= j < w ensures SlotSet(q.select + [c], cols, j) == SlotSet(q.select, cols, j) {
      if j < |cols| {
        assert cols[j] in cols;
      }
    }
    assert ColumnSlots(q.select + [c], cols, w) == ColumnSlots(q.select, cols, w);
  }

  /** Selecting everything from the first of two two-column tables sets the
      first table bit and both column bits. */
  lemma LabelSelectAllExample()
    ensures Label(Query([], Some("employees"), DefaultWhere, [], None),
                  [("employees", ["id", "name"]), ("departments", ["id", "name"])])
            == Success([1, 0, 1, 1])
  {
    var schema := [("employees", ["id", "name"]), ("departments", ["id", "name"])];
    assert Keys(schema)[0] == "employees";
    assert KeyIndex(schema, "employees") == Some(0);
    assert MaxColumns(schema[1..]) == 2;
    assert MaxColumns(schema) == 2;
    assert OneHot(2, 0) == [1, 0];
    assert ColumnSlots([], ["id", "name"], 2) == [1, 1];
    var q := Query([], Some("employees"), DefaultWhere, [], None);
    assert HasTable(q);
    assert Label(q, schema) == Success(OneHot(2, 0) + ColumnSlots([], schema[0].1, 2));
    assert [1, 0] + [1, 1] == [1, 0, 1, 1];
  }

  // ---------------------------------------------------------------- rendering

  /** `" LIMIT n"` when the limit is truthy: neither None nor 0. */
  function LimitClause(limit: Option<int>): (r: string)
    ensures r == "" <==> limit.None? || limit.value == 0
    ensures r != "" ==> StartsWith(r, " LIMIT ") && IsIntText(r[7..]) && ParseInt(r[7..]) == limit.value
  {
    if limit.Some? && limit.value != 0 then
      IntToStringRoundTrip(limit.value);
      assert (" LIMIT " + IntToString(limit.value))[7..] == IntToString(limit.value);
      " LIMIT " + IntToString(limit.value)
    else ""
  }

  /** What `Query.generate_sql` returns or raises. */
  function Render(q: Query): (r: Result<string, QueryError>)
    ensures r.Failure? <==> !HasTable(q)
    ensures r.Failure? ==> r.error == MissingFromTable
    ensures r.Success? ==> StartsWith(r.value, SelectClause(q.select) + (" FROM " + q.fromTable.value))
    ensures r.Success? ==> r.value[|r.value| - 1] == ';'
  {
    if !HasTable(q) then Failure(MissingFromTable)
    else
      var head := SelectClause(q.select) + (" FROM " + q.fromTable.value);
      var s := head + WhereClause(q.where) + OrderByClause(q.orderBy) + LimitClause(q.limit) + ";";
      assert s[..|head|] == head;
      Success(s)
  }

  /** `Query.generate_sql`: the text is accumulated clause by clause. */
  method GenerateSql(q: Query) returns (r: Result<string, QueryError>)
    ensures r == Render(q)
  {
    var s := "";
    if q.select != [] {
      s := s + ("SELECT " + Join(", ", q.select));
    } else {
      s := s + "SELECT *";
    }
    if !HasTable(q) {
      return Failure(MissingFromTable);
    }
    assert s == SelectClause(q.select);
    s := s + (" FROM " + q.fromTable.value);
    ghost var w := s;
    var conds := ConditionTexts(q.where.predicates);
    if conds != [] {
      s := s + (" WHERE " + (" " + Keyword(q.where.boolOperator) + Join(" ", conds)));
    }
    assert s == w + WhereClause(q.where);
    w := s;
    if q.orderBy != [] {
      var items := OrderByTexts(q.orderBy);
      if items != [] {
        s := s + (" ORDER BY " + Join(", ", items));
      }
    }
    assert s == w + OrderByClause(q.orderBy);
    w := s;
    if q.limit.Some? && q.limit.value != 0 {
      s := s + (" LIMIT " + IntToString(q.limit.value));
    }
    assert s == w + LimitClause(q.limit);
    r := Success(s + ";");
  }

  /** A rendered query is its SELECT/FROM head, then a WHERE clause exactly
      when there are predicates, an ORDER BY clause exactly when there are
      order items, a LIMIT clause exactly when the limit is truthy, and `;`. */
  lemma RenderClauses(q: Query)
    requires HasTable(q)
    ensures Render(q) == Success(SelectClause(q.select) + (" FROM " + q.fromTable.value)
                                 + WhereClause(q.where) + OrderByClause(q.orderBy) + LimitClause(q.limit) + ";")
    ensures q.where.predicates == [] && q.orderBy == [] && (q.limit.None? || q.limit.value == 0)
            ==> Render(q) == Success(SelectClause(q.select) + (" FROM " + q.fromTable.value) + ";")
  {
  }

  // ---------------------------------------------------------------- decoding

  const ClauseKeywords: set<string> := {"where", "order", "limit"}

  /** `tokens.index(kw) if kw in tokens else float("inf")`, with `len(tokens)`
      standing for infinity (the minimum below also takes `len(tokens)`). */
  function PositionOr(tokens: seq<string>, kw: string): nat {
    match IndexOf(tokens, kw)
    case Some(i) => i
    case None => |tokens|
  }

  function Min(a: nat, b: nat): nat {
    if a <= b then a else b
  }

  /** `first_non_select_idx`: the minimum of the positions of `where`,
      `order` and `limit` and of `len(tokens)`, which is the position of the
      first clause keyword. */
  function ClauseStart(tokens: seq<string>): (n: nat)
    ensures n <= |tokens|
    ensures forall i :: 0 <= i < n ==> tokens[i] !in ClauseKeywords
    ensures n < |tokens| ==> tokens[n] in ClauseKeywords
  {
    var w, o, l := PositionOr(tokens, "where"), PositionOr(tokens, "order"), PositionOr(tokens, "limit");
    assert "where" !in tokens[..w] && "order" !in tokens[..o] && "limit" !in tokens[..l];
    var n := Min(Min(w, o), Min(l, |tokens|));
    assert forall i :: 0 <= i < n ==> tokens[i] in tokens[..w] && tokens[i] in tokens[..o] && tokens[i] in tokens[..l];
    n
  }

  /** The clause keywords' first position is determined by the two facts above. */
  lemma ClauseStartAt(tokens: seq<string>, n: nat)
    requires n <= |tokens|
    requires forall i :: 0 <= i < n ==> tokens[i] !in ClauseKeywords
    requires n < |tokens| ==> tokens[n] in ClauseKeywords
    ensures ClauseStart(tokens) == n
  {
  }

  predicate IsProjected(token: string) {
    token != "select" && token != ","
  }

  /** The tokens kept as projected columns: all but `select` and `,`, in order. */
  function ProjectedColumns(ts: seq<string>): (r: seq<string>)
    ensures |r| <= |ts|
    ensures forall x :: x in r <==> x in ts && IsProjected(x)
    decreases |ts|
  {
    if ts == [] then []
    else
      var last := ts[|ts| - 1];
      assert ts == ts[..|ts| - 1] + [last];
      ProjectedColumns(ts[..|ts| - 1]) + (if IsProjected(last) then [last] else [])
  }

  lemma {:induction false} ProjectedColumnsConcat(a: seq<string>, b: seq<string>)
    ensures ProjectedColumns(a + b) == ProjectedColumns(a) + ProjectedColumns(b)
    decreases |b|
  {
    if b == [] {
      assert a + b == a;
    } else {
      var b' := b[..|b| - 1];
      assert (a + b)[..|a + b| - 1] == a + b';
      ProjectedColumnsConcat(a, b');
    }
  }

  /** What `convert_select_tokens` returns or raises: the projected columns
      before the first `from` and the token after it, or every projected
      column and no table when there is no `from`. */
  function SelectTokens(ts: seq<string>): (r: Result<(seq<string>, Option<string>), QueryError>)
    ensures r.Failure? <==> "from" in ts && ts[|ts| - 1] == "from" && "from" !in ts[..|ts| - 1]
    ensures r.Failure? ==> r.error == MissingTableAfterFrom
    ensures r.Success? ==> (r.value.1.None? <==> "from" !in ts)
    ensures r.Success? ==> "from" !in r.value.0
    ensures r.Success? ==> forall c :: c in r.value.0 ==> c in ts && IsProjected(c)
  {
    match IndexOf(ts, "from")
    case None => Success((ProjectedColumns(ts), None))
    case Some(f) =>
      if f + 1 < |ts| then Success((ProjectedColumns(ts[..f]), Some(ts[f + 1])))
      else Failure(MissingTableAfterFrom)
  }

  /** `convert_select_tokens`: a cursor walks the tokens, appending every
      column token until `from`, then reads the table name and stops. */
  method ConvertSelectTokens(ts: seq<string>) returns (r: Result<(seq<string>, Option<string>), QueryError>)
    ensures r == SelectTokens(ts)
  {
    var columns: seq<string> := [];
    var cursor := 0;
    while cursor < |ts|
      invariant cursor <= |ts|
      invariant "from" !in ts[..cursor]
      invariant columns == ProjectedColumns(ts[..cursor])
    {
      var token := ts[cursor];
      if token == "from" {
        IndexOfFirst(ts, "from", cursor);
        cursor := cursor + 1;
        if cursor >= |ts| {
          return Failure(MissingTableAfterFrom);
        }
        return Success((columns, Some(ts[cursor])));
      }
      assert ts[..cursor + 1] == ts[..cursor] + [token];
      if IsProjected(token) {
        columns := columns + [token];
      }
      cursor := cursor + 1;
    }
    assert ts[..cursor] == ts;
    r := Success((columns, None));
  }

  /** `convert_tokens_to_query`: only the tokens before the first clause
      keyword are read; WHERE, ORDER BY and LIMIT keep their defaults. */
  function ConvertTokensToQuery(tokens: seq<string>): (r: Result<Query, QueryError>)
    ensures r.Success? ==> r.value.where == DefaultWhere && r.value.orderBy == [] && r.value.limit == None
    ensures var head := tokens[..ClauseStart(tokens)];
            && ("from" !in head ==> r == Success(Query(ProjectedColumns(head), None, DefaultWhere, [], None)))
            && (forall f :: 0 <= f < |head| && head[f] == "from" && "from" !in head[..f] ==>
                  if f + 1 < |head| then r.Success? && r.value.select == ProjectedColumns(head[..f])
                                         && r.value.fromTable == Some(head[f + 1])
                  else r == Failure(MissingTableAfterFrom))
  {
    var head := tokens[..ClauseStart(tokens)];
    match SelectTokens(head)
    case Failure(e) => Failure(e)
    case Success((columns, table)) => Success(Query(columns, table, DefaultWhere, [], None))
  }

  /** Everything from the first clause keyword on is ignored. */
  lemma DecodeIgnoresClauses(p: seq<string>, k: string, rest: seq<string>)
    requires forall i :: 0 <= i < |p| ==> p[i] !in ClauseKeywords
    requires k in ClauseKeywords
    ensures ConvertTokensToQuery(p + [k] + rest) == ConvertTokensToQuery(p)
  {
    var ts := p + [k] + rest;
    assert ts[|p|] == k;
    forall i | 0 <= i < |p| ensures ts[i] !in ClauseKeywords {
      assert ts[i] == p[i];
    }
    ClauseStartAt(ts, |p|);
    ClauseStartAt(p, |p|);
    assert ts[..|p|] == p;
    assert p[..|p|] == p;
  }

  /** The token list a tokenizer makes of a comma-separated select list. */
  function CommaSeparated(cols: seq<string>): seq<string>
    decreases |cols|
  {
    if |cols| <= 1 then cols else [cols[0], ","] + CommaSeparated(cols[1..])
  }

  lemma {:induction false} CommaSeparatedTokens(cols: seq<string>)
    ensures forall x :: x in CommaSeparated(cols) ==> x in cols || x == ","
    decreases |cols|
  {
    if |cols| > 1 {
      CommaSeparatedTokens(cols[1..]);
      assert forall x :: x in cols[1..] ==> x in cols;
    }
  }

  lemma ProjectedColumnsOfColumn(c: string)
    requires IsProjected(c)
    ensures ProjectedColumns([c, ","]) == [c]
  {
    assert [c, ","][..1] == [c];
    assert [c][..0] == [];
    assert ProjectedColumns([c]) == [c];
  }

  /** The decoder's column filter gives back the columns of a comma-separated list. */
  lemma {:induction false} CommaSeparatedColumns(cols: seq<string>)
    requires forall i :: 0 <= i < |cols| ==> IsProjected(cols[i])
    ensures ProjectedColumns(CommaSeparated(cols)) == cols
    decreases |cols|
  {
    if |cols| > 1 {
      var rest := cols[1..];
      CommaSeparatedColumns(rest);
      assert CommaSeparated(cols) == [cols[0], ","] + CommaSeparated(rest);
      ProjectedColumnsConcat([cols[0], ","], CommaSeparated(rest));
      ProjectedColumnsOfColumn(cols[0]);
      assert [cols[0]] + rest == cols;
    } else if |cols| == 1 {
      assert cols[..0] == [];
    }
  }

  /** A column name the decoder can read back: not a keyword or a comma. */
  predicate PlainName(t: string) {
    IsProjected(t) && t != "from" && t !in ClauseKeywords
  }

  lemma SelectListTokensPlain(cols: seq<string>)
    requires forall i :: 0 <= i < |cols| ==> PlainName(cols[i])
    ensures forall i :: 0 <= i < |CommaSeparated(cols)| ==>
              CommaSeparated(cols)[i] != "from" && CommaSeparated(cols)[i] !in ClauseKeywords
  {
    var list := CommaSeparated(cols);
    CommaSeparatedTokens(cols);
    forall i | 0 <= i < |list| ensures list[i] != "from" && list[i] !in ClauseKeywords {
      assert list[i] in list;
      if list[i] != "," {
        assert list[i] in cols;
      }
    }
  }

  lemma SelectListHasNoKeyword(cols: seq<string>, table: string)
    requires forall i :: 0 <= i < |cols| ==> PlainName(cols[i])
    requires table !in ClauseKeywords
    ensures var head := ["select"] + CommaSeparated(cols) + ["from", table];
            (forall i :: 0 <= i < |head| ==> head[i] !in ClauseKeywords) && "from" !in ["select"] + CommaSeparated(cols)
  {
    var list := CommaSeparated(cols);
    SelectListTokensPlain(cols);
    var front := ["select"] + list;
    var head := front + ["from", table];
    forall i | 0 <= i < |front| ensures front[i] != "from" && front[i] !in ClauseKeywords {
      if i > 0 {
        assert front[i] == list[i - 1];
      }
    }
    forall i | 0 <= i < |head| ensures head[i] !in ClauseKeywords {
      if i < |front| {
        assert head[i] == front[i];
      }
    }
  }

  /** The first `from` ends the select list and the token after it is the table. */
  lemma SelectTokensAtFrom(front: seq<string>, table: string)
    requires "from" !in front
    ensures SelectTokens(front + ["from", table]) == Success((ProjectedColumns(front), Some(table)))
  {
    var head := front + ["from", table];
    assert head[|front|] == "from" && head[|front| + 1] == table;
    assert head[..|front|] == front;
    IndexOfFirst(head, "from", |front|);
  }

  lemma ProjectedColumnsAfterSelect(list: seq<string>)
    ensures ProjectedColumns(["select"] + list) == ProjectedColumns(list)
  {
    ProjectedColumnsConcat(["select"], list);
    assert ProjectedColumns(["select"]) == ProjectedColumns([]) + [];
  }

  /** `convert_select_tokens` reads back a comma-separated select list and the table after `from`. */
  lemma SelectTokensOfSelectList(cols: seq<string>, table: string)
    requires forall i :: 0 <= i < |cols| ==> PlainName(cols[i])
    requires table !in ClauseKeywords
    ensures SelectTokens(["select"] + CommaSeparated(cols) + ["from", table]) == Success((cols, Some(table)))
  {
    SelectListHasNoKeyword(cols, table);
    var front := ["select"] + CommaSeparated(cols);
    SelectTokensAtFrom(front, table);
    CommaSeparatedColumns(cols);
    ProjectedColumnsAfterSelect(CommaSeparated(cols));
  }

  /** Decoding the tokens of `select c1 , c2 from t` followed by any clause
      gives back the columns and the table. */
  lemma DecodeSelectFrom(cols: seq<string>, table: string, rest: seq<string>)
    requires forall i :: 0 <= i < |cols| ==> PlainName(cols[i])
    requires table !in ClauseKeywords
    requires rest == [] || rest[0] in ClauseKeywords
    ensures ConvertTokensToQuery(["select"] + CommaSeparated(cols) + ["from", table] + rest)
            == Success(Query(cols, Some(table), DefaultWhere, [], None))
  {
    var head := ["select"] + CommaSeparated(cols) + ["from", table];
    SelectListHasNoKeyword(cols, table);
    SelectTokensOfSelectList(cols, table);
    ClauseStartOfHead(head, rest);
  }

  /** The select part of a token list ends at the first clause keyword. */
  lemma ClauseStartOfHead(head: seq<string>, rest: seq<string>)
    requires forall i :: 0 <= i < |head| ==> head[i] !in ClauseKeywords
    requires rest == [] || rest[0] in ClauseKeywords
    ensures ClauseStart(head + rest) == |head|
    ensures (head + rest)[..|head|] == head
  {
    var ts := head + rest;
    if rest != [] {
      assert ts[|head|] == rest[0];
    }
    forall i | 0 <= i < |head| ensures ts[i] !in ClauseKeywords {
      assert ts[i] == head[i];
    }
    ClauseStartAt(ts, |head|);
    assert ts[..|head|] == head;
  }

  /** `select a , b from t where x = 1` decodes to the projection `a, b` of
      table `t`; the `where` tokens are not read back. */
  lemma DecodeExample()
    ensures ConvertTokensToQuery(["select", "a", ",", "b", "from", "t", "where", "x", "=", "1"])
            == Success(Query(["a", "b"], Some("t"), DefaultWhere, [], None))
  {
    assert CommaSeparated(["a", "b"]) == ["a", ","] + CommaSeparated(["b"]);
    assert ["select", "a", ",", "b", "from", "t", "where", "x", "=", "1"]
           == ["select"] + CommaSeparated(["a", "b"]) + ["from", "t"] + ["where", "x", "=", "1"];
    DecodeSelectFrom(["a", "b"], "t", ["where", "x", "=", "1"]);
  }
}
