/** The earlier query representation of `src/sql_schema.py`: a `Query`
    without a limit and a free `generate_sql` that never raises. A missing
    table only drops the FROM clause, and the text has no closing `;`. */
module SqlSchema {
  import opened Wrappers
  import opened Text
  import opened SqlClauses
  import SqlDataclass

  /** `Query` of the earlier version; `fromTable` is `""` when unset. */
  datatype Query = Query(
    select: seq<string>,
    fromTable: string,
    where: Where,
    orderBy: seq<OrderBy>)

  /** `" FROM table"` when the table is truthy, nothing otherwise. */
  function FromClause(table: string): (r: string)
    ensures r == "" <==> table == ""
    ensures table != "" ==> StartsWith(r, " FROM ") && r[6..] == table
  {
    if table != "" then " FROM " + table else ""
  }

  /** What `generate_sql` returns: SELECT, then the optional FROM, WHERE and
      ORDER BY clauses, with no terminator. */
  function Render(q: Query): (r: string)
    ensures StartsWith(r, SelectClause(q.select))
    ensures q.fromTable != "" ==> StartsWith(r, SelectClause(q.select) + (" FROM " + q.fromTable))
    ensures |r| == |SelectClause(q.select)| + |FromClause(q.fromTable)| + |WhereClause(q.where)| + |OrderByClause(q.orderBy)|
  {
    var head := SelectClause(q.select) + FromClause(q.fromTable);
    var r := head + WhereClause(q.where) + OrderByClause(q.orderBy);
    assert r[..|head|] == head;
    assert head[..|SelectClause(q.select)|] == SelectClause(q.select);
    r
  }

  /** `generate_sql`: the text is accumulated clause by clause. */
  method GenerateSql(q: Query) returns (s: string)
    ensures s == Render(q)
  {
    s := "";
    if q.select != [] {
      s := s + ("SELECT " + Join(", ", q.select));
    } else {
      s := s + "SELECT *";
    }
    assert s == SelectClause(q.select);
    ghost var w := s;
    if q.fromTable != "" {
      s := s + (" FROM " + q.fromTable);
    }
    assert s == w + FromClause(q.fromTable);
    w := s;
    var conds := ConditionTexts(q.where.predicates);
    if conds != [] {
      s := s + (" WHERE " + (" " + Keyword(q.where.boolOperator) + Join(" ", conds)));
    }
    assert s == w + WhereClause(q.where);
    w := s;
    if q.orderBy != [] {
      var items := OrderByTexts(q.orderBy);
      if items != [] {
        s := s + (" ORDER BY " + Join(", ", items));
      }
    }
    assert s == w + OrderByClause(q.orderBy);
  }

  /** The earlier query a later one corresponds to: the limit is dropped and
      a missing table becomes the empty string. */
  function FromLater(q: SqlDataclass.Query): (r: Query)
    ensures r.select == q.select && r.where == q.where && r.orderBy == q.orderBy
    ensures r.fromTable != "" <==> SqlDataclass.HasTable(q)
  {
    Query(q.select, if q.fromTable.Some? then q.fromTable.value else "", q.where, q.orderBy)
  }

  /** The later renderer differs from the earlier one only by the LIMIT
      clause and the closing `;` when the query names a table; without a
      table the later one raises where the earlier one leaves out FROM. */
  lemma LaterRenderExtends(q: SqlDataclass.Query)
    ensures SqlDataclass.HasTable(q) ==>
              SqlDataclass.Render(q) == Success(Render(FromLater(q)) + SqlDataclass.LimitClause(q.limit) + ";")
    ensures !SqlDataclass.HasTable(q) ==>
              && SqlDataclass.Render(q) == Failure(SqlDataclass.MissingFromTable)
              && Render(FromLater(q)) == SelectClause(q.select) + WhereClause(q.where) + OrderByClause(q.orderBy)
  {
    var earlier := FromLater(q);
    if SqlDataclass.HasTable(q) {
      SqlDataclass.RenderClauses(q);
      assert FromClause(earlier.fromTable) == " FROM " + q.fromTable.value;
    } else {
      assert SelectClause(q.select) + FromClause(earlier.fromTable) == SelectClause(q.select);
    }
  }
}
