/** The value objects both query modules share (`Operator`, `BoolOperator`,
    `Predicate`, `Where`, `OrderBy`) and the text each clause of a rendered
    query takes. Both renderers build the WHERE conditions and the ORDER BY
    items with the same loop; it is stated once here. */
module SqlClauses {
  import opened Text

  datatype Operator = Equal | NotEqual | GreaterThan | LessThan | GreaterEqual | LessEqual

  /** `Operator.value`. */
  function Symbol(op: Operator): string {
    match op
    case Equal => "="
    case NotEqual => "!="
    case GreaterThan => ">"
    case LessThan => "<"
    case GreaterEqual => ">="
    case LessEqual => "<="
  }

  datatype BoolOperator = And | Or

  /** `BoolOperator.value`. */
  function Keyword(b: BoolOperator): string {
    match b
    case And => "AND"
    case Or => "OR"
  }

  /** The value a predicate compares against: a string or an integer. */
  datatype Value = StrValue(s: string) | IntValue(i: int)

  /** `str(value)` as an f-string interpolates it. */
  function ValueText(v: Value): string {
    match v
    case StrValue(s) => s
    case IntValue(i) => IntToString(i)
  }

  datatype Predicate = Predicate(column: string, operator: Operator, value: Value)

  /** One boolean operator joins every predicate; `Where()` has none and AND. */
  datatype Where = Where(predicates: seq<Predicate>, boolOperator: BoolOperator)

  const DefaultWhere: Where := Where([], And)

  datatype OrderBy = OrderBy(column: string, ascending: bool)

  /** `f"{column} {operator.value} '{value}'"`: the value is always quoted. */
  function Condition(p: Predicate): string {
    p.column + " " + Symbol(p.operator) + " '" + ValueText(p.value) + "'"
  }

  /** A condition reads back field by field when its column has no blank: the
      column is its first word, the operator symbol the next one, and the
      rest is the value between single quotes. */
  lemma ConditionFields(p: Predicate)
    requires forall i :: 0 <= i < |p.column| ==> !IsSpace(p.column[i])
    ensures FirstWord(Condition(p)) == p.column
    ensures FirstWord(Condition(p)[|p.column| + 1..]) == Symbol(p.operator)
    ensures Condition(p)[|p.column| + |Symbol(p.operator)| + 2..] == "'" + ValueText(p.value) + "'"
  {
    var sym := Symbol(p.operator);
    assert forall i :: 0 <= i < |sym| ==> !IsSpace(sym[i]) by {
      match p.operator
      case Equal =>
      case NotEqual =>
      case GreaterThan =>
      case LessThan =>
      case GreaterEqual =>
      case LessEqual =>
    }
    assert Condition(p) == p.column + " " + sym + " " + ("'" + ValueText(p.value) + "'");
    WordsFields(p.column, sym, "'" + ValueText(p.value) + "'");
  }

  /** Two blank-free words and a tail, joined by single blanks, read back. */
  lemma WordsFields(a: string, b: string, v: string)
    requires forall i :: 0 <= i < |a| ==> !IsSpace(a[i])
    requires forall i :: 0 <= i < |b| ==> !IsSpace(b[i])
    ensures FirstWord(a + " " + b + " " + v) == a
    ensures FirstWord((a + " " + b + " " + v)[|a| + 1..]) == b
    ensures (a + " " + b + " " + v)[|a| + |b| + 2..] == v
  {
    var rest := b + " " + v;
    assert a + " " + b + " " + v == a + (" " + rest);
    FirstWordBefore(a, " " + rest);
    assert (a + " " + b + " " + v)[|a| + 1..] == rest;
    assert rest == b + (" " + v);
    FirstWordBefore(b, " " + v);
  }

  function Conditions(ps: seq<Predicate>): seq<string> {
    seq(|ps|, i requires 0 <= i < |ps| => Condition(ps[i]))
  }

  /** `f"{column} {'ASC' if ascending else 'DESC'}"`. */
  function OrderItem(o: OrderBy): string {
    o.column + " " + (if o.ascending then "ASC" else "DESC")
  }

  /** An order item reads back when its column has no blank: the column is
      its first word, and the rest is `ASC` exactly when the order is
      ascending, `DESC` otherwise. */
  lemma OrderItemFields(o: OrderBy)
    requires forall i :: 0 <= i < |o.column| ==> !IsSpace(o.column[i])
    ensures FirstWord(OrderItem(o)) == o.column
    ensures OrderItem(o)[|o.column| + 1..] == "ASC" <==> o.ascending
    ensures OrderItem(o)[|o.column| + 1..] == "DESC" <==> !o.ascending
  {
    var dir := if o.ascending then "ASC" else "DESC";
    assert OrderItem(o) == o.column + (" " + dir);
    FirstWordBefore(o.column, " " + dir);
    assert OrderItem(o)[|o.column| + 1..] == dir;
  }

  function OrderItems(os: seq<OrderBy>): seq<string> {
    seq(|os|, i requires 0 <= i < |os| => OrderItem(os[i]))
  }

  /** The loop that appends one condition text per predicate, in order. */
  method ConditionTexts(ps: seq<Predicate>) returns (conds: seq<string>)
    ensures conds == Conditions(ps)
  {
    conds := [];
    for i := 0 to |ps|
      invariant |conds| == i
      invariant forall j :: 0 <= j < i ==> conds[j] == Condition(ps[j])
    {
      conds := conds + [Condition(ps[i])];
    }
  }

  /** The loop that appends one `column ASC|DESC` item per ORDER BY entry, in order. */
  method OrderByTexts(os: seq<OrderBy>) returns (items: seq<string>)
    ensures items == OrderItems(os)
  {
    items := [];
    for i := 0 to |os|
      invariant |items| == i
      invariant forall j :: 0 <= j < i ==> items[j] == OrderItem(os[j])
    {
      items := items + [OrderItem(os[i])];
    }
  }

  /** `SELECT` followed by the comma-joined columns, or `*` when none are selected. */
  function SelectClause(select: seq<string>): (r: string)
    ensures StartsWith(r, "SELECT ")
    ensures select == [] ==> r == "SELECT *"
    ensures |select| == 1 ==> r == "SELECT " + select[0]
  {
    if select != [] then "SELECT " + Join(", ", select) else "SELECT *"
  }

  /** The WHERE clause exactly as the code builds it:
      `" WHERE " + (" " + op + " ".join(conditions))`, or nothing without predicates. */
  function WhereClause(w: Where): (r: string)
    ensures r == "" <==> w.predicates == []
    ensures w.predicates != [] ==> StartsWith(r, " WHERE  " + Keyword(w.boolOperator))
  {
    if w.predicates != [] then
      assert StartsWith(" WHERE  " + Keyword(w.boolOperator) + Join(" ", Conditions(w.predicates)),
                        " WHERE  " + Keyword(w.boolOperator));
      " WHERE " + (" " + Keyword(w.boolOperator) + Join(" ", Conditions(w.predicates)))
    else ""
  }

  /** `" ORDER BY "` and the comma-joined items, or nothing for an empty list. */
  function OrderByClause(os: seq<OrderBy>): (r: string)
    ensures r == "" <==> os == []
    ensures os != [] ==> StartsWith(r, " ORDER BY " + OrderItem(os[0]))
  {
    if os != [] then
      var items := OrderItems(os);
      assert Join(", ", items) == if |items| == 1 then items[0] else items[0] + ", " + Join(", ", items[1..]);
      " ORDER BY " + Join(", ", items)
    else ""
  }

  /** Each further column adds `, ` and the column after the ones before it. */
  lemma SelectClauseAppend(select: seq<string>, c: string)
    requires select != []
    ensures SelectClause(select + [c]) == SelectClause(select) + ", " + c
  {
    JoinAppend(", ", select, c);
    ConcatAssoc("SELECT ", Join(", ", select) + ", ", c);
    ConcatAssoc("SELECT ", Join(", ", select), ", ");
  }

  /** Each further ORDER BY entry adds `, ` and its item after the ones before it. */
  lemma OrderByClauseAppend(os: seq<OrderBy>, o: OrderBy)
    requires os != []
    ensures OrderByClause(os + [o]) == OrderByClause(os) + ", " + OrderItem(o)
  {
    var items, item := OrderItems(os), OrderItem(o);
    assert OrderItems(os + [o]) == items + [item];
    JoinAppend(", ", items, item);
    ConcatAssoc(" ORDER BY ", Join(", ", items) + ", ", item);
    ConcatAssoc(" ORDER BY ", Join(", ", items), ", ");
  }

  lemma ConditionsAppend(ps: seq<Predicate>, p: Predicate)
    ensures Conditions(ps + [p]) == Conditions(ps) + [Condition(p)]
  {
  }

  /** As written, adding a predicate appends a single space and its condition:
      the boolean operator never appears between two predicates. */
  lemma WhereClauseAppend(ps: seq<Predicate>, p: Predicate, b: BoolOperator)
    requires ps != []
    ensures WhereClause(Where(ps + [p], b)) == WhereClause(Where(ps, b)) + " " + Condition(p)
  {
    var k, j, c := " " + Keyword(b), Join(" ", Conditions(ps)), Condition(p);
    ConditionsAppend(ps, p);
    JoinAppend(" ", Conditions(ps), c);
    ConcatAssoc(j, " ", c);
    ConcatAssoc(k, j, " " + c);
    ConcatAssoc(" WHERE ", k + j, " " + c);
    ConcatAssoc(" WHERE " + (k + j), " ", c);
  }

  /** As written, a single predicate renders as ` WHERE  `, the operator
      keyword and the condition, with no space between the last two. */
  lemma WhereOne(p: Predicate, b: BoolOperator)
    ensures WhereClause(Where([p], b)) == " WHERE  " + Keyword(b) + Condition(p)
  {
    assert Conditions([p]) == [Condition(p)];
  }

  /** The WHERE clause the renderer evidently means to produce: the operator,
      with a space on each side, between consecutive conditions. */
  function WhereClauseIntended(w: Where): (r: string)
    ensures r == "" <==> w.predicates == []
    ensures w.predicates != [] ==> StartsWith(r, " WHERE " + Condition(w.predicates[0]))
  {
    if w.predicates != [] then
      var conds := Conditions(w.predicates);
      var sep := " " + Keyword(w.boolOperator) + " ";
      assert Join(sep, conds) == if |conds| == 1 then conds[0] else conds[0] + sep + Join(sep, conds[1..]);
      " WHERE " + Join(sep, conds)
    else ""
  }

  /** The intended clause: one predicate renders alone, and each further one
      is preceded by the operator with a space on each side. */
  lemma WhereClauseIntendedShape(ps: seq<Predicate>, p: Predicate, b: BoolOperator)
    ensures WhereClauseIntended(Where([p], b)) == " WHERE " + Condition(p)
    ensures ps != [] ==> WhereClauseIntended(Where(ps + [p], b))
                         == WhereClauseIntended(Where(ps, b)) + (" " + Keyword(b) + " ") + Condition(p)
  {
    var sep, c := " " + Keyword(b) + " ", Condition(p);
    assert Conditions([p]) == [c];
    if ps != [] {
      var j := Join(sep, Conditions(ps));
      ConditionsAppend(ps, p);
      JoinAppend(sep, Conditions(ps), c);
      ConcatAssoc(" WHERE ", j + sep, c);
      ConcatAssoc(" WHERE ", j, sep);
    }
  }

  lemma TwoConditions(p: Predicate, q: Predicate)
    ensures Conditions([p, q]) == [Condition(p), Condition(q)]
  {
  }

  /** The code as written glues the operator to the first condition and leaves
      it out between conditions: `a = '1'` and `b = '2'` joined by AND render as
      ` WHERE  ANDa = '1' b = '2'` instead of ` WHERE a = '1' AND b = '2'`. */
  lemma WhereClauseGluesOperator(p: Predicate, q: Predicate, b: BoolOperator)
    requires p.column != "" && p.column[0] != ' '
    ensures WhereClause(Where([p, q], b)) == " WHERE " + (" " + Keyword(b) + (Condition(p) + " " + Condition(q)))
    ensures WhereClauseIntended(Where([p, q], b)) == " WHERE " + (Condition(p) + (" " + Keyword(b) + " ") + Condition(q))
    ensures WhereClause(Where([p, q], b)) != WhereClauseIntended(Where([p, q], b))
  {
    var cp, cq := Condition(p), Condition(q);
    TwoConditions(p, q);
    JoinTwo(" ", cp, cq);
    JoinTwo(" " + Keyword(b) + " ", cp, cq);
    var written := " " + Keyword(b) + (cp + " " + cq);
    var intended := cp + (" " + Keyword(b) + " ") + cq;
    assert (" WHERE " + written)[7] == written[0] == ' ';
    assert intended[0] == cp[0] == p.column[0];
    assert (" WHERE " + intended)[7] == intended[0];
  }
}
