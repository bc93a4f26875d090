/** Memory queries: the in-memory meaning, and the SQL condition that must select the same rows. */
module MemoryQuery {
  import opened Decimals
  import opened Wrappers

  datatype Query = Query(scope: Option<string>, traceId: Option<string>, agentId: Option<string>, kind: Option<string>,
                         capability: Option<string>, since: Option<string>, until: Option<string>)

  /** A stored row; `None` is NULL. */
  datatype Row = Row(scope: string, traceId: string, agentId: string, kind: string, capability: Option<string>,
                     createdAt: string)

  /** The entry a row stands for; an absent field is `None`. */
  datatype Entry = Entry(scope: string, traceId: string, agentId: string, kind: string, capability: Option<string>,
                         createdAt: string)

  function RowToMemoryEntry(r: Row): Entry {
    Entry(r.scope, r.traceId, r.agentId, r.kind, r.capability, r.createdAt)
  }

  /** Strings compared by code unit, as both sides do. */
  predicate LessOrEqual(a: string, b: string) {
    a == [] || (b != [] && (a[0] < b[0] || (a[0] == b[0] && LessOrEqual(a[1..], b[1..]))))
  }

  predicate Less(a: string, b: string) {
    a != b && LessOrEqual(a, b)
  }

  lemma {:induction false} OrderIsTotal(a: string, b: string)
    ensures Less(a, b) <==> !LessOrEqual(b, a)
  {
    if a == [] || b == [] || a[0] != b[0] {
    } else {
      OrderIsTotal(a[1..], b[1..]);
      assert a == [a[0]] + a[1..] && b == [b[0]] + b[1..];
    }
  }

  /** `a` comes first: it is a prefix of `b`, or has the smaller code unit where they first differ. */
  ghost predicate ComesFirst(a: string, b: string) {
    a <= b || exists k :: DifferAt(a, b, k) && a[k] < b[k]
  }

  ghost predicate DifferAt(a: string, b: string, k: int) {
    0 <= k < |a| && k < |b| && a[..k] == b[..k] && a[k] != b[k]
  }

  lemma {:induction false} OrderIsLexicographic(a: string, b: string)
    ensures LessOrEqual(a, b) <==> ComesFirst(a, b)
  {
    if a == [] {
    } else if b == [] {
      assert forall k :: !DifferAt(a, b, k);
    } else if a[0] != b[0] {
      assert DifferAt(a, b, 0);
      forall k: nat | 0 < k < |a| && k < |b| ensures a[..k] != b[..k] {
        assert a[..k][0] == a[0] && b[..k][0] == b[0];
      }
    } else {
      var x, y := a[1..], b[1..];
      OrderIsLexicographic(x, y);
      assert a == [a[0]] + x && b == [b[0]] + y;
      SameHead(a[0], x, y);
    }
  }

  lemma SameHead(c: char, x: string, y: string)
    ensures ComesFirst([c] + x, [c] + y) <==> ComesFirst(x, y)
  {
    var a, b := [c] + x, [c] + y;
    assert a[1..] == x && b[1..] == y;
    assert a <= b <==> x <= y;
    if k: nat :| DifferAt(a, b, k) && a[k] < b[k] {
      HeadDiffers(c, x, y, k);
      assert DifferAt(x, y, k - 1) && x[k - 1] < y[k - 1];
    }
    if k: nat :| DifferAt(x, y, k) && x[k] < y[k] {
      HeadDiffers(c, x, y, k + 1);
      assert DifferAt(a, b, k + 1) && a[k + 1] < b[k + 1];
    }
  }

  lemma HeadDiffers(c: char, x: string, y: string, k: nat)
    ensures DifferAt([c] + x, [c] + y, k) <==> k > 0 && DifferAt(x, y, k - 1)
  {
    var a, b := [c] + x, [c] + y;
    if 0 < k <= |x| && k <= |y| {
      assert a[..k] == [c] + x[..k - 1] && b[..k] == [c] + y[..k - 1];
      assert a[..k] == b[..k] <==> x[..k - 1] == y[..k - 1] by {
        assert a[..k][1..] == x[..k - 1] && b[..k][1..] == y[..k - 1];
      }
    }
  }

  /** What a query asks of a row: the given columns as given, and a time not before `since` and not after `until`. */
  lemma QueryMeans(q: Query, row: Row)
    ensures MatchesQuery(RowToMemoryEntry(row), q) <==>
              (q.scope.None? || q.scope.value == row.scope) && (q.traceId.None? || q.traceId.value == row.traceId) &&
              (q.agentId.None? || q.agentId.value == row.agentId) && (q.kind.None? || q.kind.value == row.kind) &&
              (q.capability.None? || q.capability == row.capability) &&
              (q.since.None? || ComesFirst(q.since.value, row.createdAt)) &&
              (q.until.None? || ComesFirst(row.createdAt, q.until.value))
  {
    if q.since.Some? {
      OrderIsLexicographic(q.since.value, row.createdAt);
      OrderIsTotal(row.createdAt, q.since.value);
    }
    if q.until.Some? {
      OrderIsLexicographic(row.createdAt, q.until.value);
      OrderIsTotal(q.until.value, row.createdAt);
    }
  }

  /** The in-memory meaning of a query. */
  predicate MatchesQuery(e: Entry, q: Query) {
    !(q.scope.Some? && e.scope != q.scope.value) &&
    !(q.traceId.Some? && e.traceId != q.traceId.value) &&
    !(q.agentId.Some? && e.agentId != q.agentId.value) &&
    !(q.kind.Some? && e.kind != q.kind.value) &&
    !(q.capability.Some? && e.capability != q.capability) &&
    !(q.since.Some? && Less(e.createdAt, q.since.value)) &&
    !(q.until.Some? && Less(q.until.value, e.createdAt))
  }

  // ----- SQL text -----

  /** One condition: a column, an operator, and the value to be bound. */
  datatype Condition = Condition(column: string, operator: string, value: string)

  function Join(parts: seq<string>, separator: string): string {
    if parts == [] then [] else if |parts| == 1 then parts[0] else parts[0] + separator + Join(parts[1..], separator)
  }

  /** The text of a WHERE clause and its parameters. */
  datatype Where = Where(sql: string, params: seq<string>)

  function Optional(column: string, operator: string, value: Option<string>): seq<Condition> {
    if value.Some? then [Condition(column, operator, value.value)] else []
  }

  /** The conditions of a query, in the fixed column order. */
  function Conditions(q: Query): seq<Condition> {
    Optional("scope", "=", q.scope) + Optional("trace_id", "=", q.traceId) + Optional("agent_id", "=", q.agentId) +
    Optional("kind", "=", q.kind) + Optional("capability", "=", q.capability) +
    Optional("created_at", ">=", q.since) + Optional("created_at", "<=", q.until)
  }

  /** The two placeholder styles: numbered, or positional. */
  function Placeholder(positional: bool, n: nat): string {
    if positional then "?" else "$" + Decimal(n)
  }

  function Clause(c: Condition, positional: bool, n: nat): string {
    c.column + (" " + (c.operator + (" " + Placeholder(positional, n))))
  }

  function ClausesOf(conditions: seq<Condition>): seq<string> {
    seq(|conditions|, i requires 0 <= i < |conditions| => Clause(conditions[i], false, i + 1))
  }

  function ParamsOf(conditions: seq<Condition>): seq<string> {
    seq(|conditions|, i requires 0 <= i < |conditions| => conditions[i].value)
  }

  function WhereText(clauses: seq<string>): string {
    if clauses == [] then "" else "WHERE " + Join(clauses, " AND ")
  }

  /** Push one optional filter: first the parameter, then the clause that numbers it. */
  method PushFilter(clauses0: seq<string>, params0: seq<string>, column: string, operator: string,
                    value: Option<string>, ghost done: seq<Condition>)
    returns (clauses: seq<string>, params: seq<string>)
    requires clauses0 == ClausesOf(done) && params0 == ParamsOf(done)
    ensures clauses == ClausesOf(done + Optional(column, operator, value))
    ensures params == ParamsOf(done + Optional(column, operator, value))
  {
    clauses, params := clauses0, params0;
    if value.Some? {
      params := params + [value.value];
      clauses := clauses + [Clause(Condition(column, operator, value.value), false, |params|)];
    } else {
      assert done + Optional(column, operator, value) == done;
    }
  }

  method BuildWhereClause(q: Query) returns (w: Where)
    ensures w == Where(WhereText(ClausesOf(Conditions(q))), ParamsOf(Conditions(q)))
    ensures forall row :: Keeps(w.sql, w.params, row) <==> MatchesQuery(RowToMemoryEntry(row), q)
    ensures forall row :: Keeps(ToSqlitePlaceholders(w.sql), w.params, row) <==> MatchesQuery(RowToMemoryEntry(row), q)
  {
    var clauses: seq<string>, params: seq<string> := [], [];
    clauses, params := PushFilter(clauses, params, "scope", "=", q.scope, []);
    ghost var done := Optional("scope", "=", q.scope);
    assert [] + done == done;
    clauses, params := PushFilter(clauses, params, "trace_id", "=", q.traceId, done);
    done := done + Optional("trace_id", "=", q.traceId);
    clauses, params := PushFilter(clauses, params, "agent_id", "=", q.agentId, done);
    done := done + Optional("agent_id", "=", q.agentId);
    clauses, params := PushFilter(clauses, params, "kind", "=", q.kind, done);
    done := done + Optional("kind", "=", q.kind);
    clauses, params := PushFilter(clauses, params, "capability", "=", q.capability, done);
    done := done + Optional("capability", "=", q.capability);
    clauses, params := PushFilter(clauses, params, "created_at", ">=", q.since, done);
    done := done + Optional("created_at", ">=", q.since);
    clauses, params := PushFilter(clauses, params, "created_at", "<=", q.until, done);
    done := done + Optional("created_at", "<=", q.until);
    w := Where(WhereText(clauses), params);
    forall row {
      CompiledQueryMeansQuery(q, row);
    }
  }

  /** The rest of a string after its leading digits. */
  function AfterDigits(s: string): (r: string)
    ensures |r| <= |s|
  {
    if s != [] && IsDigit(s[0]) then AfterDigits(s[1..]) else s
  }

  /** Replace every `$` followed by digits with `?`. */
  function ToSqlitePlaceholders(sql: string): string
    decreases |sql|
  {
    if sql == [] then []
    else if sql[0] == '$' && |sql| > 1 && IsDigit(sql[1]) then "?" + ToSqlitePlaceholders(AfterDigits(sql[1..]))
    else [sql[0]] + ToSqlitePlaceholders(sql[1..])
  }

  // ----- What SQL makes of the text -----

  datatype Truth = True | False | Unknown

  function And(a: Truth, b: Truth): Truth {
    if a.False? || b.False? then False else if a.Unknown? || b.Unknown? then Unknown else True
  }

  function FromBool(b: bool): Truth {
    if b then True else False
  }

  /** The words of a text, separated by single spaces; `word` is the one being read. */
  function Words(text: string, word: string): (r: seq<string>)
    ensures r != []
  {
    if text == [] then [word]
    else if text[0] == ' ' then [word] + Words(text[1..], [])
    else Words(text[1..], word + [text[0]])
  }

  /** The value of a column, with NULL as `None`; no value for an unknown column. */
  function ColumnValue(row: Row, column: string): Option<Option<string>> {
    if column == "scope" then Some(Some(row.scope))
    else if column == "trace_id" then Some(Some(row.traceId))
    else if column == "agent_id" then Some(Some(row.agentId))
    else if column == "kind" then Some(Some(row.kind))
    else if column == "capability" then Some(row.capability)
    else if column == "created_at" then Some(Some(row.createdAt))
    else None
  }

  /** A comparison with NULL is unknown. */
  function Compare(operator: string, left: Option<string>, right: string): Option<Truth> {
    if left.None? then Some(Unknown)
    else if operator == "=" then Some(FromBool(left.value == right))
    else if operator == ">=" then Some(FromBool(LessOrEqual(right, left.value)))
    else if operator == "<=" then Some(FromBool(LessOrEqual(left.value, right)))
    else None
  }

  /** The parameter a placeholder stands for: by its number, or by its position among the placeholders. */
  function BoundTo(word: string, params: seq<string>, position: nat): Option<string> {
    if word == "?" then (if position < |params| then Some(params[position]) else None)
    else if word != [] && word[0] == '$' then
      match ParseDecimal(word[1..])
      case None => None
      case Some(n) => if 1 <= n <= |params| then Some(params[n - 1]) else None
    else None
  }

  /** The truth of `column operator placeholder AND ...`, or nothing when the words are not of that shape. */
  function Evaluate(words: seq<string>, params: seq<string>, position: nat, row: Row): Option<Truth> {
    if |words| < 3 then None else
      var value, bound := ColumnValue(row, words[0]), BoundTo(words[2], params, position);
      if value.None? || bound.None? then None else
        var first := Compare(words[1], value.value, bound.value);
        if |words| == 3 || first.None? then first
        else if words[3] != "AND" then None
        else
          match Evaluate(words[4..], params, position + 1, row)
          case None => None
          case Some(rest) => Some(And(first.value, rest))
  }

  /** A row is kept when the condition is true, not false and not unknown; no text is no condition. */
  predicate Keeps(sql: string, params: seq<string>, row: Row) {
    sql == "" ||
    var words := Words(sql, []);
    words[0] == "WHERE" && Evaluate(words[1..], params, 0, row) == Some(True)
  }

  // ----- Reading the text back -----

  ghost predicate NoSpace(w: string) {
    forall c :: c in w ==> c != ' '
  }

  ghost predicate NoDollar(w: string) {
    forall c :: c in w ==> c != '$'
  }

  /** A condition the evaluator understands. */
  predicate Understood(c: Condition) {
    c.column in {"scope", "trace_id", "agent_id", "kind", "capability", "created_at"} && c.operator in {"=", ">=", "<="}
  }

  ghost predicate AllUnderstood(conditions: seq<Condition>) {
    forall c :: c in conditions ==> Understood(c)
  }

  lemma UnderstoodWords(c: Condition)
    requires Understood(c)
    ensures NoSpace(c.column) && NoSpace(c.operator) && NoDollar(c.column) && NoDollar(c.operator)
  {
  }

  /** The clauses from number `i` on, joined, in either placeholder style. */
  function Text(conditions: seq<Condition>, positional: bool, i: nat): string
    requires i < |conditions|
    decreases |conditions| - i, 0
  {
    Clause(conditions[i], positional, i + 1) + More(conditions, positional, i + 1)
  }

  /** What follows the clauses before number `i`. */
  function More(conditions: seq<Condition>, positional: bool, i: nat): string
    requires i <= |conditions|
    decreases |conditions| - i, 1
  {
    if i == |conditions| then "" else " AND " + Text(conditions, positional, i)
  }

  function WordList(conditions: seq<Condition>, positional: bool, i: nat): seq<string>
    requires i < |conditions|
    decreases |conditions| - i
  {
    var c, hole := conditions[i], Placeholder(positional, i + 1);
    if i + 1 == |conditions| then [c.column, c.operator, hole]
    else [c.column, c.operator, hole, "AND"] + WordList(conditions, positional, i + 1)
  }

  lemma {:induction false} JoinedClauses(conditions: seq<Condition>, i: nat)
    requires i < |conditions|
    ensures Join(ClausesOf(conditions)[i..], " AND ") == Text(conditions, false, i)
    decreases |conditions| - i
  {
    var rest := ClausesOf(conditions)[i..];
    assert rest[0] == Clause(conditions[i], false, i + 1) && rest[1..] == ClausesOf(conditions)[i + 1..];
    if i + 1 < |conditions| {
      JoinedClauses(conditions, i + 1);
      var tail := Text(conditions, false, i + 1);
      assert rest[0] + " AND " + tail == rest[0] + (" AND " + tail);
    } else {
      assert rest[0] + "" == rest[0];
    }
  }

  /** Reading a word that is followed by `rest`. */
  lemma {:induction false} ReadWord(w: string, rest: string, word: string)
    requires NoSpace(w)
    ensures Words(w + rest, word) == Words(rest, word + w)
  {
    if w == [] {
      assert w + rest == rest && word + w == word;
    } else {
      assert (w + rest)[0] == w[0] && (w + rest)[1..] == w[1..] + rest;
      assert w[0] in w && forall c :: c in w[1..] ==> c in w;
      ReadWord(w[1..], rest, word + [w[0]]);
      assert word + [w[0]] + w[1..] == word + w;
    }
  }

  /** Reading a word and the space after it. */
  lemma ReadWordSpace(w: string, rest: string)
    requires NoSpace(w)
    ensures Words(w + (" " + rest), []) == [w] + Words(rest, [])
  {
    ReadWord(w, " " + rest, []);
    assert [] + w == w && (" " + rest)[1..] == rest;
  }

  lemma ReadLastWord(w: string)
    requires NoSpace(w)
    ensures Words(w, []) == [w]
  {
    ReadWord(w, "", []);
    assert w + "" == w && [] + w == w;
  }

  lemma ReadClause(c: Condition, positional: bool, n: nat, more: string)
    requires Understood(c)
    ensures Words(Clause(c, positional, n) + more, []) ==
            [c.column, c.operator] + Words(Placeholder(positional, n) + more, [])
  {
    UnderstoodWords(c);
    var hole := Placeholder(positional, n);
    assert Clause(c, positional, n) + more == c.column + (" " + (c.operator + (" " + (hole + more))));
    ReadWordSpace(c.column, c.operator + (" " + (hole + more)));
    ReadWordSpace(c.operator, hole + more);
  }

  lemma ReadJoined(hole: string, tail: string)
    requires NoSpace(hole)
    ensures Words(hole + (" AND " + tail), []) == [hole, "AND"] + Words(tail, [])
  {
    var rest := "AND" + (" " + tail);
    assert " AND " + tail == " " + rest;
    ReadWordSpace(hole, rest);
    ReadWordSpace("AND", tail);
  }

  lemma PlaceholderWord(positional: bool, n: nat)
    ensures NoSpace(Placeholder(positional, n))
  {
    ParseOfDecimal(n);
  }

  /** Splitting the text at its spaces gives back the words of its conditions. */
  lemma {:induction false} WordsOfText(conditions: seq<Condition>, positional: bool, i: nat)
    requires i < |conditions| && AllUnderstood(conditions)
    ensures Words(Text(conditions, positional, i), []) == WordList(conditions, positional, i)
    decreases |conditions| - i
  {
    var hole := Placeholder(positional, i + 1);
    PlaceholderWord(positional, i + 1);
    assert conditions[i] in conditions;
    ReadClause(conditions[i], positional, i + 1, More(conditions, positional, i + 1));
    if i + 1 == |conditions| {
      assert hole + "" == hole;
      ReadLastWord(hole);
    } else {
      ReadJoined(hole, Text(conditions, positional, i + 1));
      WordsOfText(conditions, positional, i + 1);
    }
  }

  /** The truth of one condition on a row. */
  function TruthOf(c: Condition, row: Row): Truth
    requires Understood(c)
  {
    Compare(c.operator, ColumnValue(row, c.column).value, c.value).value
  }

  ghost predicate AllTrueFrom(conditions: seq<Condition>, i: nat, row: Row)
    requires AllUnderstood(conditions)
  {
    forall j :: i <= j < |conditions| ==> TruthOf(conditions[j], row) == True
  }

  /** Either style binds the placeholder of condition `i` to parameter `i`. */
  lemma PlaceholderIsBound(positional: bool, i: nat, params: seq<string>)
    requires i < |params|
    ensures BoundTo(Placeholder(positional, i + 1), params, i) == Some(params[i])
  {
    ParseOfDecimal(i + 1);
    var numbered := "$" + Decimal(i + 1);
    assert numbered[1..] == Decimal(i + 1) && numbered[0] == '$';
  }

  /** Evaluating one condition and whatever is joined to it. */
  lemma EvaluateOne(c: Condition, hole: string, rest: seq<string>, params: seq<string>, position: nat, row: Row)
    requires Understood(c) && BoundTo(hole, params, position) == Some(c.value)
    ensures Evaluate([c.column, c.operator, hole], params, position, row) == Some(TruthOf(c, row))
    ensures var r := Evaluate(rest, params, position + 1, row);
            r.Some? ==>
              Evaluate([c.column, c.operator, hole, "AND"] + rest, params, position, row) ==
              Some(And(TruthOf(c, row), r.value))
  {
    var words := [c.column, c.operator, hole, "AND"] + rest;
    assert words[0] == c.column && words[1] == c.operator && words[2] == hole && words[3] == "AND" &&
           words[4..] == rest;
  }

  lemma FirstAndRest(conditions: seq<Condition>, i: nat, row: Row)
    requires i < |conditions| && AllUnderstood(conditions)
    ensures Understood(conditions[i])
    ensures AllTrueFrom(conditions, i, row) <==>
            TruthOf(conditions[i], row) == True && AllTrueFrom(conditions, i + 1, row)
  {
    assert conditions[i] in conditions;
  }

  /** The words of the text have a truth value, and it is `True` exactly when every condition is. */
  lemma {:induction false} EvaluateConditions(conditions: seq<Condition>, positional: bool, i: nat, row: Row)
    requires i < |conditions| && AllUnderstood(conditions)
    ensures var r := Evaluate(WordList(conditions, positional, i), ParamsOf(conditions), i, row);
            r.Some? && (r.value == True <==> AllTrueFrom(conditions, i, row))
    decreases |conditions| - i
  {
    var c, hole, params := conditions[i], Placeholder(positional, i + 1), ParamsOf(conditions);
    FirstAndRest(conditions, i, row);
    PlaceholderIsBound(positional, i, params);
    if i + 1 < |conditions| {
      EvaluateConditions(conditions, positional, i + 1, row);
      var rest := WordList(conditions, positional, i + 1);
      EvaluateOne(c, hole, rest, params, i, row);
    } else {
      EvaluateOne(c, hole, [], params, i, row);
    }
  }

  // ----- Rewriting the placeholders -----

  lemma {:induction false} Untouched(w: string, rest: string)
    requires NoDollar(w)
    ensures ToSqlitePlaceholders(w + rest) == w + ToSqlitePlaceholders(rest)
  {
    if w == [] {
      assert w + rest == rest;
    } else {
      assert w[0] in w && forall c :: c in w[1..] ==> c in w;
      assert (w + rest)[0] == w[0] && (w + rest)[1..] == w[1..] + rest;
      Untouched(w[1..], rest);
      assert [w[0]] + (w[1..] + ToSqlitePlaceholders(rest)) == w + ToSqlitePlaceholders(rest);
    }
  }

  lemma {:induction false} SkipDigits(d: string, rest: string)
    requires forall c :: c in d ==> IsDigit(c)
    requires rest == "" || !IsDigit(rest[0])
    ensures AfterDigits(d + rest) == rest
  {
    if d == [] {
      assert d + rest == rest;
    } else {
      assert d[0] in d && forall c :: c in d[1..] ==> c in d;
      assert (d + rest)[0] == d[0] && (d + rest)[1..] == d[1..] + rest;
      SkipDigits(d[1..], rest);
    }
  }

  lemma {:induction false} RewritePlaceholder(n: nat, rest: string)
    requires rest == "" || !IsDigit(rest[0])
    ensures ToSqlitePlaceholders("$" + Decimal(n) + rest) == "?" + ToSqlitePlaceholders(rest)
  {
    var d := Decimal(n);
    ParseOfDecimal(n);
    DecimalNotEmpty(n);
    assert d[0] in d;
    SkipDigits(d, rest);
    var sql := "$" + d + rest;
    assert sql[0] == '$' && sql[1] == d[0] && sql[1..] == d + rest;
  }

  lemma FrontOfClause(c: Condition, positional: bool, n: nat, more: string)
    requires Understood(c)
    ensures var front := c.column + " " + c.operator + " ";
            NoDollar(front) && Clause(c, positional, n) + more == front + (Placeholder(positional, n) + more)
  {
    UnderstoodWords(c);
    var front := c.column + " " + c.operator + " ";
    assert c.column + (" " + (c.operator + (" " + Placeholder(positional, n)))) == front + Placeholder(positional, n);
  }

  lemma RewriteClause(c: Condition, n: nat, more: string)
    requires Understood(c) && (more == "" || !IsDigit(more[0]))
    ensures ToSqlitePlaceholders(Clause(c, false, n) + more) == Clause(c, true, n) + ToSqlitePlaceholders(more)
  {
    var front := c.column + " " + c.operator + " ";
    FrontOfClause(c, false, n, more);
    Untouched(front, "$" + Decimal(n) + more);
    RewritePlaceholder(n, more);
    FrontOfClause(c, true, n, ToSqlitePlaceholders(more));
  }

  /** Rewriting the numbered text gives exactly the positional text. */
  lemma {:induction false} RewrittenText(conditions: seq<Condition>, i: nat)
    requires i < |conditions| && AllUnderstood(conditions)
    ensures ToSqlitePlaceholders(Text(conditions, false, i)) == Text(conditions, true, i)
    decreases |conditions| - i
  {
    assert conditions[i] in conditions;
    RewriteClause(conditions[i], i + 1, More(conditions, false, i + 1));
    if i + 1 == |conditions| {
    } else {
      RewrittenText(conditions, i + 1);
      Untouched(" AND ", Text(conditions, false, i + 1));
    }
  }

  // ----- The query -----

  /** One optional filter is understood, and it is true of a row exactly when the column holds the wanted relation. */
  lemma OptionalFilter(column: string, operator: string, value: Option<string>, row: Row)
    requires Understood(Condition(column, operator, "")) && operator == "="
    ensures AllUnderstood(Optional(column, operator, value))
    ensures AllTrueFrom(Optional(column, operator, value), 0, row) <==>
            value.None? || ColumnValue(row, column).value == value
  {
    assert forall c :: c in Optional(column, operator, value) ==> c == Condition(column, operator, value.value);
    if value.Some? {
      var c := Condition(column, operator, value.value);
      assert Optional(column, operator, value)[0] == c;
      assert TruthOf(c, row) == True <==> ColumnValue(row, column).value == value;
    }
  }

  /** The same for the two bounds on the creation time. */
  lemma OptionalBound(operator: string, value: Option<string>, row: Row)
    requires operator == ">=" || operator == "<="
    ensures AllUnderstood(Optional("created_at", operator, value))
    ensures AllTrueFrom(Optional("created_at", operator, value), 0, row) <==>
            value.None? || (if operator == ">=" then !Less(row.createdAt, value.value)
                            else !Less(value.value, row.createdAt))
  {
    assert forall c :: c in Optional("created_at", operator, value) ==>
           c == Condition("created_at", operator, value.value);
    if value.Some? {
      OrderIsTotal(row.createdAt, value.value);
      OrderIsTotal(value.value, row.createdAt);
      assert Optional("created_at", operator, value)[0] == Condition("created_at", operator, value.value);
    }
  }

  lemma Both(a: seq<Condition>, b: seq<Condition>, row: Row)
    requires AllUnderstood(a) && AllUnderstood(b)
    ensures AllUnderstood(a + b)
    ensures AllTrueFrom(a + b, 0, row) <==> AllTrueFrom(a, 0, row) && AllTrueFrom(b, 0, row)
  {
    if AllTrueFrom(a + b, 0, row) {
      assert forall j :: 0 <= j < |a| ==> a[j] == (a + b)[j];
      assert forall j :: 0 <= j < |b| ==> b[j] == (a + b)[|a| + j];
    }
  }

  /** All conditions of a query are true of a row exactly when the entry of the row matches the query. */
  lemma ConditionsMeanQuery(q: Query, row: Row)
    ensures AllUnderstood(Conditions(q))
    ensures AllTrueFrom(Conditions(q), 0, row) <==> MatchesQuery(RowToMemoryEntry(row), q)
  {
    var all := Optional("scope", "=", q.scope);
    OptionalFilter("scope", "=", q.scope, row);
    OptionalFilter("trace_id", "=", q.traceId, row);
    Both(all, Optional("trace_id", "=", q.traceId), row);
    all := all + Optional("trace_id", "=", q.traceId);
    OptionalFilter("agent_id", "=", q.agentId, row);
    Both(all, Optional("agent_id", "=", q.agentId), row);
    all := all + Optional("agent_id", "=", q.agentId);
    OptionalFilter("kind", "=", q.kind, row);
    Both(all, Optional("kind", "=", q.kind), row);
    all := all + Optional("kind", "=", q.kind);
    OptionalFilter("capability", "=", q.capability, row);
    Both(all, Optional("capability", "=", q.capability), row);
    all := all + Optional("capability", "=", q.capability);
    OptionalBound(">=", q.since, row);
    Both(all, Optional("created_at", ">=", q.since), row);
    all := all + Optional("created_at", ">=", q.since);
    OptionalBound("<=", q.until, row);
    Both(all, Optional("created_at", "<=", q.until), row);
  }

  /** A WHERE clause in either style keeps a row exactly when all its conditions are true. */
  lemma ClauseKeeps(conditions: seq<Condition>, positional: bool, row: Row)
    requires conditions != [] && AllUnderstood(conditions)
    ensures Keeps("WHERE " + Text(conditions, positional, 0), ParamsOf(conditions), row) <==>
            AllTrueFrom(conditions, 0, row)
  {
    var text := Text(conditions, positional, 0);
    assert "WHERE " + text == "WHERE" + (" " + text);
    ReadWordSpace("WHERE", text);
    WordsOfText(conditions, positional, 0);
    EvaluateConditions(conditions, positional, 0, row);
    assert (["WHERE"] + Words(text, []))[1..] == Words(text, []);
  }

  /** The text built for a query, and its rewriting for positional placeholders. */
  lemma BuiltText(q: Query)
    ensures var all := Conditions(q);
            var sql := WhereText(ClausesOf(all));
            if all == [] then sql == "" && ToSqlitePlaceholders(sql) == ""
            else sql == "WHERE " + Text(all, false, 0) && ToSqlitePlaceholders(sql) == "WHERE " + Text(all, true, 0)
  {
    var all := Conditions(q);
    if all != [] {
      JoinedClauses(all, 0);
      assert ClausesOf(all)[0..] == ClausesOf(all);
      ConditionsMeanQuery(q, Row("", "", "", "", None, ""));
      RewrittenText(all, 0);
      Untouched("WHERE ", Text(all, false, 0));
    }
  }

  /**
   The compiled query means the query: under three-valued logic the built text, with its numbered
   parameters or rewritten to positional ones, keeps a row exactly when the entry of the row matches.
   */
  lemma CompiledQueryMeansQuery(q: Query, row: Row)
    ensures var sql, params := WhereText(ClausesOf(Conditions(q))), ParamsOf(Conditions(q));
            && (Keeps(sql, params, row) <==> MatchesQuery(RowToMemoryEntry(row), q))
            && (Keeps(ToSqlitePlaceholders(sql), params, row) <==> MatchesQuery(RowToMemoryEntry(row), q))
  {
    var all := Conditions(q);
    ConditionsMeanQuery(q, row);
    BuiltText(q);
    if all != [] {
      ClauseKeeps(all, false, row);
      ClauseKeeps(all, true, row);
    }
  }
}
