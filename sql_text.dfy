/**
 * The text the statement builder of api/lib/database.php produces: the
 * LHS-bracket filter language, the predicate and assignment fragments the
 * clause methods append, the sections the mount helpers join, and the
 * SELECT / INSERT / UPDATE statements. `esc` stands for mysqli_escape_string
 * on the open connection, which is not modelled.
 */
module SqlText {
  import opened Wrappers
  import opened PhpStrings
  import opened PhpArrays
  import opened ApiErrors
  import opened PhpNumbers

  /* ---------- Joining lists of fragments ---------- */

  /** The items with `sep` between consecutive items (implode). */
  function Join(items: seq<string>, sep: string): string {
    if |items| == 0 then ""
    else if |items| == 1 then items[0]
    else Join(items[..|items| - 1], sep) + sep + items[|items| - 1]
  }

  /** The items, each followed by `sep`. */
  function Terminated(items: seq<string>, sep: string): string {
    if |items| == 0 then "" else Terminated(items[..|items| - 1], sep) + items[|items| - 1] + sep
  }

  /** Writing a separator after every item and dropping the last one gives the joined items. */
  lemma {:induction false} TerminatedIsJoinPlusSep(items: seq<string>, sep: string)
    requires |items| > 0
    ensures Terminated(items, sep) == Join(items, sep) + sep
  {
    if |items| > 1 {
      TerminatedIsJoinPlusSep(items[..|items| - 1], sep);
    }
  }

  /** Position of the last occurrence of `c`. */
  function LastIndexOf(s: string, c: char): (r: Option<nat>)
    ensures r.None? <==> c !in s
    ensures r.Some? ==> r.value < |s| && s[r.value] == c && c !in s[r.value + 1..]
  {
    if s == [] then None
    else if s[|s| - 1] == c then Some(|s| - 1)
    else
      var r := LastIndexOf(s[..|s| - 1], c);
      assert r.Some? ==> s[r.value + 1..] == s[..|s| - 1][r.value + 1..] + [s[|s| - 1]];
      r
  }

  /** explode: the pieces of `s` between occurrences of `c`. */
  function Split(s: string, c: char): (parts: seq<string>)
    ensures |parts| > 0
    decreases |s|
  {
    match LastIndexOf(s, c)
    case None => [s]
    case Some(i) => Split(s[..i], c) + [s[i + 1..]]
  }

  lemma LastIndexAfterSeparator(p: string, c: char, q: string)
    requires c !in q
    ensures LastIndexOf(p + [c] + q, c) == Some(|p|)
  {
    var s := p + [c] + q;
    assert s[|p|] == c;
    assert s[|p| + 1..] == q;
  }

  /** A list joined with a one-character separator that no item contains splits back into the list. */
  lemma {:induction false} SplitJoin(items: seq<string>, c: char)
    requires |items| > 0
    requires forall i :: 0 <= i < |items| ==> c !in items[i]
    ensures Split(Join(items, [c]), c) == items
  {
    if |items| == 1 {
      assert Join(items, [c]) == items[0];
    } else {
      var init, last := items[..|items| - 1], items[|items| - 1];
      var p := Join(init, [c]);
      assert Join(items, [c]) == p + [c] + last;
      LastIndexAfterSeparator(p, c, last);
      assert (p + [c] + last)[..|p|] == p;
      assert (p + [c] + last)[|p| + 1..] == last;
      SplitJoin(init, c);
      assert items == init + [last];
    }
  }

  /* ---------- Clause state ---------- */

  /** Key of an ORDER BY entry: a position appended with `$order[] = …`, or a column name. */
  datatype OrderKey = Position(n: nat) | Column(name: string)

  /** The clause fields of the builder; "" for the from table and the limit means unset. */
  datatype Clauses = Clauses(
    from: string,
    join: seq<string>,
    select: seq<string>,
    where: seq<string>,
    assignments: seq<string>,   // $set
    group: seq<string>,
    order: seq<(OrderKey, string)>,
    limit: string)

  /** The state clearsql leaves behind. */
  const Cleared := Clauses("", [], [], [], [], [], [], "")

  /* ---------- Sections (the mount helpers) ---------- */

  /** mountFields: the selected items separated by ",", or "*" when nothing was selected. */
  function FieldsSection(select: seq<string>): string {
    if |select| == 0 then "*" else Join(select, ",")
  }

  /** mountJoin: every join clause followed by a space. */
  function JoinSection(joins: seq<string>): string {
    Terminated(joins, " ")
  }

  /** mountWhere. */
  function WhereSection(preds: seq<string>): string {
    if |preds| == 0 then "" else " where " + Join(preds, " and ")
  }

  /** mountGroupBy. */
  function GroupSection(groups: seq<string>): string {
    if |groups| == 0 then "" else " group by " + Join(groups, ", ")
  }

  /** One ORDER BY term: an entry with a numeric key is written as is, any other as "key direction". */
  function OrderTerm(e: (OrderKey, string)): string {
    match e.0
    case Position(_) => e.1
    case Column(k) => if IsNumeric(k) then e.1 else k + " " + e.1
  }

  function OrderTerms(order: seq<(OrderKey, string)>): (terms: seq<string>)
    ensures |terms| == |order| && forall i :: 0 <= i < |order| ==> terms[i] == OrderTerm(order[i])
  {
    seq(|order|, i requires 0 <= i < |order| => OrderTerm(order[i]))
  }

  /** moundOrderBy. */
  function OrderSection(order: seq<(OrderKey, string)>): string {
    if |order| == 0 then "" else " order by " + Join(OrderTerms(order), ", ")
  }

  /** mountSet: the assignments separated by ",". */
  function SetSection(sets: seq<string>): string {
    Join(sets, ",")
  }

  /**
   * mountFields gives "*" for an empty selection; otherwise its items, which
   * cutting the text at "," gives back when no item holds a comma.
   */
  lemma FieldsSectionSpec(select: seq<string>)
    ensures |select| == 0 ==> FieldsSection(select) == "*"
    ensures |select| > 0 && (forall i :: 0 <= i < |select| ==> ',' !in select[i]) ==>
      Split(FieldsSection(select), ',') == select
  {
    if |select| > 0 && (forall i :: 0 <= i < |select| ==> ',' !in select[i]) {
      SplitJoin(select, ',');
    }
  }

  /** The assignments of mountSet come back by cutting the text at "," when no assignment holds a comma. */
  lemma SetSectionSpec(sets: seq<string>)
    requires |sets| > 0 && forall i :: 0 <= i < |sets| ==> ',' !in sets[i]
    ensures Split(SetSection(sets), ',') == sets
  {
    SplitJoin(sets, ',');
  }

  /**
   * The where, group-by and order-by sections are empty exactly when their
   * lists are, and otherwise start with their keyword.
   */
  lemma SectionShapes(preds: seq<string>, groups: seq<string>, order: seq<(OrderKey, string)>)
    ensures WhereSection(preds) == "" <==> |preds| == 0
    ensures |preds| > 0 ==> WhereSection(preds) == " where " + Join(preds, " and ")
    ensures GroupSection(groups) == "" <==> |groups| == 0
    ensures |groups| > 0 ==> GroupSection(groups) == " group by " + Join(groups, ", ")
    ensures OrderSection(order) == "" <==> |order| == 0
    ensures |order| > 0 ==> OrderSection(order) == " order by " + Join(OrderTerms(order), ", ")
  {
    if |preds| > 0 {
      assert |WhereSection(preds)| >= 7;
    }
    if |groups| > 0 {
      assert |GroupSection(groups)| >= 10;
    }
    if |order| > 0 {
      assert |OrderSection(order)| >= 10;
    }
  }

  /** A join section is every join clause followed by one space. */
  lemma JoinSectionSpec(joins: seq<string>)
    ensures |joins| == 0 ==> JoinSection(joins) == ""
    ensures |joins| > 0 ==> JoinSection(joins) == Join(joins, " ") + " "
  {
    if |joins| > 0 {
      TerminatedIsJoinPlusSep(joins, " ");
    }
  }

  /** The index `$order[] = …` uses: one past the largest position, or 0. */
  function NextPosition(order: seq<(OrderKey, string)>): (n: nat)
    ensures forall i :: 0 <= i < |order| && order[i].0.Position? ==> order[i].0.n < n
  {
    if |order| == 0 then 0
    else
      var n := NextPosition(order[..|order| - 1]);
      match order[|order| - 1].0
      case Position(p) => if p + 1 > n then p + 1 else n
      case Column(_) => n
  }

  /* ---------- Statements ---------- */

  /** The text of `offset . ',' . limit`. */
  function LimitText(offset: int, count: int): string {
    IntToString(offset) + "," + IntToString(count)
  }

  /** get(): the SELECT statement. */
  function SelectStatement(c: Clauses): string {
    "select " + FieldsSection(c.select)
      + " from " + c.from + " "
      + JoinSection(c.join) + " "
      + WhereSection(c.where) + " "
      + GroupSection(c.group) + " "
      + OrderSection(c.order)
      // empty($limit): "" and "0" are empty, although limit() never sets "0"
      + (if c.limit == "" || c.limit == "0" then "" else " LIMIT " + c.limit)
  }

  /** insert(): the INSERT statement. */
  function InsertStatement(c: Clauses): string {
    "insert into " + c.from + " set " + SetSection(c.assignments)
  }

  /** update(): the UPDATE statement. */
  function UpdateStatement(c: Clauses): string {
    "update " + c.from + " set " + SetSection(c.assignments) + " " + WhereSection(c.where)
  }

  /** With no clause declared but the table, get() selects every column of the table; the empty sections leave four spaces. */
  lemma SelectWithoutClauses(table: string)
    ensures SelectStatement(Cleared.(from := table)) == "select * from " + table + "    "
  {
  }

  /** The statement ends with " LIMIT offset,count" exactly when limit() was called. */
  lemma SelectLimitSuffix(c: Clauses, offset: int, count: int)
    ensures var s := SelectStatement(c.(limit := LimitText(offset, count)));
      s == SelectStatement(c.(limit := "")) + " LIMIT " + IntToString(offset) + "," + IntToString(count)
  {
  }

  /* ---------- Filters: the LHS-bracket language and where() ---------- */

  /** The store keywords written unquoted: now(), null, true, false, CURDATE(). */
  const Keywords: seq<string> := ["now()", "null", "true", "false", "CURDATE()"]

  predicate IsKeyword(t: string) {
    t in Keywords
  }

  /** The nine LHS-bracket operators. */
  datatype Bracket = Eq | Like | LikeStart | LikeEnd | Gt | Gte | Lt | Lte | Dif

  /** The request key that names each operator. */
  function BracketKey(b: Bracket): string {
    match b
    case Eq => "eq"
    case Like => "lk"
    case LikeStart => "lks"
    case LikeEnd => "lke"
    case Gt => "gt"
    case Gte => "gte"
    case Lt => "lt"
    case Lte => "lte"
    case Dif => "dif"
  }

  /** The SQL operator each bracket compares with. */
  function SqlOperator(b: Bracket): string {
    match b
    case Eq => "="
    case Like => "like"
    case LikeStart => "like"
    case LikeEnd => "like"
    case Gt => ">"
    case Gte => ">="
    case Lt => "<"
    case Lte => "<="
    case Dif => "!="
  }

  /** The quoted operand: the escaped value, with `%` wildcards for the three like operators. */
  function Pattern(b: Bracket, lit: string): string {
    match b
    case Like => "%" + lit + "%"
    case LikeStart => lit + "%"
    case LikeEnd => "%" + lit
    case _ => lit
  }

  function ParseBracket(k: string): (r: Option<Bracket>)
    ensures r.Some? ==> BracketKey(r.value) == k
  {
    if k == "eq" then Some(Eq)
    else if k == "lk" then Some(Like)
    else if k == "lks" then Some(LikeStart)
    else if k == "lke" then Some(LikeEnd)
    else if k == "gt" then Some(Gt)
    else if k == "gte" then Some(Gte)
    else if k == "lt" then Some(Lt)
    else if k == "lte" then Some(Lte)
    else if k == "dif" then Some(Dif)
    else None
  }

  /** Every operator is recognised by its own key, and no other key is recognised. */
  lemma ParseBracketKey(b: Bracket, k: string)
    ensures ParseBracket(BracketKey(b)) == Some(b)
    ensures ParseBracket(k).None? <==> forall b' :: BracketKey(b') != k
  {
    if ParseBracket(k).None? {
      forall b' ensures BracketKey(b') != k {
        match b'
        case Eq =>
        case Like =>
        case LikeStart =>
        case LikeEnd =>
        case Gt =>
        case Gte =>
        case Lt =>
        case Lte =>
        case Dif =>
      }
    }
  }

  /**
   * makeCustomWhere: only the first key of the operator map is read; a
   * recognised key yields "key op 'pattern'", anything else (or no key at all)
   * is the 400 InvalidBracketLHS error.
   */
  function MakeCustomWhere(esc: string -> string, key: string, ops: seq<(string, string)>): (r: Result<string, ApiError>)
    ensures r.Err? <==> |ops| == 0 || ParseBracket(ops[0].0).None?
    ensures r.Err? ==> r.error == InvalidBracketLHS && r.error.Status() == 400
    ensures r.Ok? ==> var b := ParseBracket(ops[0].0).value;
      r.value == key + " " + SqlOperator(b) + " '" + Pattern(b, esc(ops[0].1)) + "'"
  {
    if |ops| == 0 then Err(InvalidBracketLHS)
    else
      var v := ops[0].1;
      match ops[0].0
      case "eq" => Ok(key + " = '" + esc(v) + "'")
      case "lk" => Ok(key + " like '%" + esc(v) + "%'")
      case "lks" => Ok(key + " like '" + esc(v) + "%'")
      case "lke" => Ok(key + " like '%" + esc(v) + "'")
      case "gt" => Ok(key + " > '" + esc(v) + "'")
      case "gte" => Ok(key + " >= '" + esc(v) + "'")
      case "lt" => Ok(key + " < '" + esc(v) + "'")
      case "lte" => Ok(key + " <= '" + esc(v) + "'")
      case "dif" => Ok(key + " != '" + esc(v) + "'")
      case _ => Err(InvalidBracketLHS)
  }

  /** The value of one where() entry: a scalar text, or an operator map in the LHS-bracket language. */
  datatype WhereValue = Scalar(text: string) | Brackets(ops: seq<(string, string)>)

  /** The argument of where(): a raw clause string or an array of entries. */
  datatype WhereArg = Raw(clause: string) | Entries(entries: seq<(string, WhereValue)>)

  /** PHP's empty(): "", "0" and the empty array. */
  predicate IsEmptyArg(arg: WhereArg) {
    match arg
    case Raw(c) => c == "" || c == "0"
    case Entries(es) => es == []
  }

  /** substr($key, -2) == '!=' */
  predicate EndsWithNotEqual(key: string) {
    |key| >= 2 && key[|key| - 2..] == "!="
  }

  function Quoted(lit: string): string {
    "'" + lit + "'"
  }

  /**
   * The predicate for a scalar entry: a keyword is compared unquoted, a key
   * ending in "!=" supplies its own operator, otherwise an equality with the
   * escaped value in quotes.
   */
  function ScalarPredicate(esc: string -> string, key: string, val: string): (r: string)
    ensures IsKeyword(Trim(val)) ==> r == key + " = " + val
    ensures !IsKeyword(Trim(val)) && EndsWithNotEqual(key) ==> r == key + " " + Quoted(esc(val))
    ensures !IsKeyword(Trim(val)) && !EndsWithNotEqual(key) ==> r == key + " = " + Quoted(esc(val))
  {
    var keyword := IsKeyword(Trim(val));
    if keyword then key + " = " + val
    else if EndsWithNotEqual(key) then key + " " + Quoted(esc(val))
    else key + " = " + Quoted(esc(val))
  }

  function EntryPredicate(esc: string -> string, e: (string, WhereValue)): Result<string, ApiError> {
    match e.1
    case Brackets(ops) => MakeCustomWhere(esc, e.0, ops)
    case Scalar(t) => Ok(ScalarPredicate(esc, e.0, t))
  }

  /** What where() appends, and the error it raises if an entry fails. */
  datatype WhereOutcome = WhereOutcome(added: seq<string>, failure: Option<ApiError>)

  /**
   * Translating a list in order with `f`: the first failing item stops the
   * loop, and what the items before it produced is kept.
   */
  function Collect<T>(f: T -> Result<string, ApiError>, xs: seq<T>): WhereOutcome {
    if |xs| == 0 then WhereOutcome([], None)
    else
      var before := Collect(f, xs[..|xs| - 1]);
      if before.failure.Some? then before
      else match f(xs[|xs| - 1])
        case Err(e) => WhereOutcome(before.added, Some(e))
        case Ok(p) => WhereOutcome(before.added + [p], None)
  }

  /** Once an item has failed, later items add nothing. */
  lemma {:induction false} FailureIsFinal<T>(f: T -> Result<string, ApiError>, xs: seq<T>, n: nat)
    requires n <= |xs|
    requires Collect(f, xs[..n]).failure.Some?
    ensures Collect(f, xs) == Collect(f, xs[..n])
    decreases |xs| - n
  {
    if n < |xs| {
      assert xs[..n + 1][..n] == xs[..n];
      FailureIsFinal(f, xs, n + 1);
    } else {
      assert xs[..n] == xs;
    }
  }

  /** The translation succeeds exactly when every item translates, and then it yields one result per item, in order. */
  lemma {:induction false} CollectSpec<T>(f: T -> Result<string, ApiError>, xs: seq<T>)
    ensures Collect(f, xs).failure.None? <==> forall i :: 0 <= i < |xs| ==> f(xs[i]).Ok?
    ensures Collect(f, xs).failure.None? ==>
      |Collect(f, xs).added| == |xs| && forall i :: 0 <= i < |xs| ==> Collect(f, xs).added[i] == f(xs[i]).value
  {
    if |xs| > 0 {
      var init := xs[..|xs| - 1];
      CollectSpec(f, init);
      assert forall i :: 0 <= i < |init| ==> init[i] == xs[i];
      var before := Collect(f, init);
      var r := Collect(f, xs);
      if before.failure.Some? {
        var i :| 0 <= i < |init| && !f(init[i]).Ok?;
        assert !f(xs[i]).Ok?;
      } else if f(xs[|xs| - 1]).Ok? {
        forall i | 0 <= i < |xs| ensures r.added[i] == f(xs[i]).value {
          if i < |init| {
            assert r.added[i] == before.added[i];
          }
        }
      }
    }
  }

  /** The predicates where() appends for an array of entries, and the error that stops it. */
  function EntriesPredicates(esc: string -> string, es: seq<(string, WhereValue)>): WhereOutcome {
    Collect((e: (string, WhereValue)) => EntryPredicate(esc, e), es)
  }

  /** One more entry: its predicate is appended, or its error ends the translation. */
  lemma EntriesStep(esc: string -> string, es: seq<(string, WhereValue)>, i: nat)
    requires i < |es|
    requires EntriesPredicates(esc, es[..i]).failure.None?
    ensures var before := EntriesPredicates(esc, es[..i]);
      EntriesPredicates(esc, es[..i + 1]) == match EntryPredicate(esc, es[i])
        case Err(e) => WhereOutcome(before.added, Some(e))
        case Ok(p) => WhereOutcome(before.added + [p], None)
  {
    assert es[..i + 1][..i] == es[..i];
  }

  /** After a failing entry, the remaining entries change nothing. */
  lemma EntriesStopAtFailure(esc: string -> string, es: seq<(string, WhereValue)>, n: nat)
    requires n <= |es|
    requires EntriesPredicates(esc, es[..n]).failure.Some?
    ensures EntriesPredicates(esc, es) == EntriesPredicates(esc, es[..n])
  {
    FailureIsFinal((e: (string, WhereValue)) => EntryPredicate(esc, e), es, n);
  }

  function WhereEffect(esc: string -> string, arg: WhereArg): WhereOutcome {
    if IsEmptyArg(arg) then WhereOutcome([], None)
    else match arg
      case Raw(c) => WhereOutcome([c], None)
      case Entries(es) => EntriesPredicates(esc, es)
  }

  /**
   * where() over entries succeeds exactly when every entry translates, and then
   * it appends one predicate per entry, in entry order.
   */
  lemma EntriesPredicatesSpec(esc: string -> string, es: seq<(string, WhereValue)>)
    ensures var r := EntriesPredicates(esc, es);
      r.failure.None? <==> forall i :: 0 <= i < |es| ==> EntryPredicate(esc, es[i]).Ok?
    ensures var r := EntriesPredicates(esc, es);
      r.failure.None? ==> |r.added| == |es| && forall i :: 0 <= i < |es| ==> r.added[i] == EntryPredicate(esc, es[i]).value
  {
    CollectSpec((e: (string, WhereValue)) => EntryPredicate(esc, e), es);
  }

  /** The example of the bracket language: {"age": {"gt": "10"}} filters on age > '10'. */
  lemma GreaterThanExample(esc: string -> string)
    ensures EntriesPredicates(esc, [("age", Brackets([("gt", "10")]))]) == WhereOutcome(["age > '" + esc("10") + "'"], None)
    ensures EntriesPredicates(esc, [("age", Brackets([("zzz", "10")]))]) == WhereOutcome([], Some(InvalidBracketLHS))
  {
    var es := [("age", Brackets([("gt", "10")]))];
    assert es[..0] == [];
    var p := MakeCustomWhere(esc, "age", [("gt", "10")]);
    assert ParseBracket("gt") == Some(Gt);
    assert p == Ok("age" + " " + ">" + " '" + esc("10") + "'");
    assert "age" + " " + ">" + " '" == "age > '";
    var bad := [("age", Brackets([("zzz", "10")]))];
    assert bad[..0] == [];
    assert ParseBracket("zzz") == None;
  }

  /* ---------- set() ---------- */

  /** A value given to set(): a string, a bool, null, or a number (written as PHP prints it). */
  datatype SetValue = SetText(text: string) | SetBool(b: bool) | SetNull | SetNumber(digits: string)

  /** How a value is written after "key = ". */
  function Rendered(esc: string -> string, v: SetValue): string {
    match v
    case SetText(t) => if IsKeyword(Trim(t)) then t else Quoted(esc(t))
    case SetBool(b) => if b then "true" else "false"
    case SetNull => "NULL"
    case SetNumber(d) => esc(d)
  }

  /**
   * One assignment of set(): a keyword string verbatim, other strings escaped
   * and quoted, booleans as true/false, null as NULL, numbers unquoted.
   */
  function SetAssignment(esc: string -> string, key: string, v: SetValue): (r: string)
    ensures r == key + " = " + Rendered(esc, v)
  {
    match v
    case SetText(t) =>
      if IsKeyword(Trim(t)) then key + " = " + t
      else key + " = '" + esc(t) + "'"
    case SetBool(b) => if b then key + " = true" else key + " = false"
    case SetNull => key + " = NULL"
    case SetNumber(d) => key + " = " + esc(d)
  }

  function SetAssignments(esc: string -> string, entries: seq<(string, SetValue)>): (r: seq<string>)
    ensures |r| == |entries|
    ensures forall i :: 0 <= i < |entries| ==> r[i] == SetAssignment(esc, entries[i].0, entries[i].1)
  {
    seq(|entries|, i requires 0 <= i < |entries| => SetAssignment(esc, entries[i].0, entries[i].1))
  }

  lemma SetAssignmentsStep(esc: string -> string, entries: seq<(string, SetValue)>, i: nat)
    requires i < |entries|
    ensures SetAssignments(esc, entries[..i + 1]) == SetAssignments(esc, entries[..i]) + [SetAssignment(esc, entries[i].0, entries[i].1)]
  {
    assert entries[..i + 1] == entries[..i] + [entries[i]];
    SetAssignmentsSnoc(esc, entries[..i], entries[i]);
  }

  lemma SetAssignmentsSnoc(esc: string -> string, entries: seq<(string, SetValue)>, e: (string, SetValue))
    ensures SetAssignments(esc, entries + [e]) == SetAssignments(esc, entries) + [SetAssignment(esc, e.0, e.1)]
  {
    var l := SetAssignments(esc, entries + [e]);
    var r := SetAssignments(esc, entries) + [SetAssignment(esc, e.0, e.1)];
    forall j | 0 <= j < |l| ensures l[j] == r[j] {
      if j < |entries| {
        assert (entries + [e])[j] == entries[j];
      }
    }
  }

  /* ---------- makeFilter and makeOrder ---------- */

  /** makeFilter: request keys found in the allow-map, renamed to their column; a later key overwrites an earlier one for the same column. */
  function Filtered(request: seq<(string, WhereValue)>, columns: map<string, string>): seq<(string, WhereValue)> {
    if |request| == 0 then []
    else
      var before := Filtered(request[..|request| - 1], columns);
      var (k, v) := request[|request| - 1];
      if k in columns then Put(before, columns[k], v) else before
  }

  /** The entry `e` is an allow-listed request entry renamed to its column. */
  predicate RenamedFrom(request: seq<(string, WhereValue)>, columns: map<string, string>, e: (string, WhereValue)) {
    exists j :: 0 <= j < |request| && request[j].0 in columns && columns[request[j].0] == e.0 && request[j].1 == e.1
  }

  /**
   * Every filter entry comes from an allow-listed request key, renamed to its
   * column, and every allow-listed request key's column is filtered on.
   */
  lemma {:induction false} FilteredSpec(request: seq<(string, WhereValue)>, columns: map<string, string>)
    ensures DistinctKeys(Filtered(request, columns))
    ensures forall i :: 0 <= i < |Filtered(request, columns)| ==> RenamedFrom(request, columns, Filtered(request, columns)[i])
    ensures forall j :: 0 <= j < |request| && request[j].0 in columns ==>
      Lookup(Filtered(request, columns), columns[request[j].0]).Some?
  {
    if |request| > 0 {
      var init := request[..|request| - 1];
      var (k, v) := request[|request| - 1];
      var before := Filtered(init, columns);
      FilteredSpec(init, columns);
      var after := Filtered(request, columns);
      assert forall j :: 0 <= j < |init| ==> init[j] == request[j];
      forall i | 0 <= i < |before| ensures RenamedFrom(request, columns, before[i]) {
        var j :| 0 <= j < |init| && init[j].0 in columns && columns[init[j].0] == before[i].0 && init[j].1 == before[i].1;
        assert request[j] == init[j];
      }
      if k in columns {
        var col := columns[k];
        PutShape(before, col, v);
        forall c | Lookup(before, c).Some? ensures Lookup(after, c).Some? {
          PutLookup(before, col, v, c);
        }
        PutLookup(before, col, v, col);
        assert RenamedFrom(request, columns, (col, v)) by {
          assert request[|request| - 1] == (k, v);
        }
        forall i | 0 <= i < |after| ensures RenamedFrom(request, columns, after[i]) {
          match IndexOf(before, col)
          case None =>
            if i < |before| {
              assert after[i] == before[i];
            } else {
              assert after[i] == (col, v);
            }
          case Some(q) =>
            if i != q {
              assert after[i] == before[i];
            } else {
              assert after[i] == (col, v);
            }
        }
      }
    }
  }

  /** The `order` query parameter: absent, a field name, or a map with `asc` and/or `desc`. */
  datatype OrderRequest = NoOrder | ByField(field: string) | ByDirection(dirs: map<string, string>)

  /**
   * makeOrder: at most one ORDER BY entry, on an allow-listed column; `asc`
   * wins over `desc`, a bare field name sorts ascending, and an unknown field
   * gives nothing.
   */
  function MakeOrder(order: OrderRequest, columns: map<string, string>): (r: seq<(string, string)>)
    ensures |r| <= 1
    ensures |r| == 1 ==> r[0].0 in columns.Values && (r[0].1 == "asc" || r[0].1 == "desc")
    ensures order.NoOrder? ==> r == []
    ensures order.ByField? ==> (|r| == 1 <==> order.field in columns)
    ensures |r| == 1 && order.ByField? ==> r[0] == (columns[order.field], "asc")
    ensures order.ByDirection? && "asc" in order.dirs ==>
      (|r| == 1 <==> order.dirs["asc"] in columns) && (|r| == 1 ==> r[0] == (columns[order.dirs["asc"]], "asc"))
    ensures order.ByDirection? && "asc" !in order.dirs && "desc" in order.dirs ==>
      (|r| == 1 <==> order.dirs["desc"] in columns) && (|r| == 1 ==> r[0] == (columns[order.dirs["desc"]], "desc"))
    ensures order.ByDirection? && "asc" !in order.dirs && "desc" !in order.dirs ==> r == []
  {
    match order
    case NoOrder => []
    case ByDirection(dirs) =>
      if "asc" in dirs then
        (if dirs["asc"] in columns then [(columns[dirs["asc"]], "asc")] else [])
      else if "desc" in dirs then
        (if dirs["desc"] in columns then [(columns[dirs["desc"]], "desc")] else [])
      else []
    case ByField(f) => if f in columns then [(columns[f], "asc")] else []
  }
}
