/**
 * The `Database` class of api/lib/database.php: a statement builder whose
 * clause methods append to its clause fields, whose get / insert / update /
 * query methods assemble a statement from them, run it and clear them, and
 * whose getResult decodes the rows of the last result.
 *
 * The connection is not modelled. A statement is run by the function `exec`
 * passed to each call (it stands for mysqli_query on the open connection),
 * and escaping is the function `escape` fixed when the object is built (it
 * stands for mysqli_escape_string).
 */
module Database {
  import opened Wrappers
  import opened PhpStrings
  import opened PhpArrays
  import opened ApiErrors
  import opened SqlText
  import opened PhpNumbers
  import opened ResultDecoder

  /**
   * What running a statement reports: the rows of a SELECT, success with the
   * connection's last insert id, or the error number and message.
   */
  datatype Reply = Rows(rs: ResultSet) | Done(insertId: int) | Failed(errno: int, message: string)

  /** The argument of select() and groupBy(): one string, or an array of strings. */
  datatype Items = One(item: string) | Many(items: seq<string>)
  {
    function List(): seq<string> {
      match this
      case One(s) => [s]
      case Many(xs) => xs
    }
  }

  /** The argument of orderBy(): one term, or an array of key => direction entries. */
  datatype OrderArg = Term(text: string) | Terms(entries: seq<(OrderKey, string)>)

  class Database {
    const escape: string -> string
    var from: string
    var join: seq<string>
    var select: seq<string>
    var where: seq<string>
    var assignments: seq<string>   // $set
    var group: seq<string>
    var order: seq<(OrderKey, string)>
    var limit: string
    /** The reply to the last get() or query(); None before the first one. */
    var result: Option<Reply>

    /** The clause fields, as one value. */
    function State(): Clauses
      reads this
    {
      Clauses(from, join, select, where, assignments, group, order, limit)
    }

    /** The ORDER BY entries have distinct keys, as the keys of a PHP array do. */
    predicate Valid()
      reads this
    {
      DistinctKeys(order)
    }

    constructor(escape: string -> string)
      ensures this.escape == escape
      ensures State() == Cleared && result == None && Valid()
    {
      this.escape := escape;
      from, join, select, where, assignments, group, order, limit := "", [], [], [], [], [], [], "";
      result := None;
    }

    /* ---------- Clause methods ---------- */

    method Select(items: Items)
      modifies this`select
      ensures select == old(select) + items.List()
    {
      match items
      case One(s) =>
        select := select + [s];
      case Many(xs) =>
        for i := 0 to |xs|
          invariant select == old(select) + xs[..i]
        {
          assert xs[..i + 1] == xs[..i] + [xs[i]];
          select := select + [xs[i]];
        }
        assert xs[..|xs|] == xs;
    }

    /** set(): one assignment per entry, in entry order. */
    method Set(entries: seq<(string, SetValue)>)
      modifies this`assignments
      ensures assignments == old(assignments) + SetAssignments(escape, entries)
    {
      for i := 0 to |entries|
        invariant assignments == old(assignments) + SetAssignments(escape, entries[..i])
      {
        var a := Assignment(entries[i].0, entries[i].1);
        SetAssignmentsStep(escape, entries, i);
        assignments := assignments + [a];
      }
      assert entries[..|entries|] == entries;
    }

    /** The assignment set() writes for one entry. */
    method Assignment(key: string, val: SetValue) returns (a: string)
      ensures a == SetAssignment(escape, key, val)
    {
      match val {
        case SetText(t) =>
          if IsKeyword(Trim(t)) {
            a := key + " = " + t;
          } else {
            a := key + " = '" + escape(t) + "'";
          }
        case SetBool(b) =>
          if b {
            a := key + " = true";
          } else {
            a := key + " = false";
          }
        case SetNull =>
          a := key + " = NULL";
        case SetNumber(d) =>
          a := key + " = " + escape(d);
      }
    }

    method From(table: string)
      modifies this`from
      ensures from == table
    {
      from := table;
    }

    method Join(table: string, on: string, left: bool)
      modifies this`join
      ensures join == old(join) + [(if left then "LEFT JOIN " else "INNER JOIN ") + table + " ON " + on]
    {
      if left {
        join := join + ["LEFT JOIN " + table + " ON " + on];
      } else {
        join := join + ["INNER JOIN " + table + " ON " + on];
      }
    }

    /**
     * where(): nothing for an empty argument, a raw clause as given, or one
     * predicate per entry. An entry with an unknown bracket stops the loop
     * with InvalidBracketLHS; the predicates of the entries before it stay.
     */
    method Where(arg: WhereArg) returns (r: Result<(), ApiError>)
      modifies this`where
      ensures where == old(where) + WhereEffect(escape, arg).added
      ensures r.Err? <==> WhereEffect(escape, arg).failure.Some?
      ensures r.Err? ==> r.error == WhereEffect(escape, arg).failure.value
    {
      r := Ok(());
      if IsEmptyArg(arg) {
        return;
      }
      match arg
      case Raw(c) =>
        where := where + [c];
      case Entries(es) =>
        for i := 0 to |es|
          invariant where == old(where) + EntriesPredicates(escape, es[..i]).added
          invariant EntriesPredicates(escape, es[..i]).failure.None?
        {
          EntriesStep(escape, es, i);
          var p := EntryClause(es[i].0, es[i].1);
          if p.Err? {
            EntriesStopAtFailure(escape, es, i + 1);
            r := Err(p.error);
            return;
          }
          where := where + [p.value];
        }
        assert es[..|es|] == es;
    }

    /** The predicate where() writes for one entry: the bracket language for an array value, else a comparison. */
    method EntryClause(key: string, val: WhereValue) returns (r: Result<string, ApiError>)
      ensures r == EntryPredicate(escape, (key, val))
    {
      match val
      case Brackets(ops) =>
        r := MakeCustomWhere(escape, key, ops);
      case Scalar(t) =>
        if IsKeyword(Trim(t)) {
          r := Ok(key + " = " + t);
        } else if EndsWithNotEqual(key) {
          r := Ok(key + " " + Quoted(escape(t)));
        } else {
          r := Ok(key + " = " + Quoted(escape(t)));
        }
    }

    method Limit(offset: int, count: int)
      modifies this`limit
      ensures limit == LimitText(offset, count)
    {
      limit := IntToString(offset) + "," + IntToString(count);
    }

    /**
     * orderBy(): a single term is appended under the next position; an array
     * assigns each of its keys, so a key already present keeps its place and
     * takes the new direction.
     */
    method OrderBy(arg: OrderArg)
      requires Valid()
      modifies this`order
      ensures Valid()
      ensures arg.Term? ==> order == old(order) + [(Position(NextPosition(old(order))), arg.text)]
      ensures arg.Terms? ==> order == PutAll(old(order), arg.entries)
    {
      match arg
      case Term(t) =>
        order := order + [(Position(NextPosition(order)), t)];
      case Terms(es) =>
        for i := 0 to |es|
          invariant order == PutAll(old(order), es[..i])
          invariant DistinctKeys(order)
        {
          assert es[..i + 1][..i] == es[..i];
          PutShape(order, es[i].0, es[i].1);
          order := Put(order, es[i].0, es[i].1);
        }
        assert es[..|es|] == es;
    }

    method GroupBy(items: Items)
      modifies this`group
      ensures group == old(group) + items.List()
    {
      match items
      case One(s) =>
        group := group + [s];
      case Many(xs) =>
        for i := 0 to |xs|
          invariant group == old(group) + xs[..i]
        {
          assert xs[..i + 1] == xs[..i] + [xs[i]];
          group := group + [xs[i]];
        }
        assert xs[..|xs|] == xs;
    }

    /** clearsql(): every clause is unset; the last result is kept. */
    method ClearSql()
      modifies this
      ensures State() == Cleared && Valid()
      ensures result == old(result)
    {
      from, join, select, where, assignments, group, order, limit := "", [], [], [], [], [], [], "";
    }

    /* ---------- Mount helpers ---------- */

    method MountFields() returns (fields: string)
      ensures fields == FieldsSection(select)
    {
      fields := "";
      if |select| > 0 {
        for i := 0 to |select|
          invariant fields == Terminated(select[..i], ",")
        {
          assert select[..i + 1][..i] == select[..i];
          fields := fields + select[i] + ",";
        }
        assert select[..|select|] == select;
        TerminatedIsJoinPlusSep(select, ",");
      } else {
        fields := "* ";
      }
      fields := fields[..|fields| - 1];
    }

    method MountJoin() returns (text: string)
      ensures text == JoinSection(join)
    {
      text := "";
      for i := 0 to |join|
        invariant text == Terminated(join[..i], " ")
      {
        assert join[..i + 1][..i] == join[..i];
        text := text + join[i] + " ";
      }
      assert join[..|join|] == join;
    }

    method MountWhere() returns (text: string)
      ensures text == WhereSection(where)
    {
      text := "";
      if |where| > 0 {
        for i := 0 to |where|
          invariant text == SqlText.Join(where[..i], " and ")
        {
          assert where[..i + 1][..i] == where[..i];
          if i != 0 {
            text := text + " and ";
          }
          text := text + where[i];
        }
        assert where[..|where|] == where;
        text := " where " + text;
      }
    }

    method MountOrderBy() returns (text: string)
      ensures text == OrderSection(order)
    {
      text := "";
      if |order| > 0 {
        for i := 0 to |order|
          invariant text == SqlText.Join(OrderTerms(order[..i]), ", ")
        {
          assert OrderTerms(order[..i + 1])[..i] == OrderTerms(order[..i]);
          if i != 0 {
            text := text + ", ";
          }
          var term := OrderTermText(order[i]);
          text := text + term;
        }
        assert order[..|order|] == order;
        text := " order by " + text;
      }
    }

    /** One ORDER BY term: `is_numeric($key)` picks the bare value, otherwise "key direction". */
    method OrderTermText(e: (OrderKey, string)) returns (term: string)
      ensures term == OrderTerm(e)
    {
      match e.0 {
        case Position(_) =>
          term := e.1;
        case Column(k) =>
          if IsNumeric(k) {
            term := e.1;
          } else {
            term := k + " " + e.1;
          }
      }
    }

    method MountGroupBy() returns (text: string)
      ensures text == GroupSection(group)
    {
      text := "";
      if |group| > 0 {
        for i := 0 to |group|
          invariant text == SqlText.Join(group[..i], ", ")
        {
          assert group[..i + 1][..i] == group[..i];
          if i != 0 {
            text := text + ", ";
          }
          text := text + group[i];
        }
        assert group[..|group|] == group;
        text := " group by " + text;
      }
    }

    method MountSet() returns (text: string)
      ensures text == SetSection(assignments)
    {
      text := "";
      for i := 0 to |assignments|
        invariant text == Terminated(assignments[..i], ",")
      {
        assert assignments[..i + 1][..i] == assignments[..i];
        text := text + assignments[i] + ",";
      }
      assert assignments[..|assignments|] == assignments;
      if |assignments| > 0 {
        TerminatedIsJoinPlusSep(assignments, ",");
      }
      // substr($set, 0, -1), which gives "" for ""
      text := if |text| > 0 then text[..|text| - 1] else "";
    }

    /* ---------- Running statements ---------- */

    /**
     * get(): runs the SELECT the clauses describe and keeps its reply; the
     * clauses are cleared whether or not it fails, and a failure is reported
     * with the statement and the store's error.
     */
    method Get(exec: string -> Reply) returns (r: Result<(), ApiError>)
      modifies this
      ensures State() == Cleared && Valid()
      ensures var sql := SelectStatement(old(State()));
        && result == Some(exec(sql))
        && (r.Err? <==> exec(sql).Failed?)
        && (r.Err? ==> r.error == QueryError("get", sql, exec(sql).errno, exec(sql).message))
    {
      ghost var statement := SelectStatement(State());
      var fields := MountFields();
      var joinText := MountJoin();
      var whereText := MountWhere();
      var orderText := MountOrderBy();
      var groupText := MountGroupBy();
      var sql := "select " + fields
        + " from " + from + " "
        + joinText + " "
        + whereText + " "
        + groupText + " "
        + orderText;
      // !empty($this->limit): "" and "0" are empty, although limit() never sets "0"
      if !(limit == "" || limit == "0") {
        sql := sql + " LIMIT " + limit;
      }
      assert sql == statement;
      var reply := exec(sql);
      result := Some(reply);
      ClearSql();
      if reply.Failed? {
        r := Err(QueryError("get", sql, reply.errno, reply.message));
      } else {
        r := Ok(());
      }
    }

    /** insert(): runs the INSERT and returns the connection's last insert id (0 when none was generated). */
    method Insert(exec: string -> Reply) returns (r: Result<int, ApiError>)
      modifies this
      ensures State() == Cleared && Valid() && result == old(result)
      ensures var sql := InsertStatement(old(State()));
        && (r.Err? <==> exec(sql).Failed?)
        && (r.Err? ==> r.error == QueryError("insert", sql, exec(sql).errno, exec(sql).message))
        && (r.Ok? ==> r.value == if exec(sql).Done? then exec(sql).insertId else 0)
    {
      var setText := MountSet();
      var sql := "insert into " + from + " set " + setText;
      var reply := exec(sql);
      ClearSql();
      if reply.Failed? {
        r := Err(QueryError("insert", sql, reply.errno, reply.message));
      } else {
        r := Ok(if reply.Done? then reply.insertId else 0);
      }
    }

    method Update(exec: string -> Reply) returns (r: Result<(), ApiError>)
      modifies this
      ensures State() == Cleared && Valid() && result == old(result)
      ensures var sql := UpdateStatement(old(State()));
        && (r.Err? <==> exec(sql).Failed?)
        && (r.Err? ==> r.error == QueryError("update", sql, exec(sql).errno, exec(sql).message))
    {
      var setText := MountSet();
      var whereText := MountWhere();
      var sql := "update " + from + " set " + setText + " " + whereText;
      var reply := exec(sql);
      ClearSql();
      if reply.Failed? {
        r := Err(QueryError("update", sql, reply.errno, reply.message));
      } else {
        r := Ok(());
      }
    }

    /** query(): runs a raw statement and keeps its reply; the clauses are cleared. */
    method Query(exec: string -> Reply, sql: string) returns (r: Result<(), ApiError>)
      modifies this
      ensures State() == Cleared && Valid() && result == Some(exec(sql))
      ensures r.Err? <==> exec(sql).Failed?
      ensures r.Err? ==> r.error == QueryError("query", sql, exec(sql).errno, exec(sql).message)
    {
      var reply := exec(sql);
      result := Some(reply);
      ClearSql();
      if reply.Failed? {
        r := Err(QueryError("query", sql, reply.errno, reply.message));
      } else {
        r := Ok(());
      }
    }

    /* ---------- Reading results ---------- */

    /** getResult(): every row of the last result, decoded column by column. */
    method GetResult() returns (rows: seq<DecodedRow>)
      requires result.Some? && result.value.Rows?
      ensures rows == DecodeResult(result.value.rs)
    {
      var rs := result.value.rs;
      if |rs.rows| == 0 {
        return [];
      }
      rows := [];
      for i := 0 to |rs.rows|
        invariant rows == DecodeResult(rs)[..i]
      {
        var raw := rs.rows[i];
        var values: DecodedRow := [];
        for k := 0 to |rs.columns|
          invariant values == DecodeRow(rs.columns[..k], raw)
        {
          var c := rs.columns[k];
          var cell := CellOf(raw, c.name);
          var s := CellText(cell);
          var v: Decoded;
          if c.code == 1 {
            if Utf8Length(s) == 1 || BelowTwo(cell) {
              v := DBool(BoolCast(s));
            } else {
              v := DInt(IntCast(s));
            }
          } else if IsIntegerCode(c.code) {
            v := DInt(IntCast(s));
          } else if IsFloatCode(c.code) {
            var t := if EqualsZero(cell) then 0.0 else FloatCast(s);
            v := DFloat(t);
          } else if IsDateTimeCode(c.code) {
            v := DDateTime(s);
          } else {
            v := if cell.None? then DNull else DText(cell.value);
          }
          assert v == DecodeCell(c.code, cell);
          assert rs.columns[..k + 1][..k] == rs.columns[..k];
          values := Put(values, c.name, v);
        }
        assert rs.columns[..|rs.columns|] == rs.columns;
        rows := rows + [values];
      }
    }

    /** makeFilter(): the request entries whose key is allow-listed, renamed to their column. */
    method MakeFilter(request: seq<(string, WhereValue)>, columns: map<string, string>) returns (ret: seq<(string, WhereValue)>)
      ensures ret == Filtered(request, columns)
    {
      ret := [];
      for i := 0 to |request|
        invariant ret == Filtered(request[..i], columns)
      {
        assert request[..i + 1][..i] == request[..i];
        var (k, v) := request[i];
        if k in columns {
          ret := Put(ret, columns[k], v);
        }
      }
      assert request[..|request|] == request;
    }
  }
}
