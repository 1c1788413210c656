/** Table filters: the query string built from them, and the rows that pass them. */
module Filters {
  import opened Texts
  import F = Filtering

  datatype Filter = Filter(property: string, value: string)

  function Clause(f: Filter): string {
    f.property + "=~" + f.value
  }

  function Clauses(fs: seq<Filter>): seq<string> {
    if fs == [] then [] else [Clause(fs[0])] + Clauses(fs[1..])
  }

  // The text that getQueryString builds before URI encoding.
  function QueryText(fs: seq<Filter>): string {
    Join(Clauses(fs), ',')
  }

  datatype Option<T> = None | Some(value: T)

  // getQueryString; null when there are no filters.
  method GetQueryString(filters: seq<Filter>) returns (r: Option<string>)
    ensures r == if filters == [] then None else Some(QueryText(filters))
  {
    if |filters| == 0 {
      return None;
    }
    var str := "";
    for i := 0 to |filters|
      invariant str == QueryText(filters[..i]) && (i > 0 ==> str != "")
    {
      var item := filters[i];
      assert filters[..i + 1] == filters[..i] + [item];
      AppendClause(filters[..i], item);
      if str != "" {
        str := str + "," + item.property + "=~" + item.value;
        assert str == QueryText(filters[..i]) + "," + Clause(item);
      } else {
        str := item.property + "=~" + item.value;
      }
    }
    assert filters[..|filters|] == filters;
    return Some(str);
  }

  lemma {:induction false} ClausesAppend(fs: seq<Filter>, f: Filter)
    ensures Clauses(fs + [f]) == Clauses(fs) + [Clause(f)]
  {
    if fs == [] {
      assert fs + [f] == [f];
    } else {
      assert (fs + [f])[1..] == fs[1..] + [f];
      ClausesAppend(fs[1..], f);
    }
  }

  lemma {:induction false} AppendClause(fs: seq<Filter>, f: Filter)
    ensures QueryText(fs + [f]) == if fs == [] then Clause(f) else QueryText(fs) + "," + Clause(f)
    ensures QueryText(fs + [f]) != ""
  {
    ClausesAppend(fs, f);
    if fs == [] {
      assert Clauses(fs) + [Clause(f)] == [Clause(f)];
    } else {
      JoinAppend(Clauses(fs), Clause(f), ',');
    }
  }

  // Reading the text back: clauses end at commas, a property at its first '=', which a '~' must
  // follow; other text has no value.
  function ParseClause(s: string): Filter {
    var property := Split(s, '=')[0];
    var n := |property|;
    if n + 2 <= |s| && s[n] == '=' && s[n + 1] == '~' then Filter(property, s[n + 2..]) else Filter(s, "")
  }

  function ParseClauses(parts: seq<string>): seq<Filter> {
    if parts == [] then [] else [ParseClause(parts[0])] + ParseClauses(parts[1..])
  }

  function ParseQuery(s: string): seq<Filter> {
    ParseClauses(Split(s, ','))
  }

  ghost predicate Plain(f: Filter) {
    ',' !in f.property && '=' !in f.property && ',' !in f.value
  }

  lemma {:induction false} ClausesReadBack(fs: seq<Filter>)
    requires forall f :: f in fs ==> Plain(f)
    ensures ParseClauses(Clauses(fs)) == fs && Free(Clauses(fs), ',')
  {
    if fs != [] {
      var f := fs[0];
      assert Plain(f);
      assert Clause(f) == f.property + ['='] + ("~" + f.value);
      SplitFirst(f.property, '=', "~" + f.value);
      assert Clause(f)[|f.property|] == '=' && Clause(f)[|f.property| + 1] == '~';
      assert Clause(f)[|f.property| + 2..] == f.value;
      ClausesReadBack(fs[1..]);
    }
  }

  // The text determines the filters.
  lemma {:induction false} QueryReadsBack(fs: seq<Filter>)
    requires fs != [] && forall f :: f in fs ==> Plain(f)
    ensures ParseQuery(QueryText(fs)) == fs
  {
    ClausesReadBack(fs);
    assert Clauses(fs) != [];
    SplitJoin(Clauses(fs), ',');
  }

  // --- doFiltering ------------------------------------------------------------------------

  // A column of a row: a text, or a list of records.
  datatype Column = Cell(text: string) | Records(items: seq<map<string, string>>) | NoColumn

  type Row = map<string, Column>

  function ColumnOf(row: Row, property: string): Column {
    if property in row then row[property] else NoColumn
  }

  // The test applied to one row. A dotted property asks whether some record of a non-empty list
  // has exactly the value; any other property is matched by a regular expression, left open.
  predicate Passes(row: Row, f: Filter, regexp: (string, Column) -> bool) {
    if '.' in f.property then
      var arr := Split(f.property, '.');
      var column := ColumnOf(row, arr[0]);
      && column.Records?
      && exists i :: 0 <= i < |column.items| && HasValue(column.items[i], arr, f.value)
    else regexp(f.value, ColumnOf(row, f.property))
  }

  // filter['value'] === data[arr[1]]
  predicate HasValue(data: map<string, string>, arr: seq<string>, value: string) {
    |arr| > 1 && arr[1] in data && data[arr[1]] == value
  }

  // A property p.q selects the rows whose list p has a record with exactly the value under q.
  lemma {:induction false} DottedProperty(
    row: Row, p: string, q: string, value: string, regexp: (string, Column) -> bool)
    requires '.' !in p && '.' !in q
    ensures Passes(row, Filter(p + "." + q, value), regexp) <==>
            p in row && row[p].Records? && exists data :: data in row[p].items && q in data && data[q] == value
  {
    assert p + "." + q == p + ['.'] + q;
    SplitFirst(p, '.', q);
    SplitNone(q, '.');
    var arr := Split(p + "." + q, '.');
    assert arr == [p, q];
    if p in row && row[p].Records? {
      if data :| data in row[p].items && q in data && data[q] == value {
        var i :| 0 <= i < |row[p].items| && row[p].items[i] == data;
        assert HasValue(row[p].items[i], arr, value);
      }
    }
  }

  // What follows a second dot is ignored.
  lemma {:induction false} LaterDotsAreMoot(
    row: Row, p: string, q: string, rest: string, value: string, regexp: (string, Column) -> bool)
    requires '.' !in p && '.' !in q
    ensures Passes(row, Filter(p + "." + q + "." + rest, value), regexp) <==>
            Passes(row, Filter(p + "." + q, value), regexp)
  {
    var long, short := p + "." + q + "." + rest, p + "." + q;
    assert long == p + ['.'] + (q + "." + rest) && short == p + ['.'] + q;
    SplitFirst(p, '.', q + "." + rest);
    SplitFirst(q, '.', rest);
    SplitFirst(p, '.', q);
    SplitNone(q, '.');
    assert Split(long, '.')[..2] == [p, q] && Split(short, '.') == [p, q];
    forall data | data in (if p in row && row[p].Records? then row[p].items else [])
      ensures HasValue(data, Split(long, '.'), value) <==> HasValue(data, Split(short, '.'), value)
    {
    }
  }

  // A property without a dot selects the rows whose column the pattern accepts, missing ones
  // included.
  lemma {:induction false} PlainProperty(
    rows: seq<Row>, property: string, pattern: string, regexp: (string, Column) -> bool)
    requires '.' !in property
    ensures forall row :: row in F.Filter(rows, PassesAll([Filter(property, pattern)], regexp)) <==>
              row in rows && regexp(pattern, if property in row then row[property] else NoColumn)
  {
    var fs := [Filter(property, pattern)];
    F.FilterPartition(rows, [], PassesAll(fs, regexp));
    forall row: Row ensures PassesAll(fs, regexp)(row) <==> Passes(row, fs[0], regexp) {
    }
  }

  function PassesAll(fs: seq<Filter>, regexp: (string, Column) -> bool): Row -> bool {
    row => forall i :: 0 <= i < |fs| ==> Passes(row, fs[i], regexp)
  }

  // doFiltering narrows the items filter by filter.
  method DoFiltering(rows: seq<Row>, filters: seq<Filter>, regexp: (string, Column) -> bool) returns (items: seq<Row>)
    ensures items == F.Filter(rows, PassesAll(filters, regexp))
  {
    items := rows;
    F.FilterAll(rows, PassesAll([], regexp));
    for i := 0 to |filters|
      invariant items == F.Filter(rows, PassesAll(filters[..i], regexp))
    {
      var f := filters[i];
      F.FilterTwice(rows, PassesAll(filters[..i], regexp), row => Passes(row, f, regexp),
                    PassesAll(filters[..i + 1], regexp));
      items := F.Filter(items, row => Passes(row, f, regexp));
    }
    assert filters[..|filters|] == filters;
  }

  // The order and the repetition of filters do not matter.
  lemma {:induction false} FilterOrderIsMoot(
    items: seq<Row>, fs: seq<Filter>, gs: seq<Filter>, regexp: (string, Column) -> bool)
    requires forall f :: f in fs <==> f in gs
    ensures F.Filter(items, PassesAll(fs, regexp)) == F.Filter(items, PassesAll(gs, regexp))
  {
    forall r: Row ensures PassesAll(fs, regexp)(r) <==> PassesAll(gs, regexp)(r) {
      assert PassesAll(fs, regexp)(r) <==> forall f :: f in fs ==> Passes(r, f, regexp);
      assert PassesAll(gs, regexp)(r) <==> forall f :: f in gs ==> Passes(r, f, regexp);
    }
    F.FilterTwice(items, PassesAll(fs, regexp), PassesAll(gs, regexp), PassesAll(gs, regexp));
    F.FilterTwice(items, PassesAll(fs, regexp), PassesAll(gs, regexp), PassesAll(fs, regexp));
  }
}
