/** `g_query_ids`: a query over an id list is issued as one
    `... {id_col} IN (i1,i2,...);` statement per chunk of at most `step`
    ids, and the rows of the statements are concatenated. The database
    is a table of rows indexed by the value of the id column. */
module QueryText {
  import opened Wrappers
  import opened Text

  /** The chunks' ids, in order. */
  function Concat(chunks: seq<seq<int>>): seq<int> {
    if |chunks| == 0 then [] else chunks[0] + Concat(chunks[1..])
  }

  /** The successive `buf` lists: `step` ids each, the last one possibly
      shorter, and no empty list (an empty buffer issues no query).
      A `step` of 0 never fills a buffer nor finishes, so it is excluded. */
  function Chunks(ids: seq<int>, step: nat): (r: seq<seq<int>>)
    requires step > 0
    ensures forall j :: 0 <= j < |r| ==> 0 < |r[j]| <= step
    ensures forall j :: 0 <= j < |r| - 1 ==> |r[j]| == step
    ensures |r| == 0 <==> |ids| == 0
    decreases |ids|
  {
    if |ids| == 0 then []
    else if |ids| <= step then [ids]
    else [ids[..step]] + Chunks(ids[step..], step)
  }

  /** The chunks cover the id sequence exactly, in order. */
  lemma {:induction false} ChunksCover(ids: seq<int>, step: nat)
    requires step > 0
    ensures Concat(Chunks(ids, step)) == ids
    decreases |ids|
  {
    if |ids| > step {
      var r := Chunks(ids, step);
      assert r[1..] == Chunks(ids[step..], step);
      ChunksCover(ids[step..], step);
      assert ids[..step] + ids[step..] == ids;
    } else if |ids| > 0 {
      assert Concat([ids]) == ids + Concat([]);
    }
  }

  /** The query prefix and connective: a query without `WHERE` gets
      `" WHERE"` appended and no `AND`. */
  function Prepare(query: string): (r: (string, string))
    ensures Find(query, "WHERE") >= 0 ==> r == (query, "AND")
    ensures Find(query, "WHERE") < 0 ==> r.0 == query + " WHERE" && r.1 == ""
    ensures Contains(r.0, "WHERE")
  {
    if Find(query, "WHERE") < 0 then
      var init := query + " WHERE";
      assert StartsWith(init[|query| + 1..], "WHERE");
      (init, "")
    else (query, "AND")
  }

  /** The decimal ids joined by commas. */
  function IdList(chunk: seq<int>): string {
    Join(seq(|chunk|, j requires 0 <= j < |chunk| => IntToString(chunk[j])), ',')
  }

  /** The text in front of the id list. */
  function StatementHead(query: string, idCol: string): string {
    var (init, withAnd) := Prepare(query);
    init + " " + withAnd + " " + idCol + " IN ("
  }

  /** `f'{init_query} {with_and} {id_col} IN (' + ','.join(buf) + ');'`. */
  function Statement(query: string, idCol: string, chunk: seq<int>): (r: string)
    ensures StartsWith(r, StatementHead(query, idCol)) && EndsWith(r, ");")
  {
    var head := StatementHead(query, idCol);
    var r := head + IdList(chunk) + ");";
    assert r[..|head|] == head;
    assert r[|r| - 2..] == ");";
    r
  }

  /** Reads the ids back out of a statement with a known head. */
  function IdsOfStatement(head: string, stmt: string): Option<seq<int>> {
    if StartsWith(stmt, head) && EndsWith(stmt, ");") && |head| + 2 <= |stmt| then
      var parts := Split(stmt[|head|..|stmt| - 2], ',');
      if forall k :: 0 <= k < |parts| ==> ParseInt(parts[k]).Some? then
        Some(seq(|parts|, k requires 0 <= k < |parts| => ParseInt(parts[k]).value))
      else None
    else None
  }

  /** Each statement names exactly its chunk's ids, in order. */
  lemma StatementRoundTrip(query: string, idCol: string, chunk: seq<int>)
    requires |chunk| > 0
    ensures IdsOfStatement(StatementHead(query, idCol), Statement(query, idCol, chunk)) == Some(chunk)
  {
    ListRoundTrip(StatementHead(query, idCol), chunk);
  }

  /** Whatever the text in front, the id list of a statement reads back
      as the ids it was written from. */
  lemma ListRoundTrip(head: string, chunk: seq<int>)
    requires |chunk| > 0
    ensures IdsOfStatement(head, head + IdList(chunk) + ");") == Some(chunk)
  {
    var stmt := head + IdList(chunk) + ");";
    var parts := seq(|chunk|, j requires 0 <= j < |chunk| => IntToString(chunk[j]));
    assert stmt[..|head|] == head;
    assert stmt[|stmt| - 2..] == ");";
    assert stmt[|head|..|stmt| - 2] == IdList(chunk);
    forall k | 0 <= k < |parts| ensures ',' !in parts[k] {
      assert forall m :: 0 <= m < |parts[k]| ==> IsDigit(parts[k][m]) || parts[k][m] == '-';
    }
    SplitJoin(parts, ',');
    forall k | 0 <= k < |parts| ensures ParseInt(parts[k]) == Some(chunk[k]) {
      ParseIntToString(chunk[k]);
    }
    var split := Split(stmt[|head|..|stmt| - 2], ',');
    assert split == parts;
    assert seq(|split|, k requires 0 <= k < |split| => ParseInt(split[k]).value) == chunk;
  }

  /** The statements `g_query_ids` issues, in order. */
  function Statements(query: string, idCol: string, ids: seq<int>, step: nat): (r: seq<string>)
    requires step > 0
    ensures |r| == |Chunks(ids, step)|
    ensures forall j :: 0 <= j < |r| ==> r[j] == Statement(query, idCol, Chunks(ids, step)[j])
  {
    var chunks := Chunks(ids, step);
    seq(|chunks|, j requires 0 <= j < |chunks| => Statement(query, idCol, chunks[j]))
  }

  /** Reading every statement back gives the whole id sequence: no id is
      lost, repeated or reordered, and no statement names more than `step`. */
  lemma StatementsCoverIds(query: string, idCol: string, ids: seq<int>, step: nat)
    requires step > 0
    ensures forall j :: 0 <= j < |Statements(query, idCol, ids, step)| ==>
      IdsOfStatement(StatementHead(query, idCol), Statements(query, idCol, ids, step)[j]) == Some(Chunks(ids, step)[j])
    ensures Concat(Chunks(ids, step)) == ids
  {
    var chunks := Chunks(ids, step);
    forall j | 0 <= j < |chunks|
      ensures IdsOfStatement(StatementHead(query, idCol), Statement(query, idCol, chunks[j])) == Some(chunks[j])
    {
      StatementRoundTrip(query, idCol, chunks[j]);
    }
    ChunksCover(ids, step);
  }

  /** The rows a statement returns: those the table holds under each named
      id, in the order of the list. */
  function RowsFor<T>(table: map<int, seq<T>>, ids: seq<int>): (r: seq<T>)
    ensures |ids| == 0 ==> r == []
  {
    if |ids| == 0 then []
    else (if ids[0] in table then table[ids[0]] else []) + RowsFor(table, ids[1..])
  }

  lemma {:induction false} RowsForAppend<T>(table: map<int, seq<T>>, a: seq<int>, b: seq<int>)
    ensures RowsFor(table, a + b) == RowsFor(table, a) + RowsFor(table, b)
    decreases |a|
  {
    if |a| > 0 {
      assert (a + b)[1..] == a[1..] + b;
      RowsForAppend(table, a[1..], b);
    } else {
      assert a + b == b;
    }
  }

  /** The rows of all the chunked statements. */
  function ChunkedRows<T>(table: map<int, seq<T>>, chunks: seq<seq<int>>): seq<T> {
    if |chunks| == 0 then [] else RowsFor(table, chunks[0]) + ChunkedRows(table, chunks[1..])
  }

  /** Splitting a query into chunks does not change the rows it yields. */
  lemma {:induction false} ChunkingKeepsRows<T>(table: map<int, seq<T>>, ids: seq<int>, step: nat)
    requires step > 0
    ensures ChunkedRows(table, Chunks(ids, step)) == RowsFor(table, ids)
    decreases |ids|
  {
    if |ids| > step {
      var r := Chunks(ids, step);
      assert r[1..] == Chunks(ids[step..], step);
      ChunkingKeepsRows(table, ids[step..], step);
      assert ids[..step] + ids[step..] == ids;
      RowsForAppend(table, ids[..step], ids[step..]);
    } else if |ids| > 0 {
      assert ChunkedRows(table, [ids]) == RowsFor(table, ids) + ChunkedRows(table, []);
    }
  }

  /** `s.strip(c)`: every leading and trailing `c` removed. */
  function StripChar(s: string, c: char): (r: string)
    ensures |r| == 0 || (r[0] != c && r[|r| - 1] != c)
    ensures |s| > 0 && s[0] != c && s[|s| - 1] != c ==> r == s
    decreases |s|
  {
    if |s| > 0 && s[0] == c then StripChar(s[1..], c)
    else if |s| > 0 && s[|s| - 1] == c then StripChar(s[..|s| - 1], c)
    else s
  }

  /** `schema_name, table_name = table_full_name.strip('"').split('.')`:
      the unpacking fails unless the name holds exactly one dot. */
  function SchemaAndTable(full: string): (r: Result<(string, string)>)
    ensures r.Success? <==> |Split(StripChar(full, '"'), '.')| == 2
    ensures r.Success? ==> StripChar(full, '"') == r.value.0 + "." + r.value.1
    ensures r.Success? ==> '.' !in r.value.0 && '.' !in r.value.1
  {
    var parts := Split(StripChar(full, '"'), '.');
    if |parts| != 2 then Failure(ValueError("not enough or too many values to unpack"))
    else
      JoinSplit(StripChar(full, '"'), '.');
      assert parts[1..] == [parts[1]];
      Success((parts[0], parts[1]))
  }

  /** The `schema.name` form the table autodetection stores splits back
      into its schema and name. */
  lemma SchemaAndTableOfStored(schema: string, name: string)
    requires '.' !in schema && '.' !in name
    requires |schema| > 0 && schema[0] != '"' && |name| > 0 && name[|name| - 1] != '"'
    ensures SchemaAndTable(schema + "." + name) == Success((schema, name))
  {
    var full := schema + "." + name;
    assert full[0] == schema[0] && full[|full| - 1] == name[|name| - 1];
    assert full == schema + ['.'] + name;
    SplitAfterPart(schema, '.', name);
    SplitNoSep(name, '.');
  }

  /** `table_name + '.' + ('"' + colname + '"' if colname.find(':') > 0 else colname)`:
      a column name is double-quoted when it holds a `:` after its first
      character (`addr:street`). */
  function ColumnRef(table: string, col: string): (r: string)
    ensures StartsWith(r, table + ".")
    ensures FindChar(col, ':') > 0 ==> r[|table| + 1..] == "\"" + col + "\""
    ensures FindChar(col, ':') <= 0 ==> r[|table| + 1..] == col
  {
    var r := table + "." + (if FindChar(col, ':') > 0 then "\"" + col + "\"" else col);
    assert r[..|table| + 1] == table + ".";
    r
  }

  /** Distinct columns get distinct references: a quoted reference never
      equals an unquoted one, because the unquoted name would then hold
      a `:` after its first character itself. */
  lemma ColumnRefInjective(table: string, a: string, b: string)
    requires ColumnRef(table, a) == ColumnRef(table, b)
    ensures a == b
  {
    var ra, rb := ColumnRef(table, a)[|table| + 1..], ColumnRef(table, b)[|table| + 1..];
    if FindChar(a, ':') > 0 && FindChar(b, ':') <= 0 {
      QuotedColon(a, b);
    } else if FindChar(b, ':') > 0 && FindChar(a, ':') <= 0 {
      QuotedColon(b, a);
    } else if FindChar(a, ':') > 0 {
      assert a == ra[1..|ra| - 1] && b == rb[1..|rb| - 1];
    }
  }

  lemma QuotedColon(a: string, b: string)
    requires FindChar(a, ':') > 0 && b == "\"" + a + "\""
    ensures FindChar(b, ':') > 0
  {
    var i := FindChar(a, ':');
    assert b[i + 1] == ':';
  }

  /** The catalogue's columns of a table: name and type name. */
  function Selected(columns: seq<(string, string)>, types: set<string>): (r: seq<(string, string)>)
    ensures forall j :: 0 <= j < |r| ==> r[j] in columns && r[j].1 in types && r[j].0 != "osm_id"
    ensures forall c :: c in columns && c.1 in types && c.0 != "osm_id" ==> c in r
  {
    if |columns| == 0 then []
    else
      var rest := Selected(columns[1..], types);
      assert forall c :: c in columns[1..] ==> c in columns;
      if columns[0].1 in types && columns[0].0 != "osm_id" then [columns[0]] + rest else rest
  }

  /** `get_columns_of_types(c, col_types, table_full_name)` over the
      catalogue rows of the table: the reference of every column of one of
      the types, except `osm_id`. */
  function ColumnsOfTypes(columns: seq<(string, string)>, types: set<string>, full: string): (r: Result<seq<string>>)
    ensures r.Success? <==> SchemaAndTable(full).Success?
    ensures r.Success? ==> |r.value| == |Selected(columns, types)|
    ensures r.Success? ==> forall j :: 0 <= j < |r.value| ==>
      exists c :: c in columns && c.1 in types && c.0 != "osm_id" && r.value[j] == ColumnRef(SchemaAndTable(full).value.1, c.0)
    ensures r.Success? ==> forall j :: 0 <= j < |Selected(columns, types)| ==>
      r.value[j] == ColumnRef(SchemaAndTable(full).value.1, Selected(columns, types)[j].0)
  {
    var names :- SchemaAndTable(full);
    var sel := Selected(columns, types);
    Success(seq(|sel|, j requires 0 <= j < |sel| => ColumnRef(names.1, sel[j].0)))
  }
}
