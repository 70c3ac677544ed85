/** Reading from the external table: `get_userinfo` (one user's mapped
    attributes) and `get_userlist` (every external username). */
module Reader {
  import opened Wrappers
  import opened Php
  import opened Settings
  import opened Escaping
  import opened AttributeMap

  /** What executing a query gives back: failure (`Execute` returned false) or
      the rows, each an associative array of column name to value. */
  datatype QueryResult = QueryFailed | RecordSet(rows: seq<Assoc>)

  /** The external database, seen as the answer it gives to each SQL text. */
  type ExtDb = string -> QueryResult

  /** `core_text::convert(text, from, to)`. */
  type Converter = (string, string, string) -> string

  /** The positional alias of the i-th selected column. */
  function Alias(i: nat): string {
    "F" + NatToString(i)
  }

  /** `"$externalname AS F$fieldcount"` for each mapped field in map order. */
  function SelectItems(attrs: Assoc): seq<string> {
    seq(|attrs|, i requires 0 <= i < |attrs| => attrs[i].1 + " AS " + Alias(i))
  }

  /** The query `get_userinfo` sends (the source's line breaks and indentation
      written as single spaces). */
  function SelectSql(cfg: Config, attrs: Assoc, extusername: string): string {
    "SELECT " + Implode(", ", SelectItems(attrs)) + " FROM " + Lookup(cfg, "table")
    + " WHERE " + UserColumn(cfg) + " = '" + ExtAddSlashes(cfg, extusername) + "'"
  }

  /** `$fields[$index]`: a value missing from the row reads as null, which
      converts to "". */
  function Cell(values: seq<string>, i: nat): string {
    if i < |values| then values[i] else ""
  }

  /** The row read back by position: the i-th local name receives the i-th
      value of the row, converted to UTF-8. */
  function ZipRow(attrs: Assoc, row: Assoc, convert: Converter, enc: string): Assoc {
    seq(|attrs|, i requires 0 <= i < |attrs| => (attrs[i].0, convert(Cell(Values(row), i), enc, Utf8)))
  }

  /** What `get_userinfo` returns for `username`: an error only when the
      plugin is not configured. */
  function UserInfo(p: Plugin, convert: Converter, db: ExtDb, username: string): (r: Result<Assoc>)
    ensures r.Err? <==> !IsConfigured(p.config)
  {
    if !IsConfigured(p.config) then Err(CantConnect)
    else
      var attrs := Attributes(p);
      var extusername := convert(username, Utf8, ExtEncoding(p));
      if attrs == [] then Ok([])
      else match db(SelectSql(p.config, attrs, extusername))
        case QueryFailed => Ok([])
        case RecordSet(rows) => if rows == [] then Ok([]) else Ok(ZipRow(attrs, rows[0], convert, ExtEncoding(p)))
  }

  /** The positional aliases are pairwise different, so two fields mapped to
      the same external column still come back as two values. */
  lemma AliasesDistinct(i: nat, j: nat)
    requires i != j
    ensures Alias(i) != Alias(j)
  {
    NatToStringInjective(i, j);
    assert Alias(i)[1..] == NatToString(i);
    assert Alias(j)[1..] == NatToString(j);
  }

  /** The query ends with the username filter: a quoted literal holding the
      escaped username, which the configured backend reads back as the
      username converted to the external encoding. */
  lemma UsernameFilterReadsBack(p: Plugin, attrs: Assoc, convert: Converter, username: string)
    ensures var extusername := convert(username, Utf8, ExtEncoding(p));
            var literal := ExtAddSlashes(p.config, extusername);
            var sql := SelectSql(p.config, attrs, extusername);
            && |sql| >= |literal| + 2
            && sql[|sql| - |literal| - 2..] == "'" + literal + "'"
            && UnescapeLiteral(p.config, literal) == Some(extusername)
  {
    var extusername := convert(username, Utf8, ExtEncoding(p));
    var literal := ExtAddSlashes(p.config, extusername);
    var head := "SELECT " + Implode(", ", SelectItems(attrs)) + " FROM " + Lookup(p.config, "table")
      + " WHERE " + UserColumn(p.config) + " = ";
    assert SelectSql(p.config, attrs, extusername) == head + ("'" + literal + "'");
    ExtAddSlashesRoundTrip(p.config, extusername);
  }

  /** An unconfigured plugin is the only error; a non-empty answer comes
      from the first row of the query, one value per mapped field, under the
      map's local names in map order. */
  lemma UserInfoFacts(p: Plugin, convert: Converter, db: ExtDb, username: string)
    ensures var r := UserInfo(p, convert, db, username);
            var rs := db(SelectSql(p.config, Attributes(p), convert(username, Utf8, ExtEncoding(p))));
            && (IsConfigured(p.config) && rs.RecordSet? && rs.rows != [] ==>
                  && r == Ok(ZipRow(Attributes(p), rs.rows[0], convert, ExtEncoding(p)))
                  && |r.value| == |Attributes(p)| > 0)
            && (IsConfigured(p.config) && (rs.QueryFailed? || rs.rows == []) ==> r == Ok([]))
            && (r.Ok? && r.value != [] ==>
                  && rs.RecordSet? && rs.rows != []
                  && Keys(r.value) == Keys(Attributes(p))
                  && forall i :: 0 <= i < |r.value| ==>
                       r.value[i].1 == convert(Cell(Values(rs.rows[0]), i), ExtEncoding(p), Utf8))
  {
  }

  /** The loop of `get_userinfo` that names each selected column after its
      position in the map. */
  method BuildSelect(selectfields: Assoc) returns (select: seq<string>)
    ensures |select| == |selectfields|
    ensures forall i :: 0 <= i < |select| ==> select[i] == selectfields[i].1 + " AS " + Alias(i)
  {
    select := [];
    for fieldcount := 0 to |selectfields|
      invariant |select| == fieldcount
      invariant forall i :: 0 <= i < fieldcount ==> select[i] == selectfields[i].1 + " AS " + Alias(i)
    {
      select := select + [selectfields[fieldcount].1 + " AS F" + NatToString(fieldcount)];
    }
  }

  /** The loop of `get_userinfo` that stores the i-th value of the fetched
      row, converted to UTF-8, under the i-th local name. */
  method ReadRow(selectfields: Assoc, row: Assoc, convert: Converter, enc: string) returns (result: Assoc)
    requires Distinct(Keys(selectfields))
    ensures result == ZipRow(selectfields, row, convert, enc)
  {
    var fields := Values(row);
    var names := Keys(selectfields);
    result := [];
    for index := 0 to |names|
      invariant |result| == index
      invariant forall i :: 0 <= i < index ==> result[i] == (names[i], convert(Cell(fields, i), enc, Utf8))
    {
      assert Keys(result) == names[..index];
      assert names[index] !in names[..index];
      var value := if index < |fields| then fields[index] else "";
      PutNew(result, names[index], convert(value, enc, Utf8));
      result := Put(result, names[index], convert(value, enc, Utf8));
    }
    assert |result| == |ZipRow(selectfields, row, convert, enc)|;
  }

  /** `get_userinfo`: an unconfigured plugin throws; otherwise the first row
      of the positional query is read back under the map's local names in map
      order, and no row (or a failed query) gives the empty array. */
  method GetUserinfo(p: Plugin, convert: Converter, db: ExtDb, username: string) returns (r: Result<Assoc>)
    ensures r == UserInfo(p, convert, db, username)
  {
    var extusername := convert(username, Utf8, ExtEncoding(p));
    if !IsConfigured(p.config) {
      return Err(CantConnect);
    }
    var selectfields := DbAttributes(p);
    var result: Assoc := [];
    if selectfields != [] {
      var select := BuildSelect(selectfields);
      assert select == SelectItems(selectfields);
      var sql := "SELECT " + Implode(", ", select) + " FROM " + Lookup(p.config, "table")
        + " WHERE " + Lookup(p.config, "fielduser") + " = '" + ExtAddSlashes(p.config, extusername) + "'";
      assert sql == SelectSql(p.config, selectfields, extusername);
      var rs := db(sql);
      if rs.RecordSet? && rs.rows != [] {
        result := ReadRow(selectfields, rs.rows[0], convert, ExtEncoding(p));
      }
    }
    r := Ok(result);
  }

  /** The query `get_userlist` sends. */
  function UserlistSql(cfg: Config): string {
    "SELECT " + UserColumn(cfg) + " FROM " + Lookup(cfg, "table")
  }

  /** How many rows the `while ($rec = $rs->FetchRow())` loop reads: it stops
      at the end or at the first empty row, an empty array being false. */
  function FetchedCount(rows: seq<Assoc>): (n: nat)
    ensures n <= |rows|
    ensures forall i :: 0 <= i < n ==> rows[i] != []
    ensures n < |rows| ==> rows[n] == []
  {
    if rows == [] || rows[0] == [] then 0 else 1 + FetchedCount(rows[1..])
  }

  /** `$rec[strtolower(fielduser)]` after the keys were lower-cased; a missing
      column reads as null, which is taken as "". */
  function UsernameOf(row: Assoc, column: string): string {
    match Get(LowerKeys(row), Lower(column))
      case Some(v) => v
      case None => ""
  }

  /** The usernames the fetch loop collects from `rows`. */
  function Usernames(rows: seq<Assoc>, column: string): seq<string> {
    if rows == [] || rows[0] == [] then [] else [UsernameOf(rows[0], column)] + Usernames(rows[1..], column)
  }

  /** What `get_userlist` returns: an error when the plugin is not configured
      or the query fails. */
  function UserList(p: Plugin, db: ExtDb): (r: Result<seq<string>>)
    ensures r.Err? <==> !IsConfigured(p.config) || db(UserlistSql(p.config)).QueryFailed?
  {
    if !IsConfigured(p.config) then Err(CantConnect)
    else match db(UserlistSql(p.config))
      case QueryFailed => Err(CantConnect)
      case RecordSet(rows) => Ok(Usernames(rows, UserColumn(p.config)))
  }

  lemma UsernamesFacts(rows: seq<Assoc>, column: string)
    ensures |Usernames(rows, column)| == FetchedCount(rows)
    ensures forall i :: 0 <= i < FetchedCount(rows) ==>
              Usernames(rows, column)[i] == match LastWithLowerKey(rows[i], Lower(column))
                                              case Some(v) => v
                                              case None => ""
  {
    UsernamesAt(rows, column);
    forall i | 0 <= i < FetchedCount(rows)
      ensures Usernames(rows, column)[i] == match LastWithLowerKey(rows[i], Lower(column))
                                              case Some(v) => v
                                              case None => ""
    {
      LowerKeysGet(rows[i], Lower(column));
    }
  }

  /** `get_userlist` yields one username per fetched row, taken from the
      column whose lower-cased name is the lower-cased user column (the last
      such column when several collide), whatever case the backend gave it;
      an empty table gives the empty list, a failed query an error. */
  lemma UserListRows(p: Plugin, db: ExtDb)
    ensures UserList(p, db).Err? <==> !IsConfigured(p.config) || db(UserlistSql(p.config)).QueryFailed?
    ensures UserList(p, db).Ok? ==>
              var rows := db(UserlistSql(p.config)).rows;
              && |UserList(p, db).value| == FetchedCount(rows)
              && forall i :: 0 <= i < FetchedCount(rows) ==>
                   UserList(p, db).value[i] == match LastWithLowerKey(rows[i], Lower(UserColumn(p.config)))
                                                 case Some(v) => v
                                                 case None => ""
  {
    if UserList(p, db).Ok? {
      UsernamesFacts(db(UserlistSql(p.config)).rows, UserColumn(p.config));
    }
  }

  /** Username i of the list comes from row i, for every fetched row. */
  lemma {:induction false} UsernamesAt(rows: seq<Assoc>, column: string)
    ensures |Usernames(rows, column)| == FetchedCount(rows)
    ensures forall j :: 0 <= j < FetchedCount(rows) ==> Usernames(rows, column)[j] == UsernameOf(rows[j], column)
  {
    if rows != [] && rows[0] != [] {
      var rest := Usernames(rows[1..], column);
      UsernamesAt(rows[1..], column);
      assert Usernames(rows, column) == [UsernameOf(rows[0], column)] + rest;
      forall j | 1 <= j < FetchedCount(rows)
        ensures Usernames(rows, column)[j] == UsernameOf(rows[j], column)
      {
        assert Usernames(rows, column)[j] == rest[j - 1];
        assert rows[1..][j - 1] == rows[j];
      }
    }
  }

  /** The `while ($rec = $rs->FetchRow())` loop of `get_userlist`: each
      fetched row has its keys lower-cased and gives up the value of the
      lower-cased user column. */
  method FetchUsernames(rows: seq<Assoc>, column: string) returns (result: seq<string>)
    ensures result == Usernames(rows, column)
  {
    result := [];
    var i := 0;
    while i < |rows| && rows[i] != []
      invariant i <= |rows| && |result| == i
      invariant forall j :: 0 <= j < i ==> rows[j] != [] && result[j] == UsernameOf(rows[j], column)
    {
      var name := UsernameOf(rows[i], column);
      result := result + [name];
      i := i + 1;
    }
    UsernamesAt(rows, column);
    assert i == FetchedCount(rows);
  }

  /** `get_userlist` as the source runs it: an unconfigured plugin or a failed
      query throws, otherwise the fetch loop collects the usernames. */
  method GetUserlist(p: Plugin, db: ExtDb) returns (r: Result<seq<string>>)
    ensures r == UserList(p, db)
  {
    if !IsConfigured(p.config) {
      return Err(CantConnect);
    }
    var sql := "SELECT " + Lookup(p.config, "fielduser") + " FROM " + Lookup(p.config, "table");
    assert sql == UserlistSql(p.config);
    var rs := db(sql);
    if rs.QueryFailed? {
      return Err(CantConnect);
    }
    var result := FetchUsernames(rs.rows, UserColumn(p.config));
    r := Ok(result);
  }
}
