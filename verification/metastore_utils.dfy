/**
 The pure parts of the metastore utilities: the SQL dialect rewrite applied
 to every table-creation statement, the reverse lookup in an id-to-name
 map, the quoted table-name list used in table-count queries, the list of
 DROP statements that clears the schema, and the refusal of MySQL system
 database names.
 */
module MetaStoreUtils {
  import opened JavaLang
  import opened KeyLengthPattern

  const MYSQL_URL_PREFIX: string := "jdbc:mysql:"

  /** MySQL's own databases, which the metastore must not use (case-sensitive). */
  const DB_NAME_NOT_ALLOWED: seq<string> := [
    "mysql",
    "sys",
    "information_schema",
    "INFORMATION_SCHEMA",
    "performance_schema",
    "PERFORMANCE_SCHEMA"
  ]

  /** The metastore's tables, in creation order. */
  const TABLESET: seq<string> := [
    "access_count_table",
    "blank_access_count_info",
    "cached_file",
    "ec_policy",
    "file",
    "storage",
    "storage_hist",
    "storage_policy",
    "xattr",
    "datanode_info",
    "datanode_storage_info",
    "rule",
    "cmdlet",
    "action",
    "file_diff",
    "global_config",
    "cluster_config",
    "sys_info",
    "cluster_info",
    "backup_file",
    "file_state",
    "compression_file",
    "small_file",
    "user_info"
  ]

  // ---------------------------------------------------------------------
  // sqlCompatibility
  // ---------------------------------------------------------------------

  /** Index prefixes longer than this many bytes are refused by MySQL 5.6 and earlier. */
  const MAX_INDEX_BYTES: int := 767

  const AUTOINCREMENT: string := "AUTOINCREMENT"
  const AUTO_INCREMENT: string := "AUTO_INCREMENT"
  const STATEMENT_END: string := ");"
  const DYNAMIC_STATEMENT_END: string := ") ROW_FORMAT=DYNAMIC ENGINE=INNODB;"

  /** Why the rewrite throws: `767 / 0`, or a key length `Integer.valueOf` cannot hold. */
  datatype SqlFault = DivideByZero | NumberFormat(digits: string)

  /** The ending that limits an index to its first `maxLong` characters. */
  function IndexLengthEnd(maxLong: int): string {
    "(" + IntToString(maxLong) + "));"
  }

  /** An index over a path-like column, whose key would exceed the old index limit. */
  predicate IsPathIndex(sql: string) {
    StartsWith(sql, "CREATE INDEX") && (Contains(sql, "path") || Contains(sql, "src"))
  }

  predicate DeclaresKey(sql: string) {
    Contains(sql, "PRIMARY KEY") || Contains(sql, "UNIQUE")
  }

  /** The first key column length, read as Java reads it; None when the pattern does not match. */
  function KeyLength(sql: string): (r: Option<Result<int, SqlFault>>)
    ensures r.None? <==> FirstKeyLength(sql).None?
    ensures r.Some? && r.value.Success? ==> 0 <= r.value.value <= INT_MAX
    ensures FirstKeyLength(sql).Some? ==>
      var g := FirstKeyLength(sql).value;
      && AllDigits(g)
      && (DecimalValue(g) <= INT_MAX ==> r == Some(Success(DecimalValue(g))))
      && (DecimalValue(g) > INT_MAX ==> r == Some(Failure(NumberFormat(g))))
  {
    match FirstKeyLength(sql)
    case None => None
    case Some(g) =>
      FirstKeyLengthIsDigits(sql);
      match ParseInt(g)
      case None => Some(Failure(NumberFormat(g)))
      case Some(v) => Some(Success(v))
  }

  /** The statement declares a key whose first length parses and exceeds `maxLong`. */
  predicate LongKey(sql: string, maxLong: int) {
    && DeclaresKey(sql)
    && KeyLength(sql).Some? && KeyLength(sql).value.Success?
    && KeyLength(sql).value.value > maxLong
  }

  /** The rewrite for MySQL releases before 5.7, given `maxLong = 767 / characterTakeUpBytes`. */
  function OldReleaseRewrite(sql: string, maxLong: int): (r: Result<string, SqlFault>)
    ensures r.Failure? <==> !IsPathIndex(sql) && DeclaresKey(sql) && KeyLengthOverflows(sql)
    ensures r.Success? && r.value != sql ==>
      Contains(sql, STATEMENT_END) && (IsPathIndex(sql) || LongKey(sql, maxLong))
    ensures !IsPathIndex(sql) && LongKey(sql, maxLong) ==> r.Success? && !Contains(r.value, STATEMENT_END)
  {
    RenamesCannotReintroduce();
    ReplaceRemovesTarget(sql, STATEMENT_END, DYNAMIC_STATEMENT_END);
    if IsPathIndex(sql) then Success(Replace(sql, STATEMENT_END, IndexLengthEnd(maxLong)))
    else if DeclaresKey(sql) then
      match KeyLength(sql)
      case None => Success(sql)
      case Some(Failure(e)) => Failure(e)
      case Some(Success(v)) =>
        if v > maxLong then Success(Replace(sql, STATEMENT_END, DYNAMIC_STATEMENT_END)) else Success(sql)
    else Success(sql)
  }

  /**
   `sqlCompatibility(mysql, mysqlOldRelease, sql)` with the configured
   `characterTakeUpBytes`. A non-MySQL statement is returned unchanged; for
   MySQL no `AUTOINCREMENT` survives. The rewrite fails only on an old
   MySQL release, when `characterTakeUpBytes` is zero or the key length
   overflows `int`.
   */
  function SqlCompatibility(mysql: bool, mysqlOldRelease: bool, characterTakeUpBytes: int, sql: string)
    : (r: Result<string, SqlFault>)
    ensures !mysql ==> r == Success(sql)
    ensures mysql && r.Success? ==> !Contains(r.value, AUTOINCREMENT)
    ensures r.Failure? <==>
      && mysql && mysqlOldRelease
      && (characterTakeUpBytes == 0 || (!IsPathIndex(sql) && DeclaresKey(sql) && KeyLengthOverflows(sql)))
    ensures r == Failure(DivideByZero) <==> mysql && mysqlOldRelease && characterTakeUpBytes == 0
  {
    if !mysql then Success(sql)
    else
      var stage :=
        if !mysqlOldRelease then Success(sql)
        else if characterTakeUpBytes == 0 then Failure(DivideByZero)
        else OldReleaseRewrite(sql, Div(MAX_INDEX_BYTES, characterTakeUpBytes));
      match stage
      case Failure(e) => Failure(e)
      case Success(s) =>
        var out := if Contains(s, AUTOINCREMENT) then Replace(s, AUTOINCREMENT, AUTO_INCREMENT) else s;
        RenamesCannotReintroduce();
        ReplaceRemovesTarget(s, AUTOINCREMENT, AUTO_INCREMENT);
        Success(out)
  }

  /** Neither replacement the rewrite makes can recreate the text it replaces. */
  lemma RenamesCannotReintroduce()
    ensures CannotReintroduce(AUTOINCREMENT, AUTO_INCREMENT)
    ensures CannotReintroduce(STATEMENT_END, DYNAMIC_STATEMENT_END)
  {
    assert AUTO_INCREMENT[4] != AUTOINCREMENT[4];
    assert DYNAMIC_STATEMENT_END[1] != STATEMENT_END[1];
  }

  /** On an old release with a usable byte count, the result is the old-release stage with AUTOINCREMENT renamed. */
  lemma OldReleaseComposition(characterTakeUpBytes: int, sql: string)
    requires characterTakeUpBytes != 0
    ensures var stage := OldReleaseRewrite(sql, Div(MAX_INDEX_BYTES, characterTakeUpBytes));
      stage.Success? ==>
        SqlCompatibility(true, true, characterTakeUpBytes, sql) == Success(Replace(stage.value, AUTOINCREMENT, AUTO_INCREMENT))
  {
  }

  /** The first key length exceeds `Integer.MAX_VALUE`, so `Integer.valueOf` throws. */
  predicate KeyLengthOverflows(sql: string) {
    var k := KeyLength(sql);
    k.Some? && k.value.Failure?
  }

  /** On a current MySQL release the only change is AUTOINCREMENT becoming AUTO_INCREMENT. */
  lemma NewReleaseOnlyRenamesAutoIncrement(characterTakeUpBytes: int, sql: string)
    ensures SqlCompatibility(true, false, characterTakeUpBytes, sql) == Success(Replace(sql, AUTOINCREMENT, AUTO_INCREMENT))
    ensures !Contains(sql, AUTOINCREMENT) ==> SqlCompatibility(true, false, characterTakeUpBytes, sql) == Success(sql)
  {
  }

  /**
   On an old release, an index over a path-like column has every `);`
   replaced by `(maxLong));`, whatever keys the statement mentions.
   */
  lemma PathIndexGetsLengthLimit(characterTakeUpBytes: int, sql: string)
    requires characterTakeUpBytes != 0 && IsPathIndex(sql)
    ensures var maxLong := Div(MAX_INDEX_BYTES, characterTakeUpBytes);
      SqlCompatibility(true, true, characterTakeUpBytes, sql)
        == Success(Replace(Replace(sql, STATEMENT_END, IndexLengthEnd(maxLong)), AUTOINCREMENT, AUTO_INCREMENT))
  {
  }

  /** With one byte per character the index limit is 767 characters. */
  lemma DefaultIndexLimit()
    ensures Div(MAX_INDEX_BYTES, 1) == 767 && IndexLengthEnd(767) == "(767));"
  {
    assert NatToString(7) == "7";
    assert NatToString(76) == "76";
  }

  /**
   On an old release, a statement declaring a key (and not a path index) is
   made dynamic iff the first key length exceeds `maxLong`; every `);` then
   becomes the dynamic-row ending and none is left. Otherwise the statement
   is left as it is, apart from AUTOINCREMENT.
   */
  lemma KeyStatementDynamicIffLong(characterTakeUpBytes: int, sql: string, v: int)
    requires characterTakeUpBytes != 0 && !IsPathIndex(sql) && DeclaresKey(sql)
    requires KeyLength(sql) == Some(Success(v))
    ensures var maxLong := Div(MAX_INDEX_BYTES, characterTakeUpBytes);
      var stage := if v > maxLong then Replace(sql, STATEMENT_END, DYNAMIC_STATEMENT_END) else sql;
      && SqlCompatibility(true, true, characterTakeUpBytes, sql) == Success(Replace(stage, AUTOINCREMENT, AUTO_INCREMENT))
      && (v > maxLong ==> !Contains(stage, STATEMENT_END))
  {
    var maxLong := Div(MAX_INDEX_BYTES, characterTakeUpBytes);
    var stage := if v > maxLong then Replace(sql, STATEMENT_END, DYNAMIC_STATEMENT_END) else sql;
    assert OldReleaseRewrite(sql, maxLong) == Success(stage);
    OldReleaseComposition(characterTakeUpBytes, sql);
    RenamesCannotReintroduce();
    ReplaceRemovesTarget(sql, STATEMENT_END, DYNAMIC_STATEMENT_END);
  }

  /** A statement the pattern does not match is never made dynamic. */
  lemma UnmatchedKeyStatementUnchanged(characterTakeUpBytes: int, sql: string)
    requires characterTakeUpBytes != 0 && !IsPathIndex(sql) && FirstKeyLength(sql).None?
    ensures SqlCompatibility(true, true, characterTakeUpBytes, sql) == Success(Replace(sql, AUTOINCREMENT, AUTO_INCREMENT))
  {
  }

  // ---------------------------------------------------------------------
  // getKey
  // ---------------------------------------------------------------------

  /**
   `getKey(map, value)`: the first key, in the map's iteration order
   `keyOrder`, whose value equals `value`; None (Java's null) exactly when no
   key maps to `value`.
   */
  method GetKey(m: map<int, string>, keyOrder: seq<int>, value: string) returns (r: Option<int>)
    requires EnumeratesKeys(keyOrder, m.Keys)
    ensures r.Some? ==> r.value in m && m[r.value] == value
    ensures r.None? <==> forall k :: k in m ==> m[k] != value
    ensures r.Some? ==> exists i :: 0 <= i < |keyOrder| && keyOrder[i] == r.value &&
                                     forall j :: 0 <= j < i ==> m[keyOrder[j]] != value
  {
    var i := 0;
    while i < |keyOrder|
      invariant 0 <= i <= |keyOrder|
      invariant forall j :: 0 <= j < i ==> m[keyOrder[j]] != value
    {
      var key := keyOrder[i];
      if m[key] == value {
        return Some(key);
      }
      i := i + 1;
    }
    return None;
  }

  // ---------------------------------------------------------------------
  // The table list of getTableSetNum
  // ---------------------------------------------------------------------

  const TABLE_SEPARATOR: string := "','"

  /** No name contains a single quote, which would end its quoted item early. */
  predicate QuoteFree(names: seq<string>) {
    forall i :: 0 <= i < |names| ==> Avoids(names[i], '\'')
  }

  /** `"('" + StringUtils.join(tableSet, "','") + "')"`: the names quoted for an SQL `IN` list. */
  function TableList(tableSet: seq<string>): (r: string)
    ensures |r| >= 4 && r[..2] == "('" && r[|r| - 2..] == "')"
    ensures |tableSet| > 0 && QuoteFree(tableSet) ==> ParseTableList(r) == Some(tableSet)
    ensures |tableSet| == 0 ==> r == "('')"
  {
    var body := Join(tableSet, TABLE_SEPARATOR);
    var r := "('" + body + "')";
    assert r[2..|r| - 2] == body;
    if |tableSet| > 0 && QuoteFree(tableSet) then
      SplitJoinRoundTrip(tableSet, TABLE_SEPARATOR);
      r
    else r
  }

  /** Reads a quoted name list back into its names. */
  function ParseTableList(s: string): Option<seq<string>> {
    if |s| >= 4 && s[..2] == "('" && s[|s| - 2..] == "')" then Some(Split(s[2..|s| - 2], TABLE_SEPARATOR))
    else None
  }

  lemma TableListExample()
    ensures TableList(["a", "b"]) == "('a','b')"
  {
  }

  /** The metastore's own table names qualify for the round trip. */
  lemma TablesetListRoundTrip()
    ensures |TABLESET| == 24
    ensures ParseTableList(TableList(TABLESET)) == Some(TABLESET)
  {
    assert QuoteFree(TABLESET) by {
      forall i | 0 <= i < |TABLESET| ensures Avoids(TABLESET[i], '\'') {
      }
    }
  }

  // ---------------------------------------------------------------------
  // The DROP statements of initializeDataBase
  // ---------------------------------------------------------------------

  const DROP_PREFIX: string := "DROP TABLE IF EXISTS "

  /** The table a DROP statement names, or None for any other statement. */
  function DroppedTable(stmt: string): (r: Option<string>)
    ensures r.Some? <==> StartsWith(stmt, DROP_PREFIX)
    ensures r.Some? ==> stmt == DROP_PREFIX + r.value
  {
    if StartsWith(stmt, DROP_PREFIX) then
      assert stmt == stmt[..|DROP_PREFIX|] + stmt[|DROP_PREFIX|..];
      Some(stmt[|DROP_PREFIX|..])
    else None
  }

  /**
   The statements that clear the schema: one per table, in the same order,
   each dropping exactly that table.
   */
  method DropStatements(tables: seq<string>) returns (stmts: seq<string>)
    ensures |stmts| == |tables|
    ensures forall i :: 0 <= i < |tables| ==> stmts[i] == DROP_PREFIX + tables[i]
    ensures forall i :: 0 <= i < |tables| ==> DroppedTable(stmts[i]) == Some(tables[i])
  {
    stmts := [];
    for i := 0 to |tables|
      invariant |stmts| == i
      invariant forall j :: 0 <= j < i ==> stmts[j] == DROP_PREFIX + tables[j]
    {
      stmts := stmts + [DROP_PREFIX + tables[i]];
    }
    forall i | 0 <= i < |tables| ensures DroppedTable(stmts[i]) == Some(tables[i]) {
      assert stmts[i][..|DROP_PREFIX|] == DROP_PREFIX;
      assert stmts[i][|DROP_PREFIX|..] == tables[i];
    }
  }

  // ---------------------------------------------------------------------
  // The reserved database names
  // ---------------------------------------------------------------------

  datatype DbNameCheck = Accepted | Reserved(message: string) | MissingDbName

  function ReservedMessage(name: string): string {
    "The database " + name + " in mysql is for DB system use, please appoint other database in druid.xml."
  }

  /**
   The check made on a MySQL metastore URL's database name: refused iff the
   name equals one of DB_NAME_NOT_ALLOWED exactly. A URL without a database
   name (`dbName` is None) fails with a null dereference.
   */
  method CheckDbName(dbName: Option<string>) returns (r: DbNameCheck)
    ensures dbName.None? <==> r == MissingDbName
    ensures dbName.Some? ==> (r.Reserved? <==> dbName.value in DB_NAME_NOT_ALLOWED)
    ensures r.Reserved? ==> r.message == ReservedMessage(dbName.value)
  {
    for i := 0 to |DB_NAME_NOT_ALLOWED|
      invariant dbName.Some? ==> forall j :: 0 <= j < i ==> dbName.value != DB_NAME_NOT_ALLOWED[j]
    {
      var name := DB_NAME_NOT_ALLOWED[i];
      if dbName.None? {
        return MissingDbName;
      }
      if dbName.value == name {
        return Reserved(ReservedMessage(name));
      }
    }
    if dbName.None? {
      return MissingDbName;
    }
    return Accepted;
  }

  /** Only a MySQL URL has its database name checked. */
  method CheckMetastoreUrl(url: string, dbName: Option<string>) returns (r: DbNameCheck)
    ensures !StartsWith(url, MYSQL_URL_PREFIX) ==> r == Accepted
    ensures StartsWith(url, MYSQL_URL_PREFIX) && dbName.Some? ==> (r.Reserved? <==> dbName.value in DB_NAME_NOT_ALLOWED)
    ensures StartsWith(url, MYSQL_URL_PREFIX) && dbName.None? ==> r == MissingDbName
  {
    if StartsWith(url, MYSQL_URL_PREFIX) {
      r := CheckDbName(dbName);
    } else {
      r := Accepted;
    }
  }

  /** The comparison is exact: other spellings of the system names are accepted. */
  lemma ReservedNamesAreCaseSensitive()
    ensures "mysql" in DB_NAME_NOT_ALLOWED && "MYSQL" !in DB_NAME_NOT_ALLOWED
    ensures "sys" in DB_NAME_NOT_ALLOWED && "SYS" !in DB_NAME_NOT_ALLOWED
    ensures "INFORMATION_SCHEMA" in DB_NAME_NOT_ALLOWED && "Information_Schema" !in DB_NAME_NOT_ALLOWED
  {
  }
}
