/**
 * The request handlers of the local HTTP service (src/main/api.ts): request
 * validation, the schema listing grouped by schema, and the DDL text that the
 * column endpoints send to the database. A handler is modelled by the SQL it
 * issues, in order, and the HTTP reply it gives, assuming that every statement
 * the database receives succeeds.
 */
module Api {
  import opened JsText

  datatype Reply = Reply(status: nat, message: string)

  /** What one request did: the statements sent to the database, in order, and
      the reply. */
  datatype Handled = Handled(sql: seq<string>, reply: Reply)

  const MissingFields := "Missing required fields"

  /** The TypeError message V8 gives when `type.toLowerCase` is called on a
      value that is not a string. */
  const TypeNotString := "type.toLowerCase is not a function"

  // ---------------------------------------------------------------------------
  // Request validation
  // ---------------------------------------------------------------------------

  /** POST /api/connect: one probe query once a connection string is given. */
  function Connect(connectionString: JsValue): (h: Handled)
    ensures h.reply.status == 400 <==> !Truthy(connectionString)
    ensures h.reply.status == 400 ==> h.sql == [] && h.reply.message == "connectionString is required"
    ensures h.reply.status != 400 ==> h.sql == ["SELECT NOW()"] && h.reply.status == 200
  {
    if !Truthy(connectionString) then Handled([], Reply(400, "connectionString is required"))
    else Handled(["SELECT NOW()"], Reply(200, "Connection successful!"))
  }

  datatype Checked = Missing(error: string) | Proceed(params: seq<JsValue>)

  /** POST /api/getTableStructure: the fields are checked in the order
      connectionString, schema, table and the first missing one is named; a
      complete request runs the column introspection query bound to
      (schema, table). */
  function GetTableStructure(connectionString: JsValue, schema: JsValue, table: JsValue): (r: Checked)
    ensures r.Missing? <==> !(Truthy(connectionString) && Truthy(schema) && Truthy(table))
    ensures r == Missing("connectionString is required in body") <==> !Truthy(connectionString)
    ensures r == Missing("schema is required in body") <==> (Truthy(connectionString) && !Truthy(schema))
    ensures (r == Missing("table is required in body"))
            <==> (Truthy(connectionString) && Truthy(schema) && !Truthy(table))
    ensures r.Proceed? ==> r.params == [schema, table]
  {
    if !Truthy(connectionString) then Missing("connectionString is required in body")
    else if !Truthy(schema) then Missing("schema is required in body")
    else if !Truthy(table) then Missing("table is required in body")
    else Proceed([schema, table])
  }

  // ---------------------------------------------------------------------------
  // POST /api/getTablesAndSchemas: grouping (table_schema, table_name) rows
  // ---------------------------------------------------------------------------

  function SchemasOf(rows: seq<(string, string)>): set<string>
  {
    set k | 0 <= k < |rows| :: rows[k].0
  }

  /** The table names of one schema, in the order the rows list them. */
  function TablesOf(rows: seq<(string, string)>, schema: string): seq<string>
  {
    if rows == [] then []
    else
      var last := rows[|rows| - 1];
      TablesOf(rows[..|rows| - 1], schema) + (if last.0 == schema then [last.1] else [])
  }

  /** The reduce that pushes each row's table name onto its schema's list. */
  method GroupRows(rows: seq<(string, string)>) returns (grouped: map<string, seq<string>>)
    ensures grouped.Keys == SchemasOf(rows)
    ensures forall s | s in grouped :: grouped[s] == TablesOf(rows, s)
  {
    grouped := map[];
    var i := 0;
    while i < |rows|
      invariant 0 <= i <= |rows|
      invariant grouped.Keys == SchemasOf(rows[..i])
      invariant forall s | s in grouped :: grouped[s] == TablesOf(rows[..i], s)
      invariant forall s | s !in grouped :: TablesOf(rows[..i], s) == []
    {
      var (schema, table) := rows[i];
      GroupStep(rows, i);
      if schema !in grouped {
        grouped := grouped[schema := []];
      }
      grouped := grouped[schema := grouped[schema] + [table]];
      i := i + 1;
    }
    assert rows[..|rows|] == rows;
  }

  /** One more row adds its schema and extends that schema's list only. */
  lemma GroupStep(rows: seq<(string, string)>, i: nat)
    requires i < |rows|
    ensures SchemasOf(rows[..i + 1]) == SchemasOf(rows[..i]) + {rows[i].0}
    ensures forall s :: TablesOf(rows[..i + 1], s)
                        == TablesOf(rows[..i], s) + (if rows[i].0 == s then [rows[i].1] else [])
  {
    assert rows[..i + 1][..i] == rows[..i];
    assert rows[..i + 1] == rows[..i] + [rows[i]];
  }

  /** How many rows before position i belong to the given schema. */
  function CountBefore(rows: seq<(string, string)>, i: nat, schema: string): nat
    requires i <= |rows|
  {
    |TablesOf(rows[..i], schema)|
  }

  lemma {:induction false} TablesOfPrefix(rows: seq<(string, string)>, i: nat, schema: string)
    requires i <= |rows|
    ensures TablesOf(rows[..i], schema) <= TablesOf(rows, schema)
    decreases |rows| - i
  {
    if i < |rows| {
      TablesOfPrefix(rows, i + 1, schema);
      assert rows[..i + 1][..i] == rows[..i];
    } else {
      assert rows[..i] == rows;
    }
  }

  /** No row is lost and the input order is kept: row i's table name stands in
      its schema's list at the position given by the rows before it. */
  lemma GroupedRowPosition(rows: seq<(string, string)>, i: nat)
    requires i < |rows|
    ensures CountBefore(rows, i, rows[i].0) < |TablesOf(rows, rows[i].0)|
    ensures TablesOf(rows, rows[i].0)[CountBefore(rows, i, rows[i].0)] == rows[i].1
  {
    var s := rows[i].0;
    assert rows[..i + 1][..i] == rows[..i];
    assert TablesOf(rows[..i + 1], s) == TablesOf(rows[..i], s) + [rows[i].1];
    TablesOfPrefix(rows, i + 1, s);
  }

  /** Two rows of the same schema occupy different positions, the earlier row
      first, so nothing is duplicated. */
  lemma GroupedPositionsIncrease(rows: seq<(string, string)>, i: nat, j: nat)
    requires i < j < |rows| && rows[i].0 == rows[j].0
    ensures CountBefore(rows, i, rows[i].0) < CountBefore(rows, j, rows[j].0)
  {
    var s := rows[i].0;
    assert rows[..i + 1][..i] == rows[..i];
    assert |TablesOf(rows[..i + 1], s)| == CountBefore(rows, i, s) + 1;
    assert rows[..j][..i + 1] == rows[..i + 1];
    TablesOfPrefix(rows[..j], i + 1, s);
  }

  /** The names that a plain object `{}` already answers for through
      Object.prototype; reading any of them yields a truthy value without a
      `push` method. */
  const PrototypeKeys: set<string> := {
    "constructor", "__proto__", "__defineGetter__", "__defineSetter__",
    "__lookupGetter__", "__lookupSetter__", "hasOwnProperty", "isPrototypeOf",
    "propertyIsEnumerable", "toLocaleString", "toString", "valueOf"
  }

  /** The reduce as written in api.ts: an accumulator `{}` whose lookup
      `acc[table_schema]` also sees Object.prototype, so a schema named like an
      inherited member skips the initialisation and `push` throws a TypeError
      (the handler then answers 500). None stands for that failure. */
  function GroupedAsWritten(rows: seq<(string, string)>): (r: Option<map<string, seq<string>>>)
    ensures r.None? <==> exists k | 0 <= k < |rows| :: rows[k].0 in PrototypeKeys
    ensures r.Some? ==> r.value.Keys == SchemasOf(rows)
  {
    if exists k | 0 <= k < |rows| :: rows[k].0 in PrototypeKeys then None
    else Some(map s | s in SchemasOf(rows) :: TablesOf(rows, s))
  }

  /** A database with a schema named "constructor" makes the listing fail,
      although the grouping has a perfectly good answer for it. */
  lemma PrototypeSchemaBreaksListing()
    ensures GroupedAsWritten([("constructor", "users")]) == None
    ensures TablesOf([("constructor", "users")], "constructor") == ["users"]
  {
    var rows := [("constructor", "users")];
    assert rows[0].0 in PrototypeKeys;
    assert rows[..0] == [];
  }

  /** POST /api/getTablesAndSchemas: the grouped listing, once a connection
      string is given. The listing query is taken to return `rows`. */
  method GetTablesAndSchemas(connectionString: JsValue, rows: seq<(string, string)>)
    returns (status: nat, error: string, grouped: map<string, seq<string>>)
    ensures status == 400 <==> !Truthy(connectionString)
    ensures status == 400 ==> error == "connectionString is required in body" && grouped == map[]
    ensures status != 400 ==> status == 200 && grouped.Keys == SchemasOf(rows)
    ensures status != 400 ==> forall s | s in grouped :: grouped[s] == TablesOf(rows, s)
  {
    if !Truthy(connectionString) {
      return 400, "connectionString is required in body", map[];
    }
    grouped := GroupRows(rows);
    status, error := 200, "";
  }

  // ---------------------------------------------------------------------------
  // Column type, nullability and default clauses
  // ---------------------------------------------------------------------------

  /** `VARCHAR(n)` applies when the type is varchar (any case) and a truthy
      maximum length is given; n is parseInt(maxLength, 10), NaN included. */
  predicate HasVarcharLength(sqlType: string, maxLength: JsValue)
  {
    ToLower(sqlType) == "varchar" && Truthy(maxLength)
  }

  function VarcharType(maxLength: JsValue): string
  {
    "VARCHAR(" + ParsedText(ParseInt(ToText(maxLength))) + ")"
  }

  /** The column type addColumn uses: the type as given unless it is a varchar
      with a length. */
  function AddColumnType(sqlType: string, maxLength: JsValue): (r: string)
    ensures HasVarcharLength(sqlType, maxLength) ==> r == VarcharType(maxLength)
    ensures !HasVarcharLength(sqlType, maxLength) ==> r == sqlType
  {
    if HasVarcharLength(sqlType, maxLength) then VarcharType(maxLength) else sqlType
  }

  /** The column type editColumn uses: as addColumn, but the fallback is the
      type in upper case. */
  function EditColumnType(sqlType: string, maxLength: JsValue): (r: string)
    ensures HasVarcharLength(sqlType, maxLength) ==> r == VarcharType(maxLength)
    ensures !HasVarcharLength(sqlType, maxLength) ==> r == ToUpper(sqlType)
  {
    if HasVarcharLength(sqlType, maxLength) then VarcharType(maxLength) else ToUpper(sqlType)
  }

  /** A numeric maximum length comes out as that number. */
  lemma VarcharOfNumber(n: int)
    requires n != 0
    ensures VarcharType(Num(n)) == "VARCHAR(" + IntToDecimal(n) + ")"
  {
    ParseIntOfDecimal(n);
  }

  /** A digit string comes out as its value, leading zeros dropped. */
  lemma VarcharOfDigits(ds: string)
    requires ds != [] && AllDigits(ds)
    ensures VarcharType(Str(ds)) == "VARCHAR(" + IntToDecimal(DigitsValue(ds)) + ")"
  {
    ParseIntOfDigits(ds);
  }

  function NullClause(allowNull: JsValue): (r: string)
    ensures r == "NULL" <==> Truthy(allowNull)
    ensures r == "NOT NULL" <==> !Truthy(allowNull)
  {
    if Truthy(allowNull) then "NULL" else "NOT NULL"
  }

  /** Types whose default value is written as a quoted string literal. */
  predicate IsTextType(sqlType: string)
  {
    var lower := ToLower(sqlType);
    lower == "text" || lower == "varchar" || lower == "char"
  }

  /** The default value as it is written into the SQL, if there is one: absent
      exactly for undefined and the empty string (null is a default), quoted for
      the text types, bare otherwise; nothing is escaped. */
  function DefaultLiteral(sqlType: string, defaultValue: JsValue): (r: Option<string>)
    ensures r.None? <==> defaultValue == Undefined || defaultValue == Str("")
    ensures r.Some? && IsTextType(sqlType) ==> r.value == "'" + ToText(defaultValue) + "'"
    ensures r.Some? && !IsTextType(sqlType) ==> r.value == ToText(defaultValue)
  {
    if defaultValue == Undefined || defaultValue == Str("") then None
    else if IsTextType(sqlType) then Some("'" + ToText(defaultValue) + "'")
    else Some(ToText(defaultValue))
  }

  function DefaultClause(sqlType: string, defaultValue: JsValue): (r: string)
    ensures r == "" <==> defaultValue == Undefined || defaultValue == Str("")
    ensures r != "" ==> r == "DEFAULT " + DefaultLiteral(sqlType, defaultValue).value
  {
    match DefaultLiteral(sqlType, defaultValue)
    case None => ""
    case Some(lit) => "DEFAULT " + lit
  }

  // ---------------------------------------------------------------------------
  // POST /api/addColumn and /api/deleteColumn
  // ---------------------------------------------------------------------------

  datatype AddColumnRequest = AddColumnRequest(
    connectionString: JsValue, schema: JsValue, table: JsValue, name: JsValue,
    sqlType: JsValue, defaultValue: JsValue, maxLength: JsValue, allowNull: JsValue)

  predicate AddColumnComplete(req: AddColumnRequest)
  {
    Truthy(req.connectionString) && Truthy(req.schema) && Truthy(req.table)
    && Truthy(req.name) && Truthy(req.sqlType)
  }

  /** pieces[0] + '"' + pieces[1] + '"' + ... + pieces[n-1] + '"' + tail: the
      statement texts below are written as the pieces between their double
      quotes. */
  function Quoted(pieces: seq<string>, tail: string): string
  {
    if pieces == [] then tail else pieces[0] + ['"'] + Quoted(pieces[1..], tail)
  }

  /** Joining quote-free pieces with quotes and splitting on quotes gives the
      pieces back, followed by the pieces of the tail. */
  lemma {:induction false} QuotedPieces(pieces: seq<string>, tail: string)
    requires forall k | 0 <= k < |pieces| :: '"' !in pieces[k]
    ensures Split(Quoted(pieces, tail), '"') == pieces + Split(tail, '"')
  {
    if pieces == [] {
      assert Quoted(pieces, tail) == tail;
    } else {
      var rest := Quoted(pieces[1..], tail);
      QuotedPieces(pieces[1..], tail);
      assert Quoted(pieces, tail) == pieces[0] + ['"'] + rest;
      SplitAfterFirst(pieces[0], rest, '"');
      assert pieces == [pieces[0]] + pieces[1..];
      AppendAssociates([pieces[0]], pieces[1..], Split(tail, '"'));
    }
  }

  /** The text of the statement
      ALTER TABLE "schema"."table" ADD COLUMN "name" type null-clause default-clause; */
  function AddColumnSql(schema: string, table: string, name: string, columnType: string,
                        nullClause: string, defaultClause: string): string
  {
    Quoted(["\n        ALTER TABLE ", schema, ".", table, "\n        ADD COLUMN ", name],
           " " + columnType + " " + nullClause + " " + defaultClause + ";\n      ")
  }

  function AddColumn(req: AddColumnRequest): (h: Handled)
    ensures h.reply.status == 400 <==> !AddColumnComplete(req)
    ensures h.reply.status == 400 ==> h.sql == [] && h.reply.message == MissingFields
    ensures h.reply.status == 500 <==> AddColumnComplete(req) && !req.sqlType.Str?
    ensures h.reply.status == 500 ==> h.sql == [] && h.reply.message == TypeNotString
    ensures AddColumnComplete(req) && req.sqlType.Str? ==>
      h.reply.status == 200 && h.reply.message == "Column added successfully"
    ensures h.reply.status == 200 ==> |h.sql| == 1 && req.sqlType.Str?
    ensures h.reply.status == 200 ==>
      h.sql[0] == AddColumnSql(ToText(req.schema), ToText(req.table), ToText(req.name),
                               AddColumnType(req.sqlType.s, req.maxLength),
                               NullClause(req.allowNull),
                               DefaultClause(req.sqlType.s, req.defaultValue))
  {
    if !AddColumnComplete(req) then Handled([], Reply(400, MissingFields))
    else if !req.sqlType.Str? then Handled([], Reply(500, TypeNotString))
    else
      var sql := AddColumnSql(ToText(req.schema), ToText(req.table), ToText(req.name),
                              AddColumnType(req.sqlType.s, req.maxLength),
                              NullClause(req.allowNull),
                              DefaultClause(req.sqlType.s, req.defaultValue));
      Handled([sql], Reply(200, "Column added successfully"))
  }

  /** For identifiers without a double quote, the quoted names of the
      statement are exactly the requested schema, table and column. */
  lemma AddColumnNamesItsTarget(schema: string, table: string, name: string, columnType: string,
                                nullClause: string, defaultClause: string)
    requires '"' !in schema && '"' !in table && '"' !in name
    ensures var parts := Split(AddColumnSql(schema, table, name, columnType, nullClause, defaultClause), '"');
            |parts| >= 6 && parts[1] == schema && parts[3] == table && parts[5] == name
  {
    QuotedTarget("\n        ALTER TABLE ", schema, ".", table, "\n        ADD COLUMN ", name,
                 " " + columnType + " " + nullClause + " " + defaultClause + ";\n      ");
  }

  /** The six pieces of an ALTER TABLE statement come back from a split on
      '"' in their places. */
  lemma QuotedTarget(lead: string, schema: string, dot: string, table: string, clause: string,
                     column: string, tail: string)
    requires '"' !in lead && '"' !in schema && '"' !in dot && '"' !in table
    requires '"' !in clause && '"' !in column
    ensures var parts := Split(Quoted([lead, schema, dot, table, clause, column], tail), '"');
            |parts| >= 6 && parts[1] == schema && parts[3] == table && parts[5] == column
  {
    QuotedPieces([lead, schema, dot, table, clause, column], tail);
  }

  datatype DeleteColumnRequest = DeleteColumnRequest(
    connectionString: JsValue, schema: JsValue, table: JsValue, column: JsValue)

  /** ALTER TABLE "schema"."table" DROP COLUMN "column" */
  function DeleteColumnSql(schema: string, table: string, column: string): string
  {
    Quoted(["\n        ALTER TABLE ", schema, ".", table, "\n        DROP COLUMN ", column], "\n      ")
  }

  function DeleteColumn(req: DeleteColumnRequest): (h: Handled)
    ensures h.reply.status == 400 <==>
      !(Truthy(req.connectionString) && Truthy(req.schema) && Truthy(req.table) && Truthy(req.column))
    ensures h.reply.status == 400 ==> h.sql == [] && h.reply.message == MissingFields
    ensures h.reply.status != 400 ==> h.reply.status == 200
    ensures h.reply.status == 200 ==>
      h.sql == [DeleteColumnSql(ToText(req.schema), ToText(req.table), ToText(req.column))]
    ensures h.reply.status == 200 ==>
      h.reply.message == "Column " + ToText(req.column) + " deleted from table "
                         + ToText(req.schema) + "." + ToText(req.table)
  {
    if !(Truthy(req.connectionString) && Truthy(req.schema) && Truthy(req.table) && Truthy(req.column)) then
      Handled([], Reply(400, MissingFields))
    else
      var schema, table, column := ToText(req.schema), ToText(req.table), ToText(req.column);
      Handled([DeleteColumnSql(schema, table, column)],
              Reply(200, "Column " + column + " deleted from table " + schema + "." + table))
  }

  // ---------------------------------------------------------------------------
  // POST /api/editColumn
  // ---------------------------------------------------------------------------

  datatype EditColumnRequest = EditColumnRequest(
    connectionString: JsValue, schema: JsValue, table: JsValue, oldName: JsValue,
    newName: JsValue, sqlType: JsValue, defaultValue: JsValue, maxLength: JsValue,
    allowNull: JsValue)

  predicate EditColumnComplete(req: EditColumnRequest)
  {
    Truthy(req.connectionString) && Truthy(req.schema) && Truthy(req.table)
    && Truthy(req.oldName) && Truthy(req.newName) && Truthy(req.sqlType)
  }

  /** The statements editColumn sends, before they are rendered as text. */
  datatype Stmt =
    | Begin | Commit | Rollback
    | RenameColumn(from: string, to: string)
    | SetType(column: string, columnType: string)
    | SetBooleanType(column: string)
    | DropNotNull(column: string) | SetNotNull(column: string)
    | SetDefault(column: string, literal: string) | DropDefault(column: string)

  datatype StmtKind = Transaction | Rename | TypeChange | Nullability | DefaultChange

  function Kind(st: Stmt): StmtKind
  {
    match st
    case Begin => Transaction
    case Commit => Transaction
    case Rollback => Transaction
    case RenameColumn(_, _) => Rename
    case SetType(_, _) => TypeChange
    case SetBooleanType(_) => TypeChange
    case DropNotNull(_) => Nullability
    case SetNotNull(_) => Nullability
    case SetDefault(_, _) => DefaultChange
    case DropDefault(_) => DefaultChange
  }

  function Kinds(plan: seq<Stmt>): (r: seq<StmtKind>)
    ensures |r| == |plan|
    ensures forall k | 0 <= k < |plan| :: r[k] == Kind(plan[k])
  {
    seq(|plan|, k requires 0 <= k < |plan| => Kind(plan[k]))
  }

  /** The statement sequence of editColumn for a complete request: BEGIN, a
      RENAME when the name changes, one type change, one nullability change,
      one default change, COMMIT. A type that is not a string makes
      `toLowerCase` throw after the rename, and the handler rolls back. */
  function EditPlan(req: EditColumnRequest): seq<Stmt>
    requires EditColumnComplete(req)
  {
    var rename := RenamePart(req);
    if !req.sqlType.Str? then [Begin] + rename + [Rollback]
    else
      var newName, sqlType := ToText(req.newName), req.sqlType.s;
      [Begin] + rename
      + [TypeChangeOf(newName, sqlType, req.maxLength),
         NullabilityOf(newName, req.allowNull),
         DefaultChangeOf(newName, sqlType, req.defaultValue),
         Commit]
  }

  /** The RENAME, issued only when the name changes (compared as given). */
  function RenamePart(req: EditColumnRequest): seq<Stmt>
  {
    if req.oldName != req.newName then [RenameColumn(ToText(req.oldName), ToText(req.newName))] else []
  }

  /** The type change: the boolean conversion exactly for the type boolean
      (any case), otherwise the column type as editColumn computes it. */
  function TypeChangeOf(column: string, sqlType: string, maxLength: JsValue): (r: Stmt)
    ensures Kind(r) == TypeChange && AltersColumn(r) && r.column == column
    ensures r.SetBooleanType? <==> ToLower(sqlType) == "boolean"
    ensures r.SetType? ==> r.columnType == EditColumnType(sqlType, maxLength)
  {
    if ToLower(sqlType) == "boolean" then SetBooleanType(column)
    else SetType(column, EditColumnType(sqlType, maxLength))
  }

  function NullabilityOf(column: string, allowNull: JsValue): (r: Stmt)
    ensures Kind(r) == Nullability && AltersColumn(r) && r.column == column
    ensures r.DropNotNull? <==> Truthy(allowNull)
  {
    if Truthy(allowNull) then DropNotNull(column) else SetNotNull(column)
  }

  /** The default change: SET DEFAULT with the literal addColumn would also
      use, or DROP DEFAULT when there is none. */
  function DefaultChangeOf(column: string, sqlType: string, defaultValue: JsValue): (r: Stmt)
    ensures Kind(r) == DefaultChange && AltersColumn(r) && r.column == column
    ensures r.DropDefault? <==> DefaultLiteral(sqlType, defaultValue).None?
    ensures r.SetDefault? ==> r.literal == DefaultLiteral(sqlType, defaultValue).value
  {
    match DefaultLiteral(sqlType, defaultValue)
    case Some(lit) => SetDefault(column, lit)
    case None => DropDefault(column)
  }

  /** ALTER TABLE "schema"."table" ALTER COLUMN "column" <action>; */
  function AlterColumnSql(schema: string, table: string, column: string, action: string): string
  {
    Quoted(["\n          ALTER TABLE ", schema, ".", table, "\n          ALTER COLUMN ", column],
           " " + action + ";\n        ")
  }

  /** The statements that alter one column of the table. */
  predicate AltersColumn(st: Stmt)
  {
    st.SetType? || st.SetBooleanType? || st.DropNotNull? || st.SetNotNull?
    || st.SetDefault? || st.DropDefault?
  }

  /** What an ALTER COLUMN statement does to its column; the boolean
      conversion maps the text 'true' to true and everything else to false. */
  function AlterAction(st: Stmt): string
    requires AltersColumn(st)
  {
    match st
    case SetType(_, columnType) => "TYPE " + columnType
    case SetBooleanType(column) =>
      "TYPE boolean USING\n          CASE WHEN \"" + column + "\"::text = 'true' THEN true ELSE false END"
    case DropNotNull(_) => "DROP NOT NULL"
    case SetNotNull(_) => "SET NOT NULL"
    case SetDefault(_, literal) => "SET DEFAULT " + literal
    case DropDefault(_) => "DROP DEFAULT"
  }

  /** The text sent to the database for one statement. */
  function Render(schema: string, table: string, st: Stmt): string
  {
    match st
    case Begin => "BEGIN"
    case Commit => "COMMIT"
    case Rollback => "ROLLBACK"
    case RenameColumn(from, to) =>
      Quoted(["\n          ALTER TABLE ", schema, ".", table, " \n          RENAME COLUMN ", from, " TO ", to],
             ";\n        ")
    case _ => AlterColumnSql(schema, table, st.column, AlterAction(st))
  }

  function RenderAll(schema: string, table: string, plan: seq<Stmt>): (r: seq<string>)
    ensures |r| == |plan|
    ensures forall k | 0 <= k < |plan| :: r[k] == Render(schema, table, plan[k])
  {
    seq(|plan|, k requires 0 <= k < |plan| => Render(schema, table, plan[k]))
  }

  /** The handler: the statements are issued one after another; a failing
      `toLowerCase` aborts the sequence after the rename and rolls back. */
  method EditColumn(req: EditColumnRequest) returns (h: Handled)
    ensures h.reply.status == 400 <==> !EditColumnComplete(req)
    ensures h.reply.status == 400 ==> h.sql == [] && h.reply.message == MissingFields
    ensures h.reply.status == 500 <==> EditColumnComplete(req) && !req.sqlType.Str?
    ensures h.reply.status == 500 ==> h.reply.message == TypeNotString
    ensures EditColumnComplete(req) && req.sqlType.Str? ==> h.reply.status == 200
    ensures h.reply.status == 200 ==> h.reply.message == "Column edited successfully"
    ensures EditColumnComplete(req) ==>
      h.sql == RenderAll(ToText(req.schema), ToText(req.table), EditPlan(req))
  {
    if !EditColumnComplete(req) {
      return Handled([], Reply(400, MissingFields));
    }
    var newName := ToText(req.newName);
    var issued: seq<Stmt> := [Begin];
    if req.oldName != req.newName {
      issued := issued + [RenameColumn(ToText(req.oldName), newName)];
    }
    assert issued == [Begin] + RenamePart(req);
    var schema, table := ToText(req.schema), ToText(req.table);
    if !req.sqlType.Str? {
      issued := issued + [Rollback];
      return Handled(RenderAll(schema, table, issued), Reply(500, TypeNotString));
    }
    var sqlType := req.sqlType.s;
    var changes := ColumnChanges(newName, sqlType, req.maxLength, req.allowNull, req.defaultValue);
    issued := issued + changes + [Commit];
    assert issued == EditPlan(req);
    h := Handled(RenderAll(schema, table, issued), Reply(200, "Column edited successfully"));
  }

  /** The three ALTER COLUMN statements of a successful edit, issued one
      after another: the type, the nullability, the default. */
  method ColumnChanges(newName: string, sqlType: string, maxLength: JsValue, allowNull: JsValue,
                       defaultValue: JsValue) returns (changes: seq<Stmt>)
    ensures changes == [TypeChangeOf(newName, sqlType, maxLength), NullabilityOf(newName, allowNull),
                        DefaultChangeOf(newName, sqlType, defaultValue)]
  {
    var typeChange, nullability, defaultChange;
    if ToLower(sqlType) == "boolean" {
      typeChange := SetBooleanType(newName);
    } else {
      typeChange := SetType(newName, EditColumnType(sqlType, maxLength));
    }
    assert typeChange == TypeChangeOf(newName, sqlType, maxLength);
    if Truthy(allowNull) {
      nullability := DropNotNull(newName);
    } else {
      nullability := SetNotNull(newName);
    }
    match DefaultLiteral(sqlType, defaultValue) {
      case Some(lit) => defaultChange := SetDefault(newName, lit);
      case None => defaultChange := DropDefault(newName);
    }
    assert defaultChange == DefaultChangeOf(newName, sqlType, defaultValue);
    changes := [typeChange, nullability, defaultChange];
  }

  /** The fixed order of a successful edit: BEGIN, an optional RENAME, a type
      change, a nullability change, a default change, COMMIT. */
  lemma EditPlanOrder(req: EditColumnRequest)
    requires EditColumnComplete(req) && req.sqlType.Str?
    ensures var plan := EditPlan(req);
      && Kinds(plan) == [Transaction] + (if req.oldName != req.newName then [Rename] else [])
                        + [TypeChange, Nullability, DefaultChange, Transaction]
      && plan[0] == Begin && plan[|plan| - 1] == Commit
  {
    var newName, sqlType := ToText(req.newName), req.sqlType.s;
    var t := TypeChangeOf(newName, sqlType, req.maxLength);
    var n := NullabilityOf(newName, req.allowNull);
    var d := DefaultChangeOf(newName, sqlType, req.defaultValue);
    assert EditPlan(req) == [Begin] + RenamePart(req) + [t, n, d, Commit];
  }

  /** A successful edit changes each aspect of the column exactly once, renames
      it at most once, and opens and closes one transaction. */
  lemma EditPlanCounts(req: EditColumnRequest)
    requires EditColumnComplete(req) && req.sqlType.Str?
    ensures var counts := multiset(Kinds(EditPlan(req)));
      && counts[Rename] == (if req.oldName != req.newName then 1 else 0)
      && counts[TypeChange] == 1 && counts[Nullability] == 1 && counts[DefaultChange] == 1
      && counts[Transaction] == 2
  {
    EditPlanOrder(req);
    var ks := Kinds(EditPlan(req));
    if req.oldName != req.newName {
      KindCounts(ks, [Rename]);
    } else {
      KindCounts(ks, []);
    }
  }

  lemma KindCounts(ks: seq<StmtKind>, renames: seq<StmtKind>)
    requires renames == [] || renames == [Rename]
    requires ks == [Transaction] + renames + [TypeChange, Nullability, DefaultChange, Transaction]
    ensures multiset(ks)[Rename] == |renames|
    ensures multiset(ks)[TypeChange] == 1 && multiset(ks)[Nullability] == 1
    ensures multiset(ks)[DefaultChange] == 1 && multiset(ks)[Transaction] == 2
  {
    var changes := [TypeChange, Nullability, DefaultChange, Transaction];
    assert multiset(ks) == multiset([Transaction]) + multiset(renames) + multiset(changes);
    assert multiset(changes) == multiset{TypeChange, Nullability, DefaultChange, Transaction};
    assert multiset(renames) == if renames == [] then multiset{} else multiset{Rename};
  }

  /** A type that is not a string leaves the table as it was: the transaction
      holds at most the rename, and it is rolled back. */
  lemma EditAbortRollsBack(req: EditColumnRequest)
    requires EditColumnComplete(req) && !req.sqlType.Str?
    ensures var plan := EditPlan(req);
      && plan[0] == Begin && plan[|plan| - 1] == Rollback
      && (forall k | 0 < k < |plan| - 1 :: plan[k].RenameColumn?)
      && Commit !in plan
  {
  }

  /** What each statement of a successful edit says: the rename goes from the
      old to the new name, the boolean conversion is chosen exactly for the
      boolean type, the nullability and default changes follow allowNull and
      the default value, and every statement after the rename targets the new
      name. */
  lemma EditPlanContents(req: EditColumnRequest)
    requires EditColumnComplete(req) && req.sqlType.Str?
    ensures var plan := EditPlan(req);
      var newName := ToText(req.newName);
      var r := if req.oldName != req.newName then 1 else 0;
      var sqlType := req.sqlType.s;
      && (r == 1 ==> plan[1] == RenameColumn(ToText(req.oldName), newName))
      && (plan[r + 1].SetBooleanType? <==> ToLower(sqlType) == "boolean")
      && (plan[r + 1].SetType? ==> plan[r + 1].columnType == EditColumnType(sqlType, req.maxLength))
      && (plan[r + 2] == DropNotNull(newName) <==> Truthy(req.allowNull))
      && (plan[r + 2] == SetNotNull(newName) <==> !Truthy(req.allowNull))
      && (plan[r + 3].DropDefault? <==> DefaultClause(sqlType, req.defaultValue) == "")
      && (plan[r + 3].SetDefault? ==>
            "DEFAULT " + plan[r + 3].literal == DefaultClause(sqlType, req.defaultValue))
      && (forall k | r + 1 <= k < r + 4 :: plan[k].column == newName)
  {
  }

  /** A request whose old and new names are equal issues no RENAME. */
  lemma EditWithoutRenameHasNoRename(req: EditColumnRequest)
    requires EditColumnComplete(req) && req.oldName == req.newName
    ensures forall k | 0 <= k < |EditPlan(req)| :: !EditPlan(req)[k].RenameColumn?
  {
  }

  /** For identifiers without a double quote, every ALTER COLUMN statement of
      the edit names the requested schema, table and the new column name. */
  lemma AlterColumnNamesItsTarget(schema: string, table: string, st: Stmt)
    requires AltersColumn(st)
    requires '"' !in schema && '"' !in table && '"' !in st.column
    ensures var parts := Split(Render(schema, table, st), '"');
            |parts| >= 6 && parts[1] == schema && parts[3] == table && parts[5] == st.column
  {
    assert Render(schema, table, st) == AlterColumnSql(schema, table, st.column, AlterAction(st));
    QuotedTarget("\n          ALTER TABLE ", schema, ".", table, "\n          ALTER COLUMN ", st.column,
                 " " + AlterAction(st) + ";\n        ");
  }

  /** addColumn and editColumn decide the default the same way: a DEFAULT
      clause on add exactly when the edit sets a default, with the same value. */
  lemma AddAndEditAgreeOnDefault(sqlType: string, defaultValue: JsValue, req: EditColumnRequest)
    requires EditColumnComplete(req) && req.sqlType == Str(sqlType) && req.defaultValue == defaultValue
    ensures var plan := EditPlan(req);
      var st := plan[|plan| - 2];
      && (st.SetDefault? <==> DefaultClause(sqlType, defaultValue) != "")
      && (st.SetDefault? ==> DefaultClause(sqlType, defaultValue) == "DEFAULT " + st.literal)
  {
  }
}
