/**
 * The structure tab of a table (src/renderer/component/DB/Structure.jsx):
 * the add/edit column modal with its form, the page that lists the columns
 * and sends the column requests of the backend, and the split of the
 * qualified table name. The React state of the modal and of the page are
 * the fields of a ColumnModal and a StructurePage object; the modal is
 * re-initialised whenever the page's `editingColumn` changes, as its effect
 * does. Requests are returned as the bodies the backend receives.
 */
module Structure {
  import opened JsText
  import Api
  import DbPage
  import Content

  /** The five fields of the column form: the name, the selected type, the
      default value and maximum length as typed, and the Allow Null box. */
  datatype ColumnData = ColumnData(name: string, sqlType: string, defaultValue: string,
                                   maxLength: JsValue, allowNull: bool)

  /** The form of an Add Column modal. */
  const EmptyForm := ColumnData("", "text", "", Str(""), false)

  const NameRequired := "Name is required"

  /** The six types the type select offers. */
  const TypeOptions := ["text", "integer", "boolean", "date", "varchar", "float"]

  /** `given || fallback` on a string field. */
  function OrText(given: string, fallback: string): (r: string)
    ensures given != "" ==> r == given
    ensures given == "" ==> r == fallback
  {
    if given != "" then given else fallback
  }

  /** `given || fallback` on any value. */
  function OrValue(given: JsValue, fallback: JsValue): (r: JsValue)
    ensures Truthy(given) ==> r == given
    ensures !Truthy(given) ==> r == fallback
  {
    if Truthy(given) then given else fallback
  }

  /** The form the modal's effect sets up: the empty form without initial
      data, and otherwise the initial data with every falsy field replaced
      by the empty form's value for it. */
  function ResetForm(initialData: Option<ColumnData>): (f: ColumnData)
    ensures initialData.None? ==> f == EmptyForm
    ensures initialData.Some? ==>
      var d := initialData.value;
      && (d.name != "" ==> f.name == d.name) && (d.name == "" ==> f.name == EmptyForm.name)
      && (d.sqlType != "" ==> f.sqlType == d.sqlType) && (d.sqlType == "" ==> f.sqlType == EmptyForm.sqlType)
      && (d.defaultValue != "" ==> f.defaultValue == d.defaultValue)
      && (d.defaultValue == "" ==> f.defaultValue == EmptyForm.defaultValue)
      && (Truthy(d.maxLength) ==> f.maxLength == d.maxLength)
      && (!Truthy(d.maxLength) ==> f.maxLength == EmptyForm.maxLength)
      && (d.allowNull ==> f.allowNull) && (!d.allowNull ==> f.allowNull == EmptyForm.allowNull)
  {
    match initialData
    case None => EmptyForm
    case Some(d) =>
      ColumnData(OrText(d.name, ""), OrText(d.sqlType, "text"), OrText(d.defaultValue, ""),
                 OrValue(d.maxLength, Str("")), d.allowNull || false)
  }

  /** Initialising from the empty form is initialising without data, and
      initialising from an initialised form changes nothing more. */
  lemma ResetFormSettles(d: ColumnData)
    ensures ResetForm(Some(EmptyForm)) == ResetForm(None)
    ensures ResetForm(Some(ResetForm(Some(d)))) == ResetForm(Some(d))
  {
  }

  /** A row of the column listing of getTableStructure. */
  datatype ColumnInfo = ColumnInfo(columnName: string, dataType: string, isNullable: string,
                                   characterMaximumLength: JsValue, primaryKey: bool)

  /** The form the Edit link of a listed column opens the modal with. */
  function EditFormFor(col: ColumnInfo): (f: ColumnData)
    ensures f.name == col.columnName && f.sqlType == col.dataType
    ensures f.allowNull <==> col.isNullable == "YES"
    ensures f.defaultValue == ""
    ensures Truthy(col.characterMaximumLength) ==> f.maxLength == col.characterMaximumLength
    ensures !Truthy(col.characterMaximumLength) ==> f.maxLength == Str("")
  {
    ColumnData(col.columnName, col.dataType, "", OrValue(col.characterMaximumLength, Str("")),
               col.isNullable == "YES")
  }

  /** The modal shows a listed column as the Edit link set it up, except that
      a column without a type name shows the type "text". */
  lemma EditFormShownAsListed(col: ColumnInfo)
    ensures col.dataType != "" ==> ResetForm(Some(EditFormFor(col))) == EditFormFor(col)
    ensures col.dataType == "" ==> ResetForm(Some(EditFormFor(col))) == EditFormFor(col).(sqlType := "text")
  {
  }

  /** `const [schema, rawTable] = table.split('.')` followed by
      `rawTable.replace(/"/g, '')`: the schema is the part before the first
      '.', kept as it is, and the table is the second part without its double
      quotes. Without a '.' the second part is undefined and `replace` throws
      a TypeError, here None. */
  function ParseStructureTable(table: string): (r: Option<(string, string)>)
    ensures r.None? <==> '.' !in table
    ensures r.Some? ==> '.' !in r.value.0 && '"' !in r.value.1
    ensures r.Some? ==> |r.value.0| < |table|
    ensures r.Some? ==> r.value.0 + ['.'] <= table
    ensures r.Some? ==> var rest := table[|r.value.0| + 1..];
      exists p :: '.' !in p && (rest == p || p + ['.'] <= rest) && r.value.1 == RemoveAll(p, '"')
  {
    var parts := Split(table, '.');
    SplitSinglePart(table, '.');
    if |parts| < 2 then None
    else
      SplitHead(table, '.');
      SplitRest(table, '.');
      Some((parts[0], RemoveAll(parts[1], '"')))
  }

  /** Removing the double quotes of `"name"` gives name. */
  lemma UnquoteName(name: string)
    requires '"' !in name
    ensures RemoveAll(['"'] + name + ['"'], '"') == name
  {
    var q: string := ['"'];
    assert RemoveAll(q, '"') == [] by {
      assert q[1..] == [];
    }
    RemoveAllAppend(q, name, '"');
    RemoveAllAppend(q + name, q, '"');
  }

  /** For names without '.' or '"', the qualified name the sidebar builds
      splits back into the schema and the table. */
  lemma ParseStructureQualifiedName(schema: string, table: string)
    requires '.' !in schema && '"' !in schema && '.' !in table && '"' !in table
    ensures ParseStructureTable(DbPage.QualifiedName(schema, table)) == Some((schema, table))
  {
    var tail := ['"'] + table + ['"'];
    assert DbPage.QualifiedName(schema, table) == schema + ['.'] + tail;
    SplitAfterFirst(schema, tail, '.');
    assert '.' !in tail;
    SplitNoSeparator(tail, '.');
    UnquoteName(table);
    assert Split(DbPage.QualifiedName(schema, table), '.') == [schema, tail];
  }

  /** On such names the structure tab and the content tab agree on the
      schema and the table they address. */
  lemma StructureAndContentAgree(schema: string, table: string)
    requires '.' !in schema && '"' !in schema && '.' !in table && '"' !in table
    ensures var name := DbPage.QualifiedName(schema, table);
      && ParseStructureTable(name).Some?
      && Content.ParseTableName(name) == (ParseStructureTable(name).value.0, Str(ParseStructureTable(name).value.1))
  {
    ParseStructureQualifiedName(schema, table);
    Content.ParseQualifiedName(schema, table);
  }

  /** Removing the double quotes of `"schema".table` gives schema.table. */
  lemma UnquoteSchema(schema: string, table: string)
    requires '"' !in schema && '"' !in table
    ensures RemoveAll(['"'] + schema + ['"'] + (['.'] + table), '"') == schema + (['.'] + table)
  {
    var quoted := ['"'] + schema + ['"'];
    var rest := ['.'] + table;
    UnquoteName(schema);
    assert '"' !in rest;
    RemoveAllAppend(quoted, rest, '"');
  }

  /** A '"' in the schema part stays in the schema here, while the content
      tab removes it: `"s".t` is schema `"s"` here and `s` there. */
  lemma QuotedSchemaKeepsQuotes(schema: string, table: string)
    requires '.' !in schema && '"' !in schema && '.' !in table && '"' !in table
    ensures var quoted := ['"'] + schema + ['"'];
      && ParseStructureTable(quoted + (['.'] + table)) == Some((quoted, table))
      && Content.ParseTableName(quoted + (['.'] + table)) == (schema, Str(table))
  {
    var quoted := ['"'] + schema + ['"'];
    assert '.' !in quoted;
    assert quoted + (['.'] + table) == quoted + ['.'] + table;
    SplitAfterFirst(quoted, table, '.');
    SplitNoSeparator(table, '.');
    UnquoteSchema(schema, table);
    assert schema + (['.'] + table) == schema + ['.'] + table;
    SplitAfterFirst(schema, table, '.');
  }

  // ---------------------------------------------------------------------------
  // Request bodies
  // ---------------------------------------------------------------------------

  /** The body of POST /api/addColumn for a saved form. */
  function AddRequestFor(connectionString: JsValue, schema: string, table: string,
                         form: ColumnData): (req: Api.AddColumnRequest)
    ensures req.name == Str(form.name) && req.sqlType == Str(form.sqlType)
    ensures req.schema == Str(schema) && req.table == Str(table)
    ensures req.defaultValue == Str(form.defaultValue) && req.maxLength == form.maxLength
    ensures req.allowNull == Bool(form.allowNull) && req.connectionString == connectionString
  {
    Api.AddColumnRequest(connectionString, Str(schema), Str(table), Str(form.name),
                         Str(form.sqlType), Str(form.defaultValue), form.maxLength,
                         Bool(form.allowNull))
  }

  /** The body of POST /api/editColumn: the old name is the page's
      `oldColumnName` (null when there is none), the new name the form's. */
  function EditRequestFor(connectionString: JsValue, schema: string, table: string,
                          oldName: Option<string>, form: ColumnData): (req: Api.EditColumnRequest)
    ensures oldName.Some? ==> req.oldName == Str(oldName.value)
    ensures oldName.None? ==> req.oldName == Null
    ensures req.newName == Str(form.name) && req.sqlType == Str(form.sqlType)
    ensures req.schema == Str(schema) && req.table == Str(table)
    ensures req.defaultValue == Str(form.defaultValue) && req.maxLength == form.maxLength
    ensures req.allowNull == Bool(form.allowNull) && req.connectionString == connectionString
  {
    Api.EditColumnRequest(connectionString, Str(schema), Str(table),
                          if oldName.Some? then Str(oldName.value) else Null,
                          Str(form.name), Str(form.sqlType), Str(form.defaultValue),
                          form.maxLength, Bool(form.allowNull))
  }

  /** A form the modal lets through, for a page with a connection string and
      a table name with non-empty parts, is accepted by addColumn: one
      ALTER TABLE ... ADD COLUMN statement naming that schema, table and
      column. */
  lemma SavedAddAccepted(connectionString: JsValue, schema: string, table: string, form: ColumnData)
    requires Truthy(connectionString) && schema != "" && table != ""
    requires !AllWhitespace(form.name) && form.sqlType != ""
    ensures var h := Api.AddColumn(AddRequestFor(connectionString, schema, table, form));
      && h.reply.status == 200
      && h.sql == [Api.AddColumnSql(schema, table, form.name,
                                    Api.AddColumnType(form.sqlType, form.maxLength),
                                    Api.NullClause(Bool(form.allowNull)),
                                    Api.DefaultClause(form.sqlType, Str(form.defaultValue)))]
  {
  }

  /** An edit whose old and new names agree, with a type chosen, passes
      editColumn's validation and issues no RENAME. */
  lemma SavedEditKeepsName(connectionString: JsValue, schema: string, table: string, form: ColumnData)
    requires Truthy(connectionString) && schema != "" && table != ""
    requires !AllWhitespace(form.name) && form.sqlType != ""
    ensures var req := EditRequestFor(connectionString, schema, table, Some(form.name), form);
      && Api.EditColumnComplete(req) && req.sqlType.Str?
      && (forall k | 0 <= k < |Api.EditPlan(req)| :: !Api.EditPlan(req)[k].RenameColumn?)
  {
    var req := EditRequestFor(connectionString, schema, table, Some(form.name), form);
    Api.EditWithoutRenameHasNoRename(req);
  }

  /** What a column request was sent, if any. */
  datatype Sent = NotSent | AddSent(add: Api.AddColumnRequest) | EditSent(edit: Api.EditColumnRequest)

  /** What fetchStructure did: nothing (no connection string or no table),
      a TypeError from the table-name split, or a POST to
      /api/getTableStructure with these fields. */
  datatype Fetch = Skipped | Crashed | Requested(connectionString: JsValue, schema: string, table: string)

  // ---------------------------------------------------------------------------
  // The modal
  // ---------------------------------------------------------------------------

  class ColumnModal {
    var initialData: Option<ColumnData>
    var name: string
    var sqlType: string
    var defaultValue: string
    var maxLength: JsValue
    var allowNull: bool

    function Form(): ColumnData
      reads this
    {
      ColumnData(name, sqlType, defaultValue, maxLength, allowNull)
    }

    /** The name input is disabled while there is initial data, so the name
        stays the one the modal was opened with. */
    ghost predicate Valid()
      reads this
    {
      initialData.Some? ==> name == ResetForm(initialData).name
    }

    constructor ()
      ensures initialData.None? && Form() == EmptyForm && Valid()
    {
      initialData := None;
      name, sqlType, defaultValue, maxLength, allowNull := "", "text", "", Str(""), false;
    }

    /** The effect on a new `initialData`: each setter in turn. */
    method Reset(data: Option<ColumnData>)
      modifies this
      ensures initialData == data && Form() == ResetForm(data) && Valid()
    {
      initialData := data;
      match data {
        case Some(d) =>
          name := OrText(d.name, "");
          sqlType := OrText(d.sqlType, "text");
          defaultValue := OrText(d.defaultValue, "");
          maxLength := OrValue(d.maxLength, Str(""));
          allowNull := d.allowNull || false;
        case None =>
          name := "";
          sqlType := "text";
          defaultValue := "";
          maxLength := Str("");
          allowNull := false;
      }
    }

    /** Typing into the name input, which only reacts without initial data. */
    method ChangeName(text: string)
      modifies this
      ensures initialData == old(initialData)
      ensures old(initialData).None? ==> Form() == old(Form()).(name := text)
      ensures old(initialData).Some? ==> Form() == old(Form())
      ensures old(Valid()) ==> Valid()
    {
      if initialData.None? {
        name := text;
      }
    }

    /** Picking one of the six options of the type select. */
    method ChangeType(option: string)
      requires option in TypeOptions
      modifies this
      ensures initialData == old(initialData) && Form() == old(Form()).(sqlType := option)
      ensures old(Valid()) ==> Valid()
    {
      sqlType := option;
    }

    method ChangeDefaultValue(text: string)
      modifies this
      ensures initialData == old(initialData) && Form() == old(Form()).(defaultValue := text)
      ensures old(Valid()) ==> Valid()
    {
      defaultValue := text;
    }

    /** Typing into the max length input, which is disabled unless the type
        is varchar. */
    method ChangeMaxLength(text: string)
      modifies this
      ensures initialData == old(initialData)
      ensures old(sqlType) == "varchar" ==> Form() == old(Form()).(maxLength := Str(text))
      ensures old(sqlType) != "varchar" ==> Form() == old(Form())
      ensures old(Valid()) ==> Valid()
    {
      if sqlType == "varchar" {
        maxLength := Str(text);
      }
    }

    method ChangeAllowNull(checked: bool)
      modifies this
      ensures initialData == old(initialData) && Form() == old(Form()).(allowNull := checked)
      ensures old(Valid()) ==> Valid()
    {
      allowNull := checked;
    }

    /** Save: refused with an alert exactly when the name is blank (empty
        after trim); otherwise the five fields go out unchanged. */
    method HandleSave() returns (saved: Option<ColumnData>, alert: Option<string>)
      ensures saved.None? <==> AllWhitespace(name)
      ensures saved.Some? ==> saved.value == Form() && saved.value.name != ""
      ensures alert.Some? <==> saved.None?
      ensures alert.Some? ==> alert.value == NameRequired
    {
      TrimEmptyIffBlank(name);
      if Trim(name) == "" {
        return None, Some(NameRequired);
      }
      return Some(Form()), None;
    }
  }

  // ---------------------------------------------------------------------------
  // The page
  // ---------------------------------------------------------------------------

  class StructurePage {
    const table: string
    const modal: ColumnModal
    var connectionString: JsValue
    var columns: seq<ColumnInfo>
    var loading: bool
    var showModal: bool
    var editingColumn: Option<ColumnData>
    var oldColumnName: Option<string>

    /** The modal shows `editingColumn`; a column is being edited exactly
        when its old name is recorded, and that name is the edited form's. */
    ghost predicate Valid()
      reads this, modal
    {
      && modal.Valid()
      && modal.initialData == editingColumn
      && (editingColumn.Some? <==> oldColumnName.Some?)
      && (editingColumn.Some? ==> editingColumn.value.name == oldColumnName.value)
    }

    constructor (table: string)
      ensures this.table == table && connectionString == Null && columns == []
      ensures !loading && !showModal && editingColumn.None? && oldColumnName.None?
      ensures fresh(modal) && modal.Form() == EmptyForm
      ensures Valid()
    {
      this.table := table;
      modal := new ColumnModal();
      connectionString := Null;
      columns := [];
      loading := false;
      showModal := false;
      editingColumn := None;
      oldColumnName := None;
    }

    /** The answer to load-data: the saved connection URL is taken when it
        is truthy. */
    method OnLoadData(connectUrl: JsValue)
      modifies this
      ensures Truthy(connectUrl) ==> connectionString == connectUrl
      ensures !Truthy(connectUrl) ==> connectionString == old(connectionString)
      ensures columns == old(columns) && loading == old(loading) && showModal == old(showModal)
      ensures editingColumn == old(editingColumn) && oldColumnName == old(oldColumnName)
    {
      if Truthy(connectUrl) {
        connectionString := connectUrl;
      }
    }

    /** fetchStructure: nothing without a connection string or a table; a
        TypeError when the table name has no '.'; otherwise the request is
        sent and the page shows that it is loading. */
    method FetchStructure() returns (fetch: Fetch)
      modifies this
      ensures fetch == Skipped <==> !Truthy(connectionString) || table == ""
      ensures fetch == Crashed <==> Truthy(connectionString) && table != "" && ParseStructureTable(table).None?
      ensures fetch.Requested? ==>
        var target := ParseStructureTable(table).value;
        fetch == Requested(connectionString, target.0, target.1)
      ensures loading == (fetch.Requested? || old(loading))
      ensures connectionString == old(connectionString) && columns == old(columns)
      ensures showModal == old(showModal) && editingColumn == old(editingColumn)
      ensures oldColumnName == old(oldColumnName)
    {
      if !Truthy(connectionString) || table == "" {
        return Skipped;
      }
      var target := ParseStructureTable(table);
      if target.None? {
        return Crashed;
      }
      loading := true;
      return Requested(connectionString, target.value.0, target.value.1);
    }

    /** The answer to getTableStructure: its column list, or no columns when
        the request failed; loading ends either way. */
    method OnStructure(answer: Option<seq<ColumnInfo>>)
      modifies this
      ensures answer.Some? ==> columns == answer.value
      ensures answer.None? ==> columns == []
      ensures !loading
      ensures connectionString == old(connectionString) && showModal == old(showModal)
      ensures editingColumn == old(editingColumn) && oldColumnName == old(oldColumnName)
    {
      columns := if answer.Some? then answer.value else [];
      loading := false;
    }

    /** The Edit link of a listed column. */
    method OpenEdit(col: ColumnInfo)
      requires Valid()
      modifies this, modal
      ensures Valid()
      ensures editingColumn == Some(EditFormFor(col)) && oldColumnName == Some(col.columnName)
      ensures showModal && modal.Form() == ResetForm(Some(EditFormFor(col)))
      ensures connectionString == old(connectionString) && columns == old(columns)
      ensures loading == old(loading)
    {
      editingColumn := Some(EditFormFor(col));
      oldColumnName := Some(col.columnName);
      showModal := true;
      modal.Reset(editingColumn);
    }

    /** Add Column: no column is edited; the modal starts over only when one
        was edited before, so a draft typed into an add modal and closed is
        still there when the add modal opens again. */
    method OpenAdd()
      requires Valid()
      modifies this, modal
      ensures Valid()
      ensures editingColumn.None? && oldColumnName.None? && showModal
      ensures old(editingColumn).Some? ==> modal.Form() == EmptyForm
      ensures old(editingColumn).None? ==> modal.Form() == old(modal.Form())
      ensures connectionString == old(connectionString) && columns == old(columns)
      ensures loading == old(loading)
    {
      var before := editingColumn;
      editingColumn := None;
      oldColumnName := None;
      showModal := true;
      if before.Some? {
        modal.Reset(None);
      }
    }

    /** Closing the modal hides it and forgets the edited column. */
    method CloseModal()
      requires Valid()
      modifies this, modal
      ensures Valid()
      ensures !showModal && editingColumn.None? && oldColumnName.None?
      ensures old(editingColumn).Some? ==> modal.Form() == EmptyForm
      ensures old(editingColumn).None? ==> modal.Form() == old(modal.Form())
      ensures connectionString == old(connectionString) && columns == old(columns)
      ensures loading == old(loading)
    {
      var before := editingColumn;
      showModal := false;
      editingColumn := None;
      oldColumnName := None;
      if before.Some? {
        modal.Reset(None);
      }
    }

    /** Save in the modal: a blank name is refused by the modal; otherwise the
        page edits when a column is being edited and adds one when not. The
        table-name split comes before the request, so a name without '.'
        ends the handler with nothing sent. On success the structure is
        fetched again and the modal closes (after an edit the edited column
        is also forgotten); a refused request or a failed fetch shows an
        alert and leaves everything as it was. */
    method Save(outcome: Content.Outcome) returns (sent: Sent, alert: Option<string>, refetch: bool)
      requires Valid()
      modifies this, modal
      ensures Valid()
      ensures AllWhitespace(old(modal.name)) ==> sent == NotSent && alert == Some(NameRequired)
      ensures !AllWhitespace(old(modal.name)) && ParseStructureTable(table).None? ==>
        sent == NotSent && alert.None?
      ensures sent != NotSent <==> !AllWhitespace(old(modal.name)) && ParseStructureTable(table).Some?
      ensures sent.EditSent? <==> sent != NotSent && old(editingColumn).Some?
      ensures sent.AddSent? ==>
        var target := ParseStructureTable(table).value;
        sent.add == AddRequestFor(connectionString, target.0, target.1, old(modal.Form()))
      ensures sent.EditSent? ==>
        var target := ParseStructureTable(table).value;
        sent.edit == EditRequestFor(connectionString, target.0, target.1, old(oldColumnName), old(modal.Form()))
      ensures sent.EditSent? ==> sent.edit.oldName == sent.edit.newName
      ensures sent != NotSent ==> alert == Content.FailureAlert(outcome)
      ensures refetch <==> sent != NotSent && outcome.Succeeded?
      ensures refetch ==> !showModal
      ensures refetch && sent.EditSent? ==> editingColumn.None? && oldColumnName.None? && modal.Form() == EmptyForm
      ensures !(refetch && sent.EditSent?) ==>
        editingColumn == old(editingColumn) && oldColumnName == old(oldColumnName)
        && modal.Form() == old(modal.Form())
      ensures !refetch ==> showModal == old(showModal)
      ensures connectionString == old(connectionString) && columns == old(columns)
      ensures loading == old(loading)
    {
      var saved, refusal := modal.HandleSave();
      if saved.None? {
        return NotSent, refusal, false;
      }
      var form := saved.value;
      var target := ParseStructureTable(table);
      if target.None? {
        return NotSent, None, false;
      }
      var (schema, tableName) := target.value;
      if editingColumn.Some? {
        sent := EditSent(EditRequestFor(connectionString, schema, tableName, oldColumnName, form));
      } else {
        sent := AddSent(AddRequestFor(connectionString, schema, tableName, form));
      }
      alert := Content.FailureAlert(outcome);
      refetch := outcome.Succeeded?;
      if refetch {
        showModal := false;
        if sent.EditSent? {
          editingColumn := None;
          oldColumnName := None;
          modal.Reset(None);
        }
      }
    }

    /** The Delete link of a listed column: the request names the column;
        on success the structure is fetched again, otherwise an alert says
        why. Nothing else on the page changes. */
    method DeleteColumn(columnName: string, outcome: Content.Outcome)
      returns (sent: Option<Api.DeleteColumnRequest>, alert: Option<string>, refetch: bool)
      ensures sent.None? <==> ParseStructureTable(table).None?
      ensures sent.Some? ==>
        var target := ParseStructureTable(table).value;
        sent.value == Api.DeleteColumnRequest(connectionString, Str(target.0), Str(target.1), Str(columnName))
      ensures sent.None? ==> alert.None? && !refetch
      ensures sent.Some? ==> alert == Content.FailureAlert(outcome)
      ensures refetch <==> sent.Some? && outcome.Succeeded?
    {
      var target := ParseStructureTable(table);
      if target.None? {
        return None, None, false;
      }
      sent := Some(Api.DeleteColumnRequest(connectionString, Str(target.value.0), Str(target.value.1),
                                           Str(columnName)));
      alert := Content.FailureAlert(outcome);
      refetch := outcome.Succeeded?;
    }
  }

  /** A structure fetch always carries the connection string the backend
      requires, so getTableStructure refuses it only for an empty schema or
      table part; for the sidebar's qualified names it proceeds with exactly
      that schema and table. */
  lemma FetchedStructureChecks(connectionString: JsValue, schema: string, table: string)
    requires Truthy(connectionString)
    requires '.' !in schema && '"' !in schema && '.' !in table && '"' !in table
    ensures var target := ParseStructureTable(DbPage.QualifiedName(schema, table)).value;
      var checked := Api.GetTableStructure(connectionString, Str(target.0), Str(target.1));
      && (checked.Missing? <==> schema == "" || table == "")
      && (checked.Proceed? ==> checked.params == [Str(schema), Str(table)])
  {
    ParseStructureQualifiedName(schema, table);
  }
}
