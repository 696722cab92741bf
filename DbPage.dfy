/**
 * The database page (src/renderer/pages/DB.jsx): the sidebar of schemas,
 * each of which can be opened or closed, the table selection, and the four
 * tabs of the main area. The React state of the page is the state of a
 * DbPageState object; each setter call is an assignment to one of its fields.
 */
module DbPage {
  datatype Tab = Structure | Content | Info | Query

  /** Whether the sidebar shows a schema's tables: `openSchemas[schema]`,
      where a schema that is not in the map reads as undefined. */
  predicate IsOpen(open: map<string, bool>, schema: string)
  {
    schema in open && open[schema]
  }

  /** `{ ...prev, [schema]: !prev[schema] }` */
  function Toggled(open: map<string, bool>, schema: string): (r: map<string, bool>)
    ensures r.Keys == open.Keys + {schema}
    ensures IsOpen(r, schema) <==> !IsOpen(open, schema)
    ensures forall k | k in open && k != schema :: r[k] == open[k]
  {
    open[schema := !IsOpen(open, schema)]
  }

  /** Toggling a schema twice gives back a map that opens exactly the same
      schemas, and the very same map when the schema had been loaded. */
  lemma ToggleTwice(open: map<string, bool>, schema: string)
    ensures forall k :: IsOpen(Toggled(Toggled(open, schema), schema), k) == IsOpen(open, k)
    ensures schema in open ==> Toggled(Toggled(open, schema), schema) == open
  {
    var twice := Toggled(Toggled(open, schema), schema);
    if schema in open {
      assert twice.Keys == open.Keys;
      assert forall k | k in open :: twice[k] == open[k];
    }
  }

  /** Toggling one schema leaves whether any other schema is open as it was. */
  lemma ToggleIsolated(open: map<string, bool>, schema: string, other: string)
    requires other != schema
    ensures IsOpen(Toggled(open, schema), other) == IsOpen(open, other)
  {
  }

  /** The qualified name toggleTable builds: schema."table". */
  function QualifiedName(schema: string, table: string): (r: string)
    ensures |r| == |schema| + |table| + 3
    ensures r[..|schema|] == schema && r[|schema|..] == ".\"" + table + "\""
  {
    schema + ".\"" + table + "\""
  }

  /** The selection after a table click as the page is written: the
      qualified name is set and at once overwritten by "structure". */
  function SelectionAsWritten(schema: string, table: string): string
  {
    var fullTableName := QualifiedName(schema, table);
    "structure"
  }

  /** As written, the selection never names the clicked table, and clicks on
      different tables leave the same selection. */
  lemma SelectionForgetsTable(schema: string, table: string, schema': string, table': string)
    ensures SelectionAsWritten(schema, table) != QualifiedName(schema, table)
    ensures SelectionAsWritten(schema, table) == SelectionAsWritten(schema', table')
  {
    var name := QualifiedName(schema, table);
    assert name[|name| - 1] == '"';
    assert "structure"[8] == 'e';
  }

  /** The text of the panel each tab shows. */
  function PanelText(tab: Tab): string
  {
    match tab
    case Structure => "STRUCTURE"
    case Content => "CONTENT"
    case Info => "INFO"
    case Query => "QUERY"
  }

  /** The panels the main area renders: one conditional block per tab, each
      guarded by a comparison with the active tab. */
  function PanelsShown(active: Tab): seq<string>
  {
    (if active == Structure then [PanelText(Structure)] else [])
    + (if active == Content then [PanelText(Content)] else [])
    + (if active == Info then [PanelText(Info)] else [])
    + (if active == Query then [PanelText(Query)] else [])
  }

  /** Whatever tab is active, exactly one panel is shown, and it is that
      tab's panel; different tabs show different panels. */
  lemma ExactlyOnePanel(active: Tab, other: Tab)
    ensures PanelsShown(active) == [PanelText(active)]
    ensures other != active ==> PanelText(other) != PanelText(active)
  {
  }

  class DbPageState {
    var schemas: map<string, seq<string>>
    var openSchemas: map<string, bool>
    var selectedTable: string
    var activeTab: Tab

    constructor ()
      ensures schemas == map[] && openSchemas == map[]
      ensures selectedTable == "" && activeTab == Structure
    {
      schemas := map[];
      openSchemas := map[];
      selectedTable := "";
      activeTab := Structure;
    }

    /** The reduce over Object.keys(data) that starts every schema closed. */
    static method AllClosed(data: map<string, seq<string>>) returns (closed: map<string, bool>)
      ensures closed.Keys == data.Keys
      ensures forall k | k in closed :: !closed[k]
    {
      closed := map[];
      var remaining := data.Keys;
      while remaining != {}
        invariant remaining <= data.Keys
        invariant closed.Keys == data.Keys - remaining
        invariant forall k | k in closed :: !closed[k]
        decreases remaining
      {
        var key :| key in remaining;
        closed := closed[key := false];
        remaining := remaining - {key};
      }
    }

    /** A successful schema listing: it replaces the schemas and closes all of
      them. */
    method LoadSchemas(data: map<string, seq<string>>)
      modifies this
      ensures schemas == data
      ensures openSchemas.Keys == data.Keys && forall k :: !IsOpen(openSchemas, k)
      ensures selectedTable == old(selectedTable) && activeTab == old(activeTab)
    {
      schemas := data;
      openSchemas := AllClosed(data);
    }

    method ToggleSchema(schema: string)
      modifies this
      ensures openSchemas == Toggled(old(openSchemas), schema)
      ensures schemas == old(schemas) && selectedTable == old(selectedTable)
      ensures activeTab == old(activeTab)
    {
      openSchemas := Toggled(openSchemas, schema);
    }

    /** A click on a table selects its qualified name and shows the
      Structure tab. (The page as written overwrites the selection instead;
      see SelectionAsWritten.) */
    method ToggleTable(schema: string, table: string)
      modifies this
      ensures selectedTable == QualifiedName(schema, table) && activeTab == Structure
      ensures schemas == old(schemas) && openSchemas == old(openSchemas)
    {
      selectedTable := QualifiedName(schema, table);
      activeTab := Structure;
    }

    method SelectTab(tab: Tab)
      modifies this
      ensures activeTab == tab
      ensures schemas == old(schemas) && openSchemas == old(openSchemas)
      ensures selectedTable == old(selectedTable)
    {
      activeTab := tab;
    }
  }
}
