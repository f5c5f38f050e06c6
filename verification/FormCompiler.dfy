/** Compiling a validated schema: layout rows and fields flattened into one list of nodes, from which
    the layout can be read back. */
module FormCompiler {
  import opened AttendanceRecords
  import opened FormDefinitions

  // ----------------------------------------------------------------- nodes

  datatype Content =
    | Columns(columns: seq<string>)
    | Control(placeholder: string, required: bool, defaultValue: int, parent: string, slot: nat,
              options: Option<seq<FieldOption>>, binding: Option<Binding>,
              analytics: Option<Analytics>, security: Option<Security>)

  /** A node of the runtime's list; `kind` is its type. */
  datatype Node = Node(id: string, kind: string, caption: string, content: Content)

  datatype Compiled = Compiled(category: string, description: string, fields: seq<Node>,
                               stages: seq<(string, string, string, string, int)>)

  function RuntimeWidget(dataType: string, widget: string): string {
    if widget == "input" && dataType == "string" then "text"
    else if widget == "readonly" then "autofill"
    else widget
  }

  /** No accepted widget turns into a layout node. */
  lemma NoControlIsLayout(dataType: string, widget: string)
    requires Trim(widget) in WIDGETS
    ensures RuntimeWidget(dataType, widget) != "layout"
  {
    TrimIsTight(widget);
    assert Tight("layout");
  }

  function LayoutId(row: Row, r: nat): string {
    if row.id == "" then "layout-" + Digits(r + 1) else row.id
  }

  function RowNode(row: Row, r: nat): Node {
    Node(LayoutId(row, r), "layout", "row", Columns(seq(|row.fieldIds|, _ => "1fr")))
  }

  predicate HasAnalytics(a: Analytics) {
    a.reportable || a.filterable || a.groupable || a.role != ""
  }

  predicate HasSecurity(s: Security) {
    s.classification != "" || s.masking != "" || s.agentAccess
  }

  function ControlNode(f: Field, parent: string, slot: nat): Node {
    Node(f.id, RuntimeWidget(f.dataType, f.widget), f.caption,
         Control(f.placeholder, f.required, f.defaultValue, parent, slot,
                 if f.options != [] then Some(f.options) else None, f.binding,
                 if HasAnalytics(f.analytics) then Some(f.analytics) else None,
                 if HasSecurity(f.security) then Some(f.security) else None))
  }

  /** Every declared field of that identifier, in order of declaration. */
  function ControlsFor(fields: seq<Field>, id: string, parent: string, slot: nat): seq<Node> {
    if fields == [] then []
    else
      var last := fields[|fields| - 1];
      ControlsFor(fields[..|fields| - 1], id, parent, slot)
        + (if last.id == id then [ControlNode(last, parent, slot)] else [])
  }

  function RowControls(fields: seq<Field>, ids: seq<string>, parent: string): seq<Node> {
    if ids == [] then []
    else RowControls(fields, ids[..|ids| - 1], parent) + ControlsFor(fields, ids[|ids| - 1], parent, |ids| - 1)
  }

  function Nodes(fields: seq<Field>, rows: seq<Row>): seq<Node> {
    if rows == [] then []
    else
      var r := |rows| - 1;
      Nodes(fields, rows[..r]) + ([RowNode(rows[r], r)] + RowControls(fields, rows[r].fieldIds, LayoutId(rows[r], r)))
  }

  function StageNodes(stages: seq<Stage>): seq<(string, string, string, string, int)> {
    seq(|stages|, i requires 0 <= i < |stages| => (stages[i].id, stages[i].kind, stages[i].caption, stages[i].detail,
                                                   stages[i].config))
  }

  /** The innermost loop: every field is compared with the slot's identifier. */
  method CompileSlot(fields: seq<Field>, id: string, parent: string, slot: nat) returns (nodes: seq<Node>)
    ensures nodes == ControlsFor(fields, id, parent, slot)
  {
    nodes := [];
    for i := 0 to |fields|
      invariant nodes == ControlsFor(fields[..i], id, parent, slot)
    {
      if fields[i].id == id {
        nodes := nodes + [ControlNode(fields[i], parent, slot)];
      }
      assert fields[..i + 1][..i] == fields[..i];
    }
    assert fields[..|fields|] == fields;
  }

  method CompileRow(fields: seq<Field>, row: Row, r: nat) returns (nodes: seq<Node>)
    ensures nodes == [RowNode(row, r)] + RowControls(fields, row.fieldIds, LayoutId(row, r))
  {
    var layoutId := row.id;
    if layoutId == "" {
      layoutId := "layout-" + Digits(r + 1);
    }
    nodes := [Node(layoutId, "layout", "row", Columns(seq(|row.fieldIds|, _ => "1fr")))];
    ghost var head := nodes;
    for slot := 0 to |row.fieldIds|
      invariant nodes == head + RowControls(fields, row.fieldIds[..slot], layoutId)
    {
      var more := CompileSlot(fields, row.fieldIds[slot], layoutId, slot);
      nodes := nodes + more;
      assert row.fieldIds[..slot + 1][..slot] == row.fieldIds[..slot];
    }
    assert row.fieldIds[..|row.fieldIds|] == row.fieldIds;
  }

  method CompileFields(fields: seq<Field>, rows: seq<Row>) returns (nodes: seq<Node>)
    ensures nodes == Nodes(fields, rows)
  {
    nodes := [];
    for r := 0 to |rows|
      invariant nodes == Nodes(fields, rows[..r])
    {
      var more := CompileRow(fields, rows[r], r);
      nodes := nodes + more;
      assert rows[..r + 1][..r] == rows[..r];
    }
    assert rows[..|rows|] == rows;
  }

  /** A schema compiles exactly when it is well formed; otherwise its violations are reported. */
  method CompileFormDefinitionSchemaV2(schema: Schema) returns (compiled: Option<Compiled>, errors: set<Problem>)
    ensures forall p :: p in errors <==> Violates(schema, p)
    ensures compiled == if WellFormed(schema)
      then Some(Compiled(schema.category, schema.description, Nodes(schema.fields, schema.rows),
                         StageNodes(schema.stages)))
      else None
  {
    var valid;
    valid, errors := ValidateFormDefinitionSchemaV2(schema);
    AcceptedExactly(schema);
    assert valid <==> forall p :: !Violates(schema, p) by {
      assert errors == {} <==> forall p :: p !in errors;
    }
    if !valid {
      return None, errors;
    }
    var nodes := CompileFields(schema.fields, schema.rows);
    compiled := Some(Compiled(schema.category, schema.description, nodes, StageNodes(schema.stages)));
  }

  // -------------------------------------------------------------- recovery

  /** A layout node with the nodes up to the next one. */
  datatype Group = Group(head: Node, members: seq<Node>)

  function LeadingControls(nodes: seq<Node>): (m: seq<Node>)
    ensures |m| <= |nodes| && m == nodes[..|m|]
  {
    if nodes == [] || nodes[0].kind == "layout" then [] else [nodes[0]] + LeadingControls(nodes[1..])
  }

  /** Splits a list at its nodes of type layout. */
  function Recover(nodes: seq<Node>): seq<Group>
    decreases |nodes|
  {
    if nodes == [] then []
    else if nodes[0].kind == "layout" then
      var m := LeadingControls(nodes[1..]);
      [Group(nodes[0], m)] + Recover(nodes[1 + |m|..])
    else Recover(nodes[1..])
  }

  predicate AllControls(nodes: seq<Node>) {
    forall n | n in nodes :: n.kind != "layout"
  }

  lemma {:induction false} LeadingOf(m: seq<Node>, rest: seq<Node>)
    requires AllControls(m) && (rest == [] || rest[0].kind == "layout")
    ensures LeadingControls(m + rest) == m
  {
    if m == [] {
      assert m + rest == rest;
    } else {
      assert (m + rest)[1..] == m[1..] + rest;
      assert m[0] in m;
      LeadingOf(m[1..], rest);
    }
  }

  /** A first group is read off a list whatever follows it at a layout node. */
  lemma RecoverFirst(nodes: seq<Node>, more: seq<Node>)
    requires nodes != [] && nodes[0].kind == "layout" && more != [] && more[0].kind == "layout"
    ensures var lead := LeadingControls(nodes[1..]); var rest := nodes[1 + |lead|..];
      && Recover(nodes + more) == [Group(nodes[0], lead)] + Recover(rest + more)
      && Recover(nodes) == [Group(nodes[0], lead)] + Recover(rest)
      && (rest == [] || rest[0].kind == "layout")
  {
    var lead := LeadingControls(nodes[1..]);
    var all := nodes + more;
    assert all[1..] == nodes[1..] + more;
    LeadingStops(nodes[1..], more);
    assert all[1 + |lead|..] == nodes[1 + |lead|..] + more;
    LeadingEnds(nodes[1..]);
    assert |lead| < |nodes[1..]| ==> nodes[1..][|lead|] == nodes[1 + |lead|];
  }

  lemma {:induction false} RecoverAppends(nodes: seq<Node>, head: Node, m: seq<Node>)
    requires head.kind == "layout" && AllControls(m) && (nodes == [] || nodes[0].kind == "layout")
    ensures Recover(nodes + ([head] + m)) == Recover(nodes) + [Group(head, m)]
    decreases |nodes|
  {
    var all := nodes + ([head] + m);
    if nodes == [] {
      assert all == [head] + m && all[1..] == m;
      LeadingOf(m, []);
      assert m + [] == m;
      assert all[1 + |m|..] == [];
    } else {
      var lead := LeadingControls(nodes[1..]);
      RecoverFirst(nodes, [head] + m);
      RecoverAppends(nodes[1 + |lead|..], head, m);
    }
  }

  lemma {:induction false} LeadingEnds(nodes: seq<Node>)
    ensures |LeadingControls(nodes)| == |nodes| || nodes[|LeadingControls(nodes)|].kind == "layout"
  {
    if nodes != [] && nodes[0].kind != "layout" {
      LeadingEnds(nodes[1..]);
    }
  }

  lemma {:induction false} LeadingStops(nodes: seq<Node>, more: seq<Node>)
    requires more != [] && more[0].kind == "layout"
    ensures LeadingControls(nodes + more) == LeadingControls(nodes)
  {
    if nodes == [] {
      assert nodes + more == more;
    } else {
      assert (nodes + more)[1..] == nodes[1..] + more;
      LeadingStops(nodes[1..], more);
    }
  }

  /** What reading the list back gives: every layout row with the controls compiled for it. */
  function Groups(fields: seq<Field>, rows: seq<Row>): seq<Group> {
    if rows == [] then []
    else
      var r := |rows| - 1;
      Groups(fields, rows[..r]) + [Group(RowNode(rows[r], r),
                                         RowControls(fields, rows[r].fieldIds, LayoutId(rows[r], r)))]
  }

  lemma {:induction false} ControlsAreControls(fields: seq<Field>, ids: seq<string>, parent: string)
    requires forall f | f in fields :: Trim(f.widget) in WIDGETS
    ensures AllControls(RowControls(fields, ids, parent))
  {
    if ids != [] {
      ControlsAreControls(fields, ids[..|ids| - 1], parent);
      SlotIsControl(fields, ids[|ids| - 1], parent, |ids| - 1);
    }
  }

  lemma {:induction false} SlotIsControl(fields: seq<Field>, id: string, parent: string, slot: nat)
    requires forall f | f in fields :: Trim(f.widget) in WIDGETS
    ensures AllControls(ControlsFor(fields, id, parent, slot))
  {
    if fields != [] {
      SlotIsControl(fields[..|fields| - 1], id, parent, slot);
      NoControlIsLayout(fields[|fields| - 1].dataType, fields[|fields| - 1].widget);
    }
  }

  /** Splitting the compiled list at its layout nodes gives back the rows, in order, each with exactly
      the controls compiled for it: no control is ever mistaken for a row. */
  lemma {:induction false} RecoverRows(fields: seq<Field>, rows: seq<Row>)
    requires forall f | f in fields :: Trim(f.widget) in WIDGETS
    ensures Recover(Nodes(fields, rows)) == Groups(fields, rows)
  {
    if rows != [] {
      var r := |rows| - 1;
      RecoverRows(fields, rows[..r]);
      ControlsAreControls(fields, rows[r].fieldIds, LayoutId(rows[r], r));
      StartsWithRow(fields, rows[..r]);
      RecoverAppends(Nodes(fields, rows[..r]), RowNode(rows[r], r),
                     RowControls(fields, rows[r].fieldIds, LayoutId(rows[r], r)));
    }
  }

  lemma {:induction false} StartsWithRow(fields: seq<Field>, rows: seq<Row>)
    ensures Nodes(fields, rows) == [] || Nodes(fields, rows)[0].kind == "layout"
  {
    if rows != [] {
      StartsWithRow(fields, rows[..|rows| - 1]);
    }
  }

  // ------------------------------------------------------------ round trip

  function RawIds(fields: seq<Field>): set<string> {
    set f | f in fields :: f.id
  }

  /** No identifier has surrounding whitespace. */
  predicate AllTrimmed(fields: seq<Field>) {
    forall f | f in fields :: Trim(f.id) == f.id
  }

  function Ids(nodes: seq<Node>): seq<string> {
    if nodes == [] then [] else Ids(nodes[..|nodes| - 1]) + [nodes[|nodes| - 1].id]
  }

  /** The layout as read back from a compiled list, and as authored. */
  function ReadBack(groups: seq<Group>): seq<(string, seq<string>)> {
    if groups == [] then []
    else ReadBack(groups[..|groups| - 1]) + [(groups[|groups| - 1].head.id, Ids(groups[|groups| - 1].members))]
  }

  function Authored(rows: seq<Row>): seq<(string, seq<string>)> {
    if rows == [] then []
    else Authored(rows[..|rows| - 1]) + [(LayoutId(rows[|rows| - 1], |rows| - 1), rows[|rows| - 1].fieldIds)]
  }

  lemma DistinctRaw(fields: seq<Field>)
    requires Distinct(TrimmedIds(fields))
    ensures forall i, j | 0 <= i < j < |fields| :: fields[i].id != fields[j].id
  {
    forall i, j | 0 <= i < j < |fields| ensures fields[i].id != fields[j].id {
      assert TrimmedIds(fields)[i] != TrimmedIds(fields)[j];
    }
  }

  lemma {:induction false} SlotMisses(fields: seq<Field>, id: string, parent: string, slot: nat)
    requires id !in RawIds(fields)
    ensures ControlsFor(fields, id, parent, slot) == []
  {
    if fields != [] {
      var init, last := fields[..|fields| - 1], fields[|fields| - 1];
      assert last in fields && last.id in RawIds(fields);
      assert forall f | f in init :: f in fields && f.id in RawIds(fields);
      SlotMisses(init, id, parent, slot);
    }
  }

  /** A slot compiles to one control, that of the field it names exactly. */
  lemma {:induction false} SlotHits(fields: seq<Field>, parent: string, slot: nat, f: Field)
    requires forall i, j | 0 <= i < j < |fields| :: fields[i].id != fields[j].id
    requires f in fields
    ensures ControlsFor(fields, f.id, parent, slot) == [ControlNode(f, parent, slot)]
  {
    var init, last := fields[..|fields| - 1], fields[|fields| - 1];
    assert fields == init + [last];
    if f == last {
      assert forall g | g in init :: g.id != f.id;
      SlotMisses(init, f.id, parent, slot);
    } else {
      SlotHits(init, parent, slot, f);
    }
  }

  lemma IdsSnoc(nodes: seq<Node>, n: Node)
    ensures Ids(nodes + [n]) == Ids(nodes) + [n.id]
  {
    assert (nodes + [n])[..|nodes|] == nodes;
  }

  lemma {:induction false} RowCounts(fields: seq<Field>, ids: seq<string>, parent: string)
    requires forall i, j | 0 <= i < j < |fields| :: fields[i].id != fields[j].id
    ensures |RowControls(fields, ids, parent)| <= |ids|
    ensures |RowControls(fields, ids, parent)| == |ids| <==> Elements(ids) <= RawIds(fields)
  {
    if ids != [] {
      var n := |ids| - 1;
      RowCounts(fields, ids[..n], parent);
      assert ids == ids[..n] + [ids[n]];
      assert Elements(ids) == Elements(ids[..n]) + {ids[n]};
      SlotCount(fields, ids[n], parent, n);
    }
  }

  lemma SlotCount(fields: seq<Field>, id: string, parent: string, slot: nat)
    requires forall i, j | 0 <= i < j < |fields| :: fields[i].id != fields[j].id
    ensures |ControlsFor(fields, id, parent, slot)| == if id in RawIds(fields) then 1 else 0
  {
    if id in RawIds(fields) {
      var f :| f in fields && f.id == id;
      SlotHits(fields, parent, slot, f);
    } else {
      SlotMisses(fields, id, parent, slot);
    }
  }

  lemma {:induction false} RowIds(fields: seq<Field>, ids: seq<string>, parent: string)
    requires forall i, j | 0 <= i < j < |fields| :: fields[i].id != fields[j].id
    requires Elements(ids) <= RawIds(fields)
    ensures Ids(RowControls(fields, ids, parent)) == ids
  {
    if ids != [] {
      var n := |ids| - 1;
      assert ids == ids[..n] + [ids[n]];
      assert ids[n] in Elements(ids) && Elements(ids[..n]) <= Elements(ids);
      RowIds(fields, ids[..n], parent);
      var f :| f in fields && f.id == ids[n];
      SlotHits(fields, parent, n, f);
      IdsSnoc(RowControls(fields, ids[..n], parent), ControlNode(f, parent, n));
    }
  }

  lemma {:induction false} IdsLength(nodes: seq<Node>)
    ensures |Ids(nodes)| == |nodes|
  {
    if nodes != [] {
      IdsLength(nodes[..|nodes| - 1]);
    }
  }

  lemma {:induction false} LayoutReadsBack(fields: seq<Field>, rows: seq<Row>)
    requires forall i, j | 0 <= i < j < |fields| :: fields[i].id != fields[j].id
    ensures |Nodes(fields, rows)| <= |rows| + |Flatten(rows)|
    ensures |Nodes(fields, rows)| == |rows| + |Flatten(rows)| <==> Elements(Flatten(rows)) <= RawIds(fields)
    ensures ReadBack(Groups(fields, rows)) == Authored(rows) <==> Elements(Flatten(rows)) <= RawIds(fields)
    ensures |Groups(fields, rows)| == |rows|
  {
    if rows != [] {
      var r := |rows| - 1;
      var init, ids, parent := rows[..r], rows[r].fieldIds, LayoutId(rows[r], r);
      LayoutReadsBack(fields, init);
      RowCounts(fields, ids, parent);
      if Elements(ids) <= RawIds(fields) {
        RowIds(fields, ids, parent);
      }
      IdsLength(RowControls(fields, ids, parent));
      assert Elements(Flatten(rows)) == Elements(Flatten(init)) + Elements(ids);
      var groups := Groups(fields, rows);
      assert groups[..|groups| - 1] == Groups(fields, init);
      var a, b := ReadBack(groups), Authored(rows);
      assert a[..|a| - 1] == ReadBack(Groups(fields, init)) && b[..|b| - 1] == Authored(init);
      assert a == b <==> a[..|a| - 1] == b[..|b| - 1] && a[|a| - 1] == b[|b| - 1];
    }
  }

  lemma PlacedIds(schema: Schema)
    requires WellFormed(schema)
    ensures Elements(Flatten(schema.rows)) == Elements(TrimmedIds(schema.fields))
    ensures |Flatten(schema.rows)| == |schema.fields|
  {
    var flat, ids := Flatten(schema.rows), TrimmedIds(schema.fields);
    assert forall x :: (x in flat <==> x in multiset(flat)) && (x in ids <==> x in multiset(ids));
    assert |multiset(flat)| == |multiset(ids)|;
  }

  /** Every trimmed identifier is some field's own exactly when every field's own is trimmed. */
  lemma TrimmedAreRaw(fields: seq<Field>)
    requires Distinct(TrimmedIds(fields))
    ensures Elements(TrimmedIds(fields)) <= RawIds(fields) <==> AllTrimmed(fields)
  {
    var ids := TrimmedIds(fields);
    if Elements(ids) <= RawIds(fields) {
      forall f | f in fields ensures Trim(f.id) == f.id {
        var i :| 0 <= i < |fields| && fields[i] == f;
        assert ids[i] in Elements(ids) && ids[i] in RawIds(fields);
        var g :| g in fields && g.id == ids[i];
        var j :| 0 <= j < |fields| && fields[j] == g;
        TrimIsTight(f.id);
        assert ids[j] == ids[i];
        assert i == j;
      }
    }
  }

  /** The round trip, exactly: for every accepted schema the compiled list has one node per row and per
      field, and reading it back gives the authored layout, if and only if no field identifier has
      surrounding whitespace. */
  lemma RoundTripExactly(schema: Schema)
    requires WellFormed(schema)
    ensures var nodes := Nodes(schema.fields, schema.rows);
      && (ReadBack(Recover(nodes)) == Authored(schema.rows) <==> AllTrimmed(schema.fields))
      && (|nodes| == |schema.rows| + |schema.fields| <==> AllTrimmed(schema.fields))
      && |nodes| <= |schema.rows| + |schema.fields|
  {
    DistinctRaw(schema.fields);
    assert forall f | f in schema.fields :: FieldSound(f);
    RecoverRows(schema.fields, schema.rows);
    LayoutReadsBack(schema.fields, schema.rows);
    PlacedIds(schema);
    TrimmedAreRaw(schema.fields);
  }

  lemma {:induction false} RowSlots(fields: seq<Field>, ids: seq<string>, parent: string, k: nat, f: Field)
    requires forall i, j | 0 <= i < j < |fields| :: fields[i].id != fields[j].id
    requires Elements(ids) <= RawIds(fields) && k < |ids| && f in fields && f.id == ids[k]
    ensures |RowControls(fields, ids, parent)| == |ids|
    ensures RowControls(fields, ids, parent)[k] == ControlNode(f, parent, k)
  {
    var n := |ids| - 1;
    assert Elements(ids[..n]) <= Elements(ids);
    RowCounts(fields, ids, parent);
    RowCounts(fields, ids[..n], parent);
    if k < n {
      RowSlots(fields, ids[..n], parent, k, f);
    } else {
      SlotHits(fields, parent, n, f);
    }
  }

  lemma {:induction false} GroupsLength(fields: seq<Field>, rows: seq<Row>)
    ensures |Groups(fields, rows)| == |rows|
  {
    if rows != [] {
      GroupsLength(fields, rows[..|rows| - 1]);
    }
  }

  function GroupOf(fields: seq<Field>, row: Row, r: nat): Group {
    Group(RowNode(row, r), RowControls(fields, row.fieldIds, LayoutId(row, r)))
  }

  lemma GroupsSnoc(fields: seq<Field>, rows: seq<Row>)
    requires rows != []
    ensures var n := |rows| - 1;
      Groups(fields, rows) == Groups(fields, rows[..n]) + [GroupOf(fields, rows[n], n)]
  {
  }

  lemma {:induction false} GroupAt(fields: seq<Field>, rows: seq<Row>, r: nat)
    requires r < |rows| && |Groups(fields, rows)| == |rows|
    ensures Groups(fields, rows)[r] == GroupOf(fields, rows[r], r)
  {
    var n := |rows| - 1;
    GroupsSnoc(fields, rows);
    if r < n {
      GroupAt(fields, rows[..n], r);
    }
  }

  /** With trimmed identifiers the k-th control read back from row r is the whole field the author put
      there, under that row and slot. */
  lemma EverySlotIsItsField(schema: Schema, r: nat, k: nat, f: Field)
    requires WellFormed(schema) && AllTrimmed(schema.fields)
    requires r < |schema.rows| && k < |schema.rows[r].fieldIds| && f in schema.fields
             && f.id == schema.rows[r].fieldIds[k]
    ensures var groups := Recover(Nodes(schema.fields, schema.rows));
      && |groups| == |schema.rows| && groups[r].head == RowNode(schema.rows[r], r)
      && |groups[r].members| == |schema.rows[r].fieldIds|
      && groups[r].members[k] == ControlNode(f, LayoutId(schema.rows[r], r), k)
  {
    var fields, rows := schema.fields, schema.rows;
    DistinctRaw(fields);
    assert forall g | g in fields :: FieldSound(g);
    RecoverRows(fields, rows);
    GroupsLength(fields, rows);
    GroupAt(fields, rows, r);
    PlacedIds(schema);
    TrimmedAreRaw(fields);
    forall id | id in rows[r].fieldIds ensures id in RawIds(fields) {
      FlattenMembers(rows, id);
      assert id in Elements(Flatten(rows));
    }
    RowSlots(fields, rows[r].fieldIds, LayoutId(rows[r], r), k, f);
  }

  const SPACED_FIELD := Field(" a", "A", "string", "input", false, "", 0, [], None,
                              Rules(None, None, None, None, "", true),
                              Analytics(false, "", [], false, false), Security("", "", false))
  const NOTIFY_STAGE := Stage("s", "notify", "S", "", 0, [], "", [])
  const SPACED_SCHEMA := Schema(2, "n", "", "", [SPACED_FIELD], [Row("", ["a"])], [NOTIFY_STAGE])

  lemma TightLiterals()
    ensures Trim("A") == "A" && Trim("string") == "string" && Trim("input") == "input" && Trim("n") == "n"
  {
    TrimIsTight("A");
    TrimIsTight("string");
    TrimIsTight("input");
    TrimIsTight("n");
  }

  lemma SpacedTrims()
    ensures Trim(" a") == "a"
  {
    assert " a"[1..] == "a";
    assert TrimLeft(" a") == TrimLeft("a") == "a";
  }

  lemma SpacedFieldSound()
    ensures FieldSound(SPACED_FIELD) && Trim(SPACED_FIELD.id) == "a"
  {
    SpacedTrims();
    TightLiterals();
    assert FitsLength(SPACED_FIELD.rules, 0) && FitsValue(SPACED_FIELD.rules, 0.0);
  }

  lemma NotifyStageSound()
    ensures StageSound(NOTIFY_STAGE)
  {
    TrimIsTight("s");
    TrimIsTight("S");
    TrimIsTight("notify");
  }

  lemma SpacedSchemaPlaces()
    ensures PlacesEveryFieldOnce(SPACED_SCHEMA)
  {
    SpacedFieldSound();
    assert SPACED_SCHEMA.rows[..0] == [];
    assert Flatten(SPACED_SCHEMA.rows) == ["a"];
    assert TrimmedIds(SPACED_SCHEMA.fields) == ["a"];
  }

  /** The accepted schema whose only field vanishes: its identifier starts with a space. */
  lemma UntrimmedFieldVanishes()
    ensures WellFormed(SPACED_SCHEMA) && |SPACED_SCHEMA.fields| == 1
    ensures |Nodes(SPACED_SCHEMA.fields, SPACED_SCHEMA.rows)| == |SPACED_SCHEMA.rows|
  {
    SpacedFieldSound();
    NotifyStageSound();
    SpacedSchemaPlaces();
    TightLiterals();
    assert WellFormed(SPACED_SCHEMA);
    assert SPACED_FIELD in SPACED_SCHEMA.fields && !AllTrimmed(SPACED_SCHEMA.fields);
    RoundTripExactly(SPACED_SCHEMA);
    AtLeastTheRows(SPACED_SCHEMA.fields, SPACED_SCHEMA.rows);
  }

  lemma {:induction false} AtLeastTheRows(fields: seq<Field>, rows: seq<Row>)
    ensures |Nodes(fields, rows)| >= |rows|
  {
    if rows != [] {
      AtLeastTheRows(fields, rows[..|rows| - 1]);
    }
  }
}
