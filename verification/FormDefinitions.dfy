/** Authoring schemas of forms and their validator. Strings are sequences of characters. */
module FormDefinitions {
  import opened AttendanceRecords

  // --------------------------------------------------------------- strings

  predicate IsSpace(c: char) {
    || '\t' <= c <= '\r' || c == ' ' || c == '\U{0085}' || c == '\U{00A0}' || c == '\U{1680}'
    || '\U{2000}' <= c <= '\U{200a}' || c == '\U{2028}' || c == '\U{2029}' || c == '\U{202f}'
    || c == '\U{205f}' || c == '\U{3000}'
  }

  function TrimLeft(s: string): string {
    if s != [] && IsSpace(s[0]) then TrimLeft(s[1..]) else s
  }

  function TrimRight(s: string): string {
    if s != [] && IsSpace(s[|s| - 1]) then TrimRight(s[..|s| - 1]) else s
  }

  function Trim(s: string): string {
    TrimRight(TrimLeft(s))
  }

  predicate Tight(s: string) {
    s == [] || (!IsSpace(s[0]) && !IsSpace(s[|s| - 1]))
  }

  lemma {:induction false} TrimRightKeepsFront(s: string)
    requires s == [] || !IsSpace(s[0])
    ensures Tight(TrimRight(s))
  {
    if s != [] && IsSpace(s[|s| - 1]) {
      TrimRightKeepsFront(s[..|s| - 1]);
    }
  }

  lemma {:induction false} TrimLeftStops(s: string)
    ensures TrimLeft(s) == [] || !IsSpace(TrimLeft(s)[0])
  {
    if s != [] && IsSpace(s[0]) {
      TrimLeftStops(s[1..]);
    }
  }

  /** Trimming gives a tight string and leaves tight strings alone. */
  lemma TrimIsTight(s: string)
    ensures Tight(Trim(s)) && (Tight(s) ==> Trim(s) == s) && Trim(Trim(s)) == Trim(s)
  {
    TrimLeftStops(s);
    TrimRightKeepsFront(TrimLeft(s));
  }

  predicate IsLower(c: char) {
    'a' <= c <= 'z'
  }

  predicate IsIdChar(c: char) {
    IsLower(c) || '0' <= c <= '9' || c == '_' || c == '-'
  }

  /** A lowercase letter, then at most 63 lowercase letters, digits, underscores or hyphens. */
  predicate IsIdentifier(s: string) {
    1 <= |s| <= 64 && IsLower(s[0]) && forall i | 1 <= i < |s| :: IsIdChar(s[i])
  }

  function Digits(n: nat): string {
    if n < 10 then ["0123456789"[n]] else Digits(n / 10) + ["0123456789"[n % 10]]
  }

  // ---------------------------------------------------------------- schema

  datatype FieldOption = FieldOption(caption: string, value: string)

  datatype Binding = Binding(sourceId: string, valueField: string, labelField: string,
                             filters: map<string, seq<string>>)

  /** `patternCompiles` is whether the regular expression, when there is one, is well formed. */
  datatype Rules = Rules(minLength: Option<int>, maxLength: Option<int>, min: Option<real>, max: Option<real>,
                         pattern: string, patternCompiles: bool)

  datatype Analytics = Analytics(reportable: bool, role: string, aggregations: seq<string>, filterable: bool,
                                 groupable: bool)

  datatype Security = Security(classification: string, masking: string, agentAccess: bool)

  datatype Field = Field(
    id: string, caption: string, dataType: string, widget: string, required: bool, placeholder: string,
    defaultValue: int, options: seq<FieldOption>, binding: Option<Binding>, rules: Rules,
    analytics: Analytics, security: Security)

  datatype Row = Row(id: string, fieldIds: seq<string>)

  /** The approval targets of a stage, as decoded from its configuration. */
  datatype Stage = Stage(id: string, kind: string, caption: string, detail: string, config: int,
                         userGroups: seq<string>, role: string, accounts: seq<string>)

  datatype Schema = Schema(version: int, name: string, description: string, category: string,
                           fields: seq<Field>, rows: seq<Row>, stages: seq<Stage>)

  const DATA_TYPES := {"string", "number", "boolean", "date", "datetime", "string_array", "object"}
  const OPTION_WIDGETS := {"select", "radio", "multilist"}
  const WIDGETS := {"input", "textarea", "number", "checkbox", "date", "datetime", "select", "radio", "multilist",
                    "autofill", "readonly"}
  const STAGE_TYPES := {"approver", "condition", "notify"}
  const WORK_STATUSES := {"active", "probation", "leave_suspended", "onboarding", "resigned"}

  function Sources(): map<string, set<string>> {
    map["current_user" := {"display_name", "email", "employee_id", "employee_no", "department_id", "department_name",
                           "position_id", "position_name"},
        "departments" := {"id", "name", "code"},
        "employees" := {"id", "name", "employee_no", "email", "department_id", "department_name", "position_id",
                        "position_name", "work_status"},
        "positions" := {"id", "name", "code", "department_id"},
        "leave_types" := {"code", "name"}]
  }

  predicate IsOptionWidget(widget: string) {
    Trim(widget) in OPTION_WIDGETS
  }

  // -------------------------------------------------------------- problems

  datatype FieldFault =
    | InvalidId | DuplicateId | NoCaption | BadDataType | BadWidget | BadPattern | LengthRange | ValueRange | NoOptions
    | BadSource | BadValueField | BadFilter(name: string) | EmptyFilter(name: string) | BadFilterValue(name: string)
    | NotAutofill | BadLabelField | NotOptionWidget

  datatype StageFault = InvalidStageId | DuplicateStage | BadStageType | NoStageCaption | GroupsRetired | NoApprover

  /** A reported error: its place and code. */
  datatype Problem =
    | BadVersion | NoName
    | InField(index: nat, fault: FieldFault)
    | EmptyRow(row: nat) | UnknownField(row: nat) | RepeatedField(row: nat)
    | MissingField(id: string)
    | InStage(index: nat, stageFault: StageFault)
    | NoStages

  function IdSet(fields: seq<Field>, n: nat): set<string>
    requires n <= |fields|
  {
    set j | 0 <= j < n :: Trim(fields[j].id)
  }

  function FilterNames(source: string): set<string> {
    if source == "employees" then {"work_status"} else {}
  }

  predicate OneFilterFaulty(name: string, values: seq<string>, names: set<string>, statuses: set<string>,
                            fault: FieldFault) {
    if name !in names then fault == BadFilter(name)
    else if values == [] then fault == EmptyFilter(name)
    else fault == BadFilterValue(name) && exists v | v in values :: v !in statuses
  }

  predicate FilterFaulty(filters: map<string, seq<string>>, names: set<string>, statuses: set<string>,
                         fault: FieldFault) {
    && (fault.BadFilter? || fault.EmptyFilter? || fault.BadFilterValue?) && fault.name in filters
    && OneFilterFaulty(fault.name, filters[fault.name], names, statuses, fault)
  }

  predicate BindingFaulty(field: Field, b: Binding, fault: FieldFault) {
    var source := Trim(b.sourceId);
    if source !in Sources() then fault == BadSource
    else
      || (fault == BadValueField && Trim(b.valueField) !in Sources()[source])
      || FilterFaulty(b.filters, FilterNames(source), WORK_STATUSES, fault)
      || (source == "current_user" && fault == NotAutofill && field.widget != "autofill" && field.widget != "readonly")
      || (source != "current_user" && fault == BadLabelField && Trim(b.labelField) !in Sources()[source])
      || (source != "current_user" && fault == NotOptionWidget && !IsOptionWidget(field.widget))
  }

  predicate BadLengths(r: Rules) {
    r.minLength.Some? && r.maxLength.Some? && r.minLength.value > r.maxLength.value
  }

  predicate BadRange(r: Rules) {
    r.min.Some? && r.max.Some? && r.min.value > r.max.value
  }

  /** The outcome of each check on a field by itself. */
  datatype Checks = Checks(badId: bool, noCaption: bool, badType: bool, badWidget: bool, badPattern: bool,
                           badLengths: bool, badRange: bool, noOptions: bool)

  function CheckField(field: Field): Checks {
    Checks(!IsIdentifier(Trim(field.id)), Trim(field.caption) == "",
           Trim(field.dataType) !in DATA_TYPES, Trim(field.widget) !in WIDGETS,
           field.rules.pattern != "" && !field.rules.patternCompiles, BadLengths(field.rules), BadRange(field.rules),
           IsOptionWidget(field.widget) && field.options == [] && field.binding.None?)
  }

  predicate Faulted(c: Checks, fault: FieldFault) {
    || (fault == InvalidId && c.badId) || (fault == NoCaption && c.noCaption)
    || (fault == BadDataType && c.badType) || (fault == BadWidget && c.badWidget)
    || (fault == BadPattern && c.badPattern)
    || (fault == LengthRange && c.badLengths) || (fault == ValueRange && c.badRange)
    || (fault == NoOptions && c.noOptions)
  }

  predicate FieldFaulty(fields: seq<Field>, i: nat, fault: FieldFault)
    requires i < |fields|
  {
    || Faulted(CheckField(fields[i]), fault)
    || (fault == DuplicateId && Trim(fields[i].id) in IdSet(fields, i))
    || (fields[i].binding.Some? && BindingFaulty(fields[i], fields[i].binding.value, fault))
  }

  function Flatten(rows: seq<Row>): seq<string> {
    if rows == [] then [] else Flatten(rows[..|rows| - 1]) + rows[|rows| - 1].fieldIds
  }

  predicate Repeats(rows: seq<Row>, r: nat, n: nat)
    requires r < |rows| && n <= |rows[r].fieldIds|
  {
    exists k | 0 <= k < n :: rows[r].fieldIds[k] in Flatten(rows[..r]) + rows[r].fieldIds[..k]
  }

  predicate StageOwnFaulty(stage: Stage, fault: StageFault) {
    || (fault == InvalidStageId && !IsIdentifier(Trim(stage.id)))
    || (fault == BadStageType && Trim(stage.kind) !in STAGE_TYPES)
    || (fault == NoStageCaption && Trim(stage.caption) == "")
    || (fault == GroupsRetired && stage.userGroups != [])
    || (fault == NoApprover && stage.kind == "approver" && Trim(stage.role) == "" && stage.accounts == [])
  }

  predicate StageFaulty(stages: seq<Stage>, i: nat, fault: StageFault)
    requires i < |stages|
  {
    || StageOwnFaulty(stages[i], fault)
    || (fault == DuplicateStage && exists j | 0 <= j < i :: stages[j].id == stages[i].id)
  }

  predicate InFields(fields: seq<Field>, n: nat, p: Problem)
    requires n <= |fields|
  {
    p.InField? && p.index < n && FieldFaulty(fields, p.index, p.fault)
  }

  predicate RowFaulty(rows: seq<Row>, r: nat, known: set<string>, p: Problem)
    requires r < |rows|
  {
    || (p == EmptyRow(r) && rows[r].fieldIds == [])
    || (p == UnknownField(r) && exists id | id in rows[r].fieldIds :: id !in known)
    || (p == RepeatedField(r) && Repeats(rows, r, |rows[r].fieldIds|))
  }

  predicate LayoutFaulty(rows: seq<Row>, known: set<string>, p: Problem) {
    || ((p.EmptyRow? || p.UnknownField? || p.RepeatedField?) && p.row < |rows| && RowFaulty(rows, p.row, known, p))
    || (p.MissingField? && p.id in known && p.id !in Flatten(rows))
  }

  predicate StagesFaulty(stages: seq<Stage>, p: Problem) {
    || (p.InStage? && p.index < |stages| && StageFaulty(stages, p.index, p.stageFault))
    || (p == NoStages && stages == [])
  }

  /** What is wrong with a schema, problem by problem. */
  predicate Violates(schema: Schema, p: Problem) {
    || (p == BadVersion && schema.version != 2)
    || (p == NoName && Trim(schema.name) == "")
    || InFields(schema.fields, |schema.fields|, p)
    || LayoutFaulty(schema.rows, IdSet(schema.fields, |schema.fields|), p)
    || StagesFaulty(schema.stages, p)
  }

  // ------------------------------------------------------------- validator

  /** Adds an error when a check fails. */
  function Report<T>(failed: bool, problem: T): set<T> {
    if failed then {problem} else {}
  }

  method ValidateFilter(name: string, values: seq<string>, allowed: set<string>, statuses: set<string>)
    returns (faults: set<FieldFault>)
    ensures forall fault :: fault in faults <==> OneFilterFaulty(name, values, allowed, statuses, fault)
  {
    if name !in allowed {
      return {BadFilter(name)};
    }
    if values == [] {
      return {EmptyFilter(name)};
    }
    faults := {};
    for v := 0 to |values|
      invariant faults == if exists w | 0 <= w < v :: values[w] !in statuses then {BadFilterValue(name)} else {}
    {
      if values[v] !in statuses {
        faults := faults + {BadFilterValue(name)};
      }
    }
  }

  method ValidateFilters(filters: map<string, seq<string>>, allowed: set<string>, statuses: set<string>)
    returns (faults: set<FieldFault>)
    ensures forall fault :: fault in faults <==> FilterFaulty(filters, allowed, statuses, fault)
  {
    faults := {};
    var names := filters.Keys;
    while names != {}
      invariant names <= filters.Keys
      invariant forall fault :: fault in faults <==>
                  FilterFaulty(filters, allowed, statuses, fault) && fault.name !in names
      decreases |names|
    {
      var name: string :| name in names;
      names := names - {name};
      var more := ValidateFilter(name, filters[name], allowed, statuses);
      faults := faults + more;
    }
  }

  method ReportBinding(badValue: bool, filters: set<FieldFault>, personal: bool, notAutofill: bool, badLabel: bool,
                       notOption: bool)
    returns (faults: set<FieldFault>)
    ensures forall fault :: fault in faults <==>
      || (fault == BadValueField && badValue)
      || fault in filters
      || (personal && fault == NotAutofill && notAutofill)
      || (!personal && fault == BadLabelField && badLabel)
      || (!personal && fault == NotOptionWidget && notOption)
  {
    faults := Report(badValue, BadValueField) + filters;
    if personal {
      faults := faults + Report(notAutofill, NotAutofill);
      return;
    }
    faults := faults + Report(badLabel, BadLabelField);
    faults := faults + Report(notOption, NotOptionWidget);
  }

  method ValidateBinding(field: Field, b: Binding) returns (faults: set<FieldFault>)
    ensures forall fault :: fault in faults <==> BindingFaulty(field, b, fault)
  {
    var source := Trim(b.sourceId);
    if source !in Sources() {
      return {BadSource};
    }
    var allowed := Sources()[source];
    var filters := ValidateFilters(b.filters, FilterNames(source), WORK_STATUSES);
    faults := ReportBinding(Trim(b.valueField) !in allowed, filters, source == "current_user",
                            field.widget != "autofill" && field.widget != "readonly",
                            Trim(b.labelField) !in allowed, !IsOptionWidget(field.widget));
  }

  method ReportOwn(c: Checks, repeated: bool) returns (faults: set<FieldFault>)
    ensures forall fault :: fault in faults <==> Faulted(c, fault) || (fault == DuplicateId && repeated)
  {
    faults := Report(c.badId, InvalidId) + Report(repeated, DuplicateId) + Report(c.noCaption, NoCaption);
    faults := faults + Report(c.badType, BadDataType) + Report(c.badWidget, BadWidget)
      + Report(c.badPattern, BadPattern);
    faults := faults + Report(c.badLengths, LengthRange) + Report(c.badRange, ValueRange)
      + Report(c.noOptions, NoOptions);
  }

  method ValidateField(field: Field, seen: set<string>) returns (faults: set<FieldFault>)
    ensures forall fault :: fault in faults <==>
      || Faulted(CheckField(field), fault)
      || (fault == DuplicateId && Trim(field.id) in seen)
      || (field.binding.Some? && BindingFaulty(field, field.binding.value, fault))
  {
    faults := ReportOwn(CheckField(field), Trim(field.id) in seen);
    if field.binding.Some? {
      var more := ValidateBinding(field, field.binding.value);
      faults := faults + more;
    }
  }

  lemma OneMoreField(fields: seq<Field>, n: nat, errors: set<Problem>, faults: set<FieldFault>, more: set<Problem>)
    requires n < |fields| && more == errors + set fault | fault in faults :: InField(n, fault)
    requires forall p :: p in errors <==> InFields(fields, n, p)
    requires forall fault :: fault in faults <==> FieldFaulty(fields, n, fault)
    ensures forall p :: p in more <==> InFields(fields, n + 1, p)
    ensures IdSet(fields, n + 1) == IdSet(fields, n) + {Trim(fields[n].id)}
  {
  }

  method ValidateFields(fields: seq<Field>) returns (errors: set<Problem>, fieldIDs: set<string>)
    ensures forall p :: p in errors <==> InFields(fields, |fields|, p)
    ensures fieldIDs == IdSet(fields, |fields|)
  {
    errors, fieldIDs := {}, {};
    for index := 0 to |fields|
      invariant fieldIDs == IdSet(fields, index)
      invariant forall p :: p in errors <==> InFields(fields, index, p)
    {
      var faults := ValidateField(fields[index], fieldIDs);
      var more := errors + set fault | fault in faults :: InField(index, fault);
      OneMoreField(fields, index, errors, faults, more);
      errors := more;
      fieldIDs := fieldIDs + {Trim(fields[index].id)};
    }
  }

  function Elements(s: seq<string>): set<string> {
    set x | x in s
  }

  /** The errors of a row's first k slots. */
  function SlotErrors(rows: seq<Row>, r: nat, k: nat, known: set<string>): set<Problem>
    requires r < |rows| && k <= |rows[r].fieldIds|
  {
    (if exists j | 0 <= j < k :: rows[r].fieldIds[j] !in known then {UnknownField(r)} else {})
    + (if Repeats(rows, r, k) then {RepeatedField(r)} else {})
  }

  lemma OneMoreSlot(rows: seq<Row>, r: nat, k: nat, known: set<string>, seen: set<string>)
    requires r < |rows| && k < |rows[r].fieldIds| && seen == Elements(Flatten(rows[..r]) + rows[r].fieldIds[..k])
    ensures SlotErrors(rows, r, k + 1, known) == SlotErrors(rows, r, k, known)
      + (if rows[r].fieldIds[k] !in known then {UnknownField(r)} else {})
      + (if rows[r].fieldIds[k] in seen then {RepeatedField(r)} else {})
    ensures seen + {rows[r].fieldIds[k]} == Elements(Flatten(rows[..r]) + rows[r].fieldIds[..k + 1])
  {
    var ids, front := rows[r].fieldIds, Flatten(rows[..r]);
    assert ids[..k + 1] == ids[..k] + [ids[k]];
    assert ids[k] in seen <==> ids[k] in front + ids[..k];
    assert Repeats(rows, r, k + 1) <==> Repeats(rows, r, k) || ids[k] in front + ids[..k];
  }

  method ValidateRow(rows: seq<Row>, r: nat, known: set<string>, seenBefore: set<string>)
    returns (errors: set<Problem>, seen: set<string>)
    requires r < |rows| && seenBefore == Elements(Flatten(rows[..r]))
    ensures forall p :: p in errors <==> RowFaulty(rows, r, known, p)
    ensures seen == Elements(Flatten(rows[..r]) + rows[r].fieldIds)
  {
    errors, seen := {}, seenBefore;
    var ids := rows[r].fieldIds;
    if |ids| == 0 {
      return {EmptyRow(r)}, seen;
    }
    for k := 0 to |ids|
      invariant seen == Elements(Flatten(rows[..r]) + ids[..k])
      invariant errors == SlotErrors(rows, r, k, known)
    {
      OneMoreSlot(rows, r, k, known, seen);
      if ids[k] !in known {
        errors := errors + {UnknownField(r)};
      }
      if ids[k] in seen {
        errors := errors + {RepeatedField(r)};
      }
      seen := seen + {ids[k]};
    }
    assert ids[..|ids|] == ids;
  }

  method ValidateLayout(rows: seq<Row>, known: set<string>) returns (errors: set<Problem>)
    ensures forall p :: p in errors <==> LayoutFaulty(rows, known, p)
  {
    errors := {};
    var seen: set<string> := {};
    for r := 0 to |rows|
      invariant seen == Elements(Flatten(rows[..r]))
      invariant forall p :: p in errors <==>
        (p.EmptyRow? || p.UnknownField? || p.RepeatedField?) && p.row < r && RowFaulty(rows, p.row, known, p)
    {
      var more;
      more, seen := ValidateRow(rows, r, known, seen);
      errors := errors + more;
      assert rows[..r + 1][..r] == rows[..r];
    }
    assert rows[..|rows|] == rows;
    errors := errors + set id | id in known && id !in seen :: MissingField(id);
  }

  method ValidateStages(stages: seq<Stage>) returns (errors: set<Problem>)
    ensures forall p :: p in errors <==> StagesFaulty(stages, p)
  {
    errors := {};
    var stageIDs: set<string> := {};
    for index := 0 to |stages|
      invariant stageIDs == set j | 0 <= j < index :: stages[j].id
      invariant forall p :: p in errors <==> p.InStage? && p.index < index && StageFaulty(stages, p.index, p.stageFault)
    {
      var faults := ValidateStage(stages[index], stages[index].id in stageIDs);
      assert forall fault :: fault in faults <==> StageFaulty(stages, index, fault);
      errors := errors + set fault | fault in faults :: InStage(index, fault);
      stageIDs := stageIDs + {stages[index].id};
    }
    if |stages| == 0 {
      errors := errors + {NoStages};
    }
  }

  method ReportStage(badId: bool, repeated: bool, badType: bool, noCaption: bool, retired: bool, noApprover: bool)
    returns (faults: set<StageFault>)
    ensures forall fault :: fault in faults <==>
      || (fault == InvalidStageId && badId) || (fault == DuplicateStage && repeated)
      || (fault == BadStageType && badType)
      || (fault == NoStageCaption && noCaption) || (fault == GroupsRetired && retired)
      || (fault == NoApprover && noApprover)
  {
    faults := Report(badId, InvalidStageId) + Report(repeated, DuplicateStage) + Report(badType, BadStageType);
    faults := faults + Report(noCaption, NoStageCaption) + Report(retired, GroupsRetired)
      + Report(noApprover, NoApprover);
  }

  method ValidateStage(stage: Stage, repeated: bool) returns (faults: set<StageFault>)
    ensures forall fault :: fault in faults <==> (fault == DuplicateStage && repeated) || StageOwnFaulty(stage, fault)
  {
    faults := ReportStage(!IsIdentifier(Trim(stage.id)), repeated, Trim(stage.kind) !in STAGE_TYPES,
                          Trim(stage.caption) == "",
                          stage.userGroups != [],
                          stage.kind == "approver" && Trim(stage.role) == "" && stage.accounts == []);
  }

  /** The reported errors are exactly the schema's violations, and the verdict is that there are none.
      An error reported several times for one place counts once; the order is not modelled. */
  method ValidateFormDefinitionSchemaV2(schema: Schema) returns (valid: bool, errors: set<Problem>)
    ensures forall p :: p in errors <==> Violates(schema, p)
    ensures valid <==> errors == {}
  {
    errors := Report(schema.version != 2, BadVersion) + Report(Trim(schema.name) == "", NoName);
    var inFields, fieldIDs := ValidateFields(schema.fields);
    var inLayout := ValidateLayout(schema.rows, fieldIDs);
    var inStages := ValidateStages(schema.stages);
    errors := errors + inFields + inLayout + inStages;
    valid := errors == {};
  }

  // ------------------------------------------------------------ exactness

  /** The data sources a form may read, with the names each of them offers. */
  predicate Offers(source: string, name: string) {
    || (source == "current_user"
        && name in {"display_name", "email", "employee_id", "employee_no", "department_id", "department_name",
                    "position_id", "position_name"})
    || (source == "departments" && name in {"id", "name", "code"})
    || (source == "employees"
        && name in {"id", "name", "employee_no", "email", "department_id", "department_name", "position_id",
                    "position_name", "work_status"})
    || (source == "positions" && name in {"id", "name", "code", "department_id"})
    || (source == "leave_types" && name in {"code", "name"})
  }

  /** A widget that chooses among options. */
  predicate Chooses(widget: string) {
    Trim(widget) == "select" || Trim(widget) == "radio" || Trim(widget) == "multilist"
  }

  predicate FitsLength(r: Rules, n: int) {
    (r.minLength.Some? ==> r.minLength.value <= n) && (r.maxLength.Some? ==> n <= r.maxLength.value)
  }

  predicate FitsValue(r: Rules, v: real) {
    (r.min.Some? ==> r.min.value <= v) && (r.max.Some? ==> v <= r.max.value)
  }

  /** Only employees can be filtered, by their work status, to one or more known ones. */
  predicate FilterSound(source: string, name: string, values: seq<string>) {
    && source == "employees" && name == "work_status" && values != []
    && forall v | v in values :: v in {"active", "probation", "leave_suspended", "onboarding", "resigned"}
  }

  predicate BindingSound(field: Field, b: Binding) {
    var source := Trim(b.sourceId);
    && Offers(source, Trim(b.valueField))
    && (forall name | name in b.filters :: FilterSound(source, name, b.filters[name]))
    && (if source == "current_user" then field.widget == "autofill" || field.widget == "readonly"
        else Offers(source, Trim(b.labelField)) && Chooses(field.widget))
  }

  ghost predicate FieldSound(field: Field) {
    && IsIdentifier(Trim(field.id)) && Trim(field.caption) != ""
    && Trim(field.dataType) in {"string", "number", "boolean", "date", "datetime", "string_array", "object"}
    && Trim(field.widget) in {"input", "textarea", "number", "checkbox", "date", "datetime", "select", "radio",
                              "multilist", "autofill", "readonly"}
    && (field.rules.pattern == "" || field.rules.patternCompiles)
    && (exists n :: FitsLength(field.rules, n)) && (exists v :: FitsValue(field.rules, v))
    && (Chooses(field.widget) ==> field.options != [] || field.binding.Some?)
    && (field.binding.Some? ==> BindingSound(field, field.binding.value))
  }

  predicate StageSound(stage: Stage) {
    && IsIdentifier(Trim(stage.id)) && Trim(stage.kind) in {"approver", "condition", "notify"}
    && Trim(stage.caption) != "" && stage.userGroups == []
    && (stage.kind == "approver" ==> Trim(stage.role) != "" || stage.accounts != [])
  }

  function TrimmedIds(fields: seq<Field>): (ids: seq<string>)
    ensures |ids| == |fields| && forall i | 0 <= i < |fields| :: ids[i] == Trim(fields[i].id)
  {
    seq(|fields|, i requires 0 <= i < |fields| => Trim(fields[i].id))
  }

  predicate Distinct<T(==)>(s: seq<T>) {
    forall i, j | 0 <= i < j < |s| :: s[i] != s[j]
  }

  predicate StagesSound(stages: seq<Stage>) {
    && (forall stage | stage in stages :: StageSound(stage))
    && (forall i, j | 0 <= i < j < |stages| :: stages[i].id != stages[j].id)
  }

  predicate PlacesEveryFieldOnce(schema: Schema) {
    && (forall row | row in schema.rows :: row.fieldIds != [])
    && multiset(Flatten(schema.rows)) == multiset(TrimmedIds(schema.fields))
  }

  /** What a usable schema is: sound fields under distinct identifiers, a layout without empty rows that
      places every field exactly once, and at least one stage, all sound and distinct. */
  ghost predicate WellFormed(schema: Schema) {
    && schema.version == 2 && Trim(schema.name) != ""
    && (forall f | f in schema.fields :: FieldSound(f))
    && Distinct(TrimmedIds(schema.fields))
    && PlacesEveryFieldOnce(schema)
    && schema.stages != []
    && StagesSound(schema.stages)
  }

  /** The bounds on lengths are consistent exactly if some length meets them, those on values if some
      number does. */
  lemma BoundsExactly(r: Rules)
    ensures BadLengths(r) <==> !exists n :: FitsLength(r, n)
    ensures BadRange(r) <==> !exists v :: FitsValue(r, v)
  {
    assert r.minLength.Some? && !BadLengths(r) ==> FitsLength(r, r.minLength.value);
    assert r.minLength.None? && r.maxLength.Some? ==> FitsLength(r, r.maxLength.value);
    assert r.minLength.None? && r.maxLength.None? ==> FitsLength(r, 0);
    assert r.min.Some? && !BadRange(r) ==> FitsValue(r, r.min.value);
    assert r.min.None? && r.max.Some? ==> FitsValue(r, r.max.value);
    assert r.min.None? && r.max.None? ==> FitsValue(r, 0.0);
  }

  lemma SourcesExactly(source: string, name: string)
    ensures Offers(source, name) <==> source in Sources() && name in Sources()[source]
  {
  }

  lemma WidgetsExactly(widget: string)
    ensures IsOptionWidget(widget) <==> Chooses(widget)
  {
  }

  lemma FiltersExactly(source: string, filters: map<string, seq<string>>)
    ensures (forall fault :: !FilterFaulty(filters, FilterNames(source), WORK_STATUSES, fault)) <==>
              (forall name | name in filters :: FilterSound(source, name, filters[name]))
  {
    forall name | name in filters
      ensures FilterSound(source, name, filters[name]) <==>
        !FilterFaulty(filters, FilterNames(source), WORK_STATUSES, BadFilter(name))
        && !FilterFaulty(filters, FilterNames(source), WORK_STATUSES, EmptyFilter(name))
        && !FilterFaulty(filters, FilterNames(source), WORK_STATUSES, BadFilterValue(name))
    {
    }
  }

  /** A binding without faults, in the validator's own tables. */
  predicate BindingPasses(field: Field, b: Binding) {
    var source := Trim(b.sourceId);
    && source in Sources() && Trim(b.valueField) in Sources()[source]
    && (if source == "current_user" then field.widget == "autofill" || field.widget == "readonly"
        else Trim(b.labelField) in Sources()[source] && IsOptionWidget(field.widget))
  }

  lemma BindingPassesExactly(field: Field, b: Binding)
    ensures (forall fault :: !BindingFaulty(field, b, fault)) <==>
              && BindingPasses(field, b)
              && (forall fault :: !FilterFaulty(b.filters, FilterNames(Trim(b.sourceId)), WORK_STATUSES, fault))
  {
    if forall fault :: !BindingFaulty(field, b, fault) {
      assert !BindingFaulty(field, b, BadSource) && !BindingFaulty(field, b, BadValueField);
      assert !BindingFaulty(field, b, NotAutofill) && !BindingFaulty(field, b, BadLabelField)
             && !BindingFaulty(field, b, NotOptionWidget);
      forall fault ensures !FilterFaulty(b.filters, FilterNames(Trim(b.sourceId)), WORK_STATUSES, fault) {
        assert !BindingFaulty(field, b, fault);
      }
    }
  }

  lemma BindingSoundExactly(field: Field, b: Binding)
    ensures (forall fault :: !BindingFaulty(field, b, fault)) <==> BindingSound(field, b)
  {
    var source := Trim(b.sourceId);
    BindingPassesExactly(field, b);
    SourcesExactly(source, Trim(b.valueField));
    SourcesExactly(source, Trim(b.labelField));
    WidgetsExactly(field.widget);
    FiltersExactly(source, b.filters);
  }

  lemma NoChecksFail(c: Checks)
    ensures (forall fault :: !Faulted(c, fault)) <==>
              c == Checks(false, false, false, false, false, false, false, false)
  {
    assert Faulted(c, InvalidId) == c.badId && Faulted(c, NoCaption) == c.noCaption
           && Faulted(c, BadDataType) == c.badType;
    assert Faulted(c, BadWidget) == c.badWidget && Faulted(c, BadPattern) == c.badPattern
           && Faulted(c, LengthRange) == c.badLengths;
    assert Faulted(c, ValueRange) == c.badRange && Faulted(c, NoOptions) == c.noOptions;
  }

  lemma FieldSoundExactly(field: Field)
    ensures (forall fault :: !Faulted(CheckField(field), fault))
         && (field.binding.Some? ==> forall fault :: !BindingFaulty(field, field.binding.value, fault))
       <==> FieldSound(field)
  {
    NoChecksFail(CheckField(field));
    BoundsExactly(field.rules);
    WidgetsExactly(field.widget);
    if field.binding.Some? {
      BindingSoundExactly(field, field.binding.value);
    }
  }

  lemma {:induction false} DistinctCounts<T>(s: seq<T>, x: T)
    requires Distinct(s)
    ensures multiset(s)[x] <= 1
  {
    if s != [] {
      var init := s[..|s| - 1];
      assert s == init + [s[|s| - 1]];
      DistinctCounts(init, x);
      assert x == s[|s| - 1] ==> x !in init;
    }
  }

  lemma CountsDistinct<T(!new)>(s: seq<T>)
    requires forall x :: multiset(s)[x] <= 1
    ensures Distinct(s)
  {
    forall i, j | 0 <= i < j < |s| ensures s[i] != s[j] {
      assert s == s[..j] + s[j..];
      assert s[i] in s[..j] && s[j] in s[j..];
      assert multiset(s)[s[i]] == multiset(s[..j])[s[i]] + multiset(s[j..])[s[i]];
    }
  }

  /** Two lists without repeats have the same elements exactly when they are permutations. */
  lemma DistinctPermutation(s: seq<string>, t: seq<string>)
    requires Distinct(t)
    ensures Distinct(s) && Elements(s) == Elements(t) <==> multiset(s) == multiset(t)
  {
    if multiset(s) == multiset(t) {
      forall x ensures multiset(s)[x] <= 1 && (x in s <==> x in t) {
        DistinctCounts(t, x);
        assert (x in s <==> x in multiset(s)) && (x in t <==> x in multiset(t));
      }
      CountsDistinct(s);
    } else if Distinct(s) && Elements(s) == Elements(t) {
      forall x ensures multiset(s)[x] == multiset(t)[x] {
        DistinctCounts(s, x);
        DistinctCounts(t, x);
        assert x in s <==> x in Elements(s);
        assert (x in s <==> x in multiset(s)) && (x in t <==> x in multiset(t));
      }
    }
  }

  lemma AppendDistinct(a: seq<string>, b: seq<string>)
    ensures Distinct(a + b) <==> Distinct(a) && forall k | 0 <= k < |b| :: b[k] !in a + b[..k]
  {
    var c := a + b;
    if Distinct(c) {
      forall i, j | 0 <= i < j < |a| ensures a[i] != a[j] {
        assert c[i] == a[i] && c[j] == a[j];
      }
      forall k | 0 <= k < |b| ensures b[k] !in a + b[..k] {
        assert a + b[..k] == c[..|a| + k] && c[|a| + k] == b[k];
      }
    } else if Distinct(a) && forall k | 0 <= k < |b| :: b[k] !in a + b[..k] {
      forall i, j | 0 <= i < j < |c| ensures c[i] != c[j] {
        if j >= |a| {
          assert c[j] == b[j - |a|] && (a + b[..j - |a|])[i] == c[i];
        }
      }
    }
  }

  lemma {:induction false} NoRepeatsExactly(rows: seq<Row>)
    ensures (forall r | 0 <= r < |rows| :: !Repeats(rows, r, |rows[r].fieldIds|)) <==> Distinct(Flatten(rows))
  {
    if rows != [] {
      var n := |rows| - 1;
      var init := rows[..n];
      NoRepeatsExactly(init);
      AppendDistinct(Flatten(init), rows[n].fieldIds);
      forall r | 0 <= r < n ensures Repeats(rows, r, |rows[r].fieldIds|) == Repeats(init, r, |init[r].fieldIds|) {
        assert rows[..r] == init[..r] && rows[r] == init[r];
      }
      var last := rows[n].fieldIds;
      assert Repeats(rows, n, |last|) <==> !(forall k | 0 <= k < |last| :: last[k] !in Flatten(init) + last[..k]);
    }
  }

  lemma {:induction false} FlattenMembers(rows: seq<Row>, id: string)
    ensures id in Flatten(rows) <==> exists r | 0 <= r < |rows| :: id in rows[r].fieldIds
  {
    if rows != [] {
      FlattenMembers(rows[..|rows| - 1], id);
      assert forall r | 0 <= r < |rows| - 1 :: rows[..|rows| - 1][r] == rows[r];
    }
  }

  ghost predicate LayoutClean(schema: Schema) {
    && (forall r: nat :: !Violates(schema, EmptyRow(r))) && (forall r: nat :: !Violates(schema, UnknownField(r)))
    && (forall r: nat :: !Violates(schema, RepeatedField(r))) && (forall id :: !Violates(schema, MissingField(id)))
  }

  lemma EmptyRowsExactly(schema: Schema)
    ensures (forall r: nat :: !Violates(schema, EmptyRow(r))) <==>
              (forall row | row in schema.rows :: row.fieldIds != [])
  {
    assert forall r | 0 <= r < |schema.rows| :: Violates(schema, EmptyRow(r)) <==> schema.rows[r].fieldIds == [];
  }

  lemma RepeatedExactly(schema: Schema)
    ensures (forall r: nat :: !Violates(schema, RepeatedField(r))) <==> Distinct(Flatten(schema.rows))
  {
    NoRepeatsExactly(schema.rows);
    assert forall r | 0 <= r < |schema.rows| :: Violates(schema, RepeatedField(r)) <==>
             Repeats(schema.rows, r, |schema.rows[r].fieldIds|);
  }

  lemma UnknownExactly(schema: Schema)
    ensures (forall r: nat :: !Violates(schema, UnknownField(r)))
       <==> Elements(Flatten(schema.rows)) <= IdSet(schema.fields, |schema.fields|)
  {
    var known := IdSet(schema.fields, |schema.fields|);
    if forall r: nat :: !Violates(schema, UnknownField(r)) {
      forall id | id in Flatten(schema.rows) ensures id in known {
        FlattenMembers(schema.rows, id);
        var r :| 0 <= r < |schema.rows| && id in schema.rows[r].fieldIds;
        assert !Violates(schema, UnknownField(r));
      }
    } else {
      var r: nat :| Violates(schema, UnknownField(r));
      var id :| id in schema.rows[r].fieldIds && id !in known;
      FlattenMembers(schema.rows, id);
      assert id in Elements(Flatten(schema.rows));
    }
  }

  lemma MissingExactly(schema: Schema)
    ensures (forall id :: !Violates(schema, MissingField(id)))
       <==> IdSet(schema.fields, |schema.fields|) <= Elements(Flatten(schema.rows))
  {
    assert forall id :: Violates(schema, MissingField(id)) <==>
             id in IdSet(schema.fields, |schema.fields|) && id !in Flatten(schema.rows);
  }

  /** The layout checks together: given distinct identifiers they pass exactly when no row is empty and
      the flattened layout is a permutation of the declared fields. */
  lemma LayoutExactly(schema: Schema)
    requires Distinct(TrimmedIds(schema.fields))
    ensures LayoutClean(schema) <==> PlacesEveryFieldOnce(schema)
  {
    EmptyRowsExactly(schema);
    RepeatedExactly(schema);
    UnknownExactly(schema);
    MissingExactly(schema);
    DistinctPermutation(Flatten(schema.rows), TrimmedIds(schema.fields));
    KnownIds(schema.fields);
  }

  lemma KnownIds(fields: seq<Field>)
    ensures IdSet(fields, |fields|) == Elements(TrimmedIds(fields))
  {
  }

  ghost predicate FieldAccepted(fields: seq<Field>, i: nat)
    requires i < |fields|
  {
    FieldSound(fields[i]) && Trim(fields[i].id) !in IdSet(fields, i)
  }

  lemma FieldExactly(fields: seq<Field>, i: nat)
    requires i < |fields|
    ensures (forall fault :: !FieldFaulty(fields, i, fault)) <==> FieldAccepted(fields, i)
  {
    var f := fields[i];
    FieldSoundExactly(f);
    if forall fault :: !FieldFaulty(fields, i, fault) {
      assert !FieldFaulty(fields, i, DuplicateId);
      forall fault ensures !Faulted(CheckField(f), fault)
        && (f.binding.Some? ==> !BindingFaulty(f, f.binding.value, fault)) {
        assert !FieldFaulty(fields, i, fault);
      }
    }
  }

  lemma DistinctIds(fields: seq<Field>)
    ensures Distinct(TrimmedIds(fields)) <==> forall i | 0 <= i < |fields| :: Trim(fields[i].id) !in IdSet(fields, i)
  {
    if Distinct(TrimmedIds(fields)) {
      forall i, j | 0 <= j < i < |fields| ensures Trim(fields[i].id) != Trim(fields[j].id) {
        assert TrimmedIds(fields)[j] != TrimmedIds(fields)[i];
      }
    }
  }

  lemma AllAccepted(fields: seq<Field>)
    ensures (forall i | 0 <= i < |fields| :: FieldAccepted(fields, i))
       <==> (forall f | f in fields :: FieldSound(f)) && Distinct(TrimmedIds(fields))
  {
    DistinctIds(fields);
    if forall i | 0 <= i < |fields| :: FieldAccepted(fields, i) {
      forall f | f in fields ensures FieldSound(f) {
        var i: nat :| i < |fields| && fields[i] == f;
        assert FieldAccepted(fields, i);
      }
      forall i | 0 <= i < |fields| ensures Trim(fields[i].id) !in IdSet(fields, i) {
        assert FieldAccepted(fields, i);
      }
    }
  }

  lemma FieldViolation(schema: Schema, i: nat, fault: FieldFault)
    ensures Violates(schema, InField(i, fault)) <==> i < |schema.fields| && FieldFaulty(schema.fields, i, fault)
  {
  }

  lemma FieldsExactly(schema: Schema)
    ensures (forall i: nat, fault :: !Violates(schema, InField(i, fault)))
       <==> (forall f | f in schema.fields :: FieldSound(f)) && Distinct(TrimmedIds(schema.fields))
  {
    var fields := schema.fields;
    AllAccepted(fields);
    if forall i: nat, fault :: !Violates(schema, InField(i, fault)) {
      forall i | 0 <= i < |fields| ensures FieldAccepted(fields, i) {
        forall fault ensures !FieldFaulty(fields, i, fault) {
          FieldViolation(schema, i, fault);
        }
        FieldExactly(fields, i);
      }
    } else {
      var i: nat, fault :| Violates(schema, InField(i, fault));
      FieldViolation(schema, i, fault);
      FieldExactly(fields, i);
      assert !FieldAccepted(fields, i);
    }
  }

  predicate StageAccepted(stages: seq<Stage>, i: nat)
    requires i < |stages|
  {
    StageSound(stages[i]) && forall j | 0 <= j < i :: stages[j].id != stages[i].id
  }

  lemma StageOwnExactly(stage: Stage)
    ensures (forall fault :: !StageOwnFaulty(stage, fault)) <==> StageSound(stage)
  {
    if forall fault :: !StageOwnFaulty(stage, fault) {
      assert !StageOwnFaulty(stage, InvalidStageId) && !StageOwnFaulty(stage, BadStageType);
      assert !StageOwnFaulty(stage, NoStageCaption) && !StageOwnFaulty(stage, GroupsRetired)
             && !StageOwnFaulty(stage, NoApprover);
    }
  }

  lemma StageExactly(schema: Schema, i: nat)
    requires i < |schema.stages|
    ensures (forall fault :: !Violates(schema, InStage(i, fault))) <==> StageAccepted(schema.stages, i)
  {
    var stage := schema.stages[i];
    StageOwnExactly(stage);
    assert forall fault :: Violates(schema, InStage(i, fault)) <==> StageFaulty(schema.stages, i, fault);
    if forall fault :: !Violates(schema, InStage(i, fault)) {
      assert !Violates(schema, InStage(i, DuplicateStage));
      forall fault ensures !StageOwnFaulty(stage, fault) {
        assert !StageFaulty(schema.stages, i, fault);
      }
    }
  }

  lemma StagesExactly(schema: Schema)
    ensures (forall i: nat, fault :: !Violates(schema, InStage(i, fault))) <==> StagesSound(schema.stages)
  {
    if forall i: nat, fault :: !Violates(schema, InStage(i, fault)) {
      forall i | 0 <= i < |schema.stages| ensures StageAccepted(schema.stages, i) {
        StageExactly(schema, i);
      }
      forall stage | stage in schema.stages ensures StageSound(stage) {
        var i: nat :| i < |schema.stages| && schema.stages[i] == stage;
        assert StageAccepted(schema.stages, i);
      }
      forall i, j | 0 <= i < j < |schema.stages| ensures schema.stages[i].id != schema.stages[j].id {
        assert StageAccepted(schema.stages, j);
      }
    } else {
      var i: nat, fault :| Violates(schema, InStage(i, fault));
      StageExactly(schema, i);
      assert !StageAccepted(schema.stages, i);
    }
  }

  lemma CleanIsWellFormed(schema: Schema)
    requires forall p :: !Violates(schema, p)
    ensures WellFormed(schema)
  {
    FieldsExactly(schema);
    StagesExactly(schema);
    LayoutExactly(schema);
    assert !Violates(schema, BadVersion) && !Violates(schema, NoName) && !Violates(schema, NoStages);
  }

  lemma WellFormedIsClean(schema: Schema, p: Problem)
    requires WellFormed(schema)
    ensures !Violates(schema, p)
  {
    match p
    case InField(_, _) => FieldsExactly(schema);
    case InStage(_, _) => StagesExactly(schema);
    case EmptyRow(_) => LayoutExactly(schema);
    case UnknownField(_) => LayoutExactly(schema);
    case RepeatedField(_) => LayoutExactly(schema);
    case MissingField(_) => LayoutExactly(schema);
    case _ =>
  }

  /** The validator accepts exactly the well-formed schemas. */
  lemma AcceptedExactly(schema: Schema)
    ensures (forall p :: !Violates(schema, p)) <==> WellFormed(schema)
  {
    if forall p :: !Violates(schema, p) {
      CleanIsWellFormed(schema);
    }
    if WellFormed(schema) {
      forall p {
        WellFormedIsClean(schema, p);
      }
    }
  }
}
