/** The validator's errors and the compiler's nodes one by one: what each error code says about the part
    of the schema it names, and what each column of a compiled node is. */
module FormRules {
  import opened AttendanceRecords
  import opened FormDefinitions
  import opened FormCompiler

  // ------------------------------------------------ trimming, identifiers

  /** The white space that trimming removes. */
  predicate IsBlank(c: char) {
    c in ['\t', '\n', '\U{000B}', '\U{000C}', '\r', ' ', '\U{0085}', '\U{00A0}', '\U{1680}', '\U{2000}', '\U{2001}',
          '\U{2002}', '\U{2003}', '\U{2004}', '\U{2005}', '\U{2006}', '\U{2007}', '\U{2008}', '\U{2009}', '\U{200A}',
          '\U{2028}', '\U{2029}', '\U{202F}', '\U{205F}', '\U{3000}']
  }

  lemma BlankExactly(c: char)
    ensures IsSpace(c) <==> IsBlank(c)
  {
  }

  predicate AllBlank(s: string) {
    forall c | c in s :: IsSpace(c)
  }

  /** A text between surrounding white space, itself neither starting nor ending with any. */
  predicate IsCore(s: string, t: string, before: nat) {
    && before + |t| <= |s| && s[before..before + |t|] == t
    && AllBlank(s[..before]) && AllBlank(s[before + |t|..]) && Tight(t)
  }

  lemma {:induction false} LeftCore(s: string) returns (before: nat)
    ensures before <= |s| && TrimLeft(s) == s[before..] && AllBlank(s[..before])
    ensures before < |s| ==> !IsSpace(s[before])
  {
    if s != [] && IsSpace(s[0]) {
      var k := LeftCore(s[1..]);
      before := k + 1;
      assert s[..before] == [s[0]] + s[1..][..k];
    } else {
      before := 0;
    }
  }

  lemma {:induction false} RightCore(s: string) returns (kept: nat)
    ensures kept <= |s| && TrimRight(s) == s[..kept] && AllBlank(s[kept..])
    ensures kept > 0 ==> !IsSpace(s[kept - 1])
  {
    if s != [] && IsSpace(s[|s| - 1]) {
      kept := RightCore(s[..|s| - 1]);
      assert s[kept..] == s[..|s| - 1][kept..] + [s[|s| - 1]];
    } else {
      kept := |s|;
    }
  }

  /** Trimming a text leaves what stands between its surrounding white space. */
  lemma TrimExactly(s: string) returns (before: nat)
    ensures IsCore(s, Trim(s), before)
  {
    before := LeftCore(s);
    var rest := s[before..];
    var kept := RightCore(rest);
    var t := rest[..kept];
    assert s[before..before + |t|] == t;
    assert s[before + |t|..] == rest[kept..];
  }

  lemma CoreHoldsText(s: string, t: string, before: nat)
    requires IsCore(s, t, before)
    ensures forall k | 0 <= k < |s| && !(before <= k < before + |t|) :: IsSpace(s[k])
    ensures t != "" ==> !IsSpace(s[before]) && !IsSpace(s[before + |t| - 1])
  {
    forall k | 0 <= k < |s| && !(before <= k < before + |t|) ensures IsSpace(s[k]) {
      if k < before {
        assert s[k] in s[..before];
      } else {
        assert s[before + |t|..][k - before - |t|] in s[before + |t|..];
      }
    }
    if t != "" {
      assert t[0] == s[before] && t[|t| - 1] == s[before + |t| - 1];
    }
  }

  /** And nothing else is such a text. */
  lemma CoreIsTrimmed(s: string, t: string, before: nat)
    requires IsCore(s, t, before)
    ensures t == Trim(s)
  {
    var at := TrimExactly(s);
    CoreHoldsText(s, t, before);
    CoreHoldsText(s, Trim(s), at);
  }

  const LETTERS := "abcdefghijklmnopqrstuvwxyz"
  const DIGITS := "0123456789"

  /** A letter, then up to sixty-three letters, digits, underscores or hyphens, all lower case. */
  predicate Names(s: string) {
    && 1 <= |s| <= 64 && s[0] in LETTERS
    && forall i | 0 < i < |s| :: s[i] in LETTERS || s[i] in DIGITS || s[i] == '_' || s[i] == '-'
  }

  lemma LetterExactly(c: char)
    ensures IsLower(c) <==> c in LETTERS
  {
    if IsLower(c) {
      assert LETTERS[c as int - 'a' as int] == c;
    }
  }

  lemma DigitExactly(c: char)
    ensures '0' <= c <= '9' <==> c in DIGITS
  {
    if '0' <= c <= '9' {
      assert DIGITS[c as int - '0' as int] == c;
    }
  }

  lemma NamesExactly(s: string)
    ensures IsIdentifier(s) <==> Names(s)
  {
    forall i | 0 <= i < |s| ensures IsLower(s[i]) <==> s[i] in LETTERS
      ensures '0' <= s[i] <= '9' <==> s[i] in DIGITS
    {
      LetterExactly(s[i]);
      DigitExactly(s[i]);
    }
  }

  // ---------------------------------------------- what each error code says

  lemma BlankTexts(s: string)
    ensures Trim(s) == "" <==> AllBlank(s)
  {
    var before := TrimExactly(s);
    if Trim(s) == "" {
      assert s == s[..before] + s[before..];
    } else {
      CoreHoldsText(s, Trim(s), before);
      assert s[before] in s;
    }
  }

  lemma OwnCode(schema: Schema, i: nat, fault: FieldFault)
    requires i < |schema.fields|
    requires fault == NoCaption || fault == BadPattern || fault == InvalidId || fault == LengthRange
             || fault == ValueRange || fault == NoOptions || fault == BadDataType || fault == BadWidget
    ensures Violates(schema, InField(i, fault)) <==> Faulted(CheckField(schema.fields[i]), fault)
  {
  }

  /** The codes a field gets for its name. */
  lemma IdCodeExactly(schema: Schema, i: nat)
    requires i < |schema.fields|
    ensures Violates(schema, InField(i, InvalidId)) <==> !Names(Trim(schema.fields[i].id))
  {
    OwnCode(schema, i, InvalidId);
    NamesExactly(Trim(schema.fields[i].id));
  }

  lemma DuplicateCodeExactly(schema: Schema, i: nat)
    requires i < |schema.fields|
    ensures Violates(schema, InField(i, DuplicateId)) <==>
              exists j | 0 <= j < i :: Trim(schema.fields[j].id) == Trim(schema.fields[i].id)
  {
  }

  lemma CaptionCodeExactly(schema: Schema, i: nat)
    requires i < |schema.fields|
    ensures Violates(schema, InField(i, NoCaption)) <==> AllBlank(schema.fields[i].caption)
  {
    OwnCode(schema, i, NoCaption);
    BlankTexts(schema.fields[i].caption);
  }

  /** The codes a field gets for its rules and options. */
  lemma RuleCodesExactly(schema: Schema, i: nat)
    requires i < |schema.fields|
    ensures var f := schema.fields[i];
      && (Violates(schema, InField(i, BadPattern)) <==> f.rules.pattern != "" && !f.rules.patternCompiles)
      && (Violates(schema, InField(i, LengthRange)) <==> !exists n :: FitsLength(f.rules, n))
      && (Violates(schema, InField(i, ValueRange)) <==> !exists v :: FitsValue(f.rules, v))
      && (Violates(schema, InField(i, NoOptions)) <==> Chooses(f.widget) && f.options == [] && f.binding.None?)
  {
    BoundsExactly(schema.fields[i].rules);
    WidgetsExactly(schema.fields[i].widget);
    OwnCode(schema, i, BadPattern);
    OwnCode(schema, i, LengthRange);
    OwnCode(schema, i, ValueRange);
    OwnCode(schema, i, NoOptions);
  }

  lemma DataTypeCodeExactly(schema: Schema, i: nat)
    requires i < |schema.fields|
    ensures Violates(schema, InField(i, BadDataType)) <==>
              Trim(schema.fields[i].dataType)
                !in {"string", "number", "boolean", "date", "datetime", "string_array", "object"}
  {
    OwnCode(schema, i, BadDataType);
  }

  lemma WidgetCodeExactly(schema: Schema, i: nat)
    requires i < |schema.fields|
    ensures Violates(schema, InField(i, BadWidget)) <==>
              Trim(schema.fields[i].widget)
                !in {"input", "textarea", "number", "checkbox", "date", "datetime", "select", "radio", "multilist",
                     "autofill", "readonly"}
  {
    OwnCode(schema, i, BadWidget);
  }

  /** A field whose bounds on lengths are accepted admits the length of some text exactly if its upper
      bound is not negative, which is not checked. */
  lemma TextLengthsExactly(r: Rules)
    requires exists n :: FitsLength(r, n)
    ensures (exists n: nat :: FitsLength(r, n)) <==> r.maxLength.None? || r.maxLength.value >= 0
  {
    if r.maxLength.None? || r.maxLength.value >= 0 {
      var n := if r.minLength.Some? && r.minLength.value > 0 then r.minLength.value else 0;
      assert FitsLength(r, n);
    }
  }

  predicate KnownSource(source: string) {
    source in {"current_user", "departments", "employees", "positions", "leave_types"}
  }

  lemma KnownExactly(source: string)
    ensures source in Sources() <==> KnownSource(source)
  {
  }

  /** The codes a field gets for its binding. */
  lemma BindingCodesExactly(field: Field, b: Binding)
    ensures var source := Trim(b.sourceId);
      && (BindingFaulty(field, b, BadSource) <==> !KnownSource(source))
      && (BindingFaulty(field, b, BadValueField) <==> KnownSource(source) && !Offers(source, Trim(b.valueField)))
      && (BindingFaulty(field, b, NotAutofill) <==>
            source == "current_user" && field.widget != "autofill" && field.widget != "readonly")
      && (BindingFaulty(field, b, BadLabelField) <==>
            KnownSource(source) && source != "current_user" && !Offers(source, Trim(b.labelField)))
      && (BindingFaulty(field, b, NotOptionWidget) <==>
            KnownSource(source) && source != "current_user" && !Chooses(field.widget))
  {
    var source := Trim(b.sourceId);
    KnownExactly(source);
    SourcesExactly(source, Trim(b.valueField));
    SourcesExactly(source, Trim(b.labelField));
    WidgetsExactly(field.widget);
  }

  /** And for its filters. */
  lemma FilterCodesExactly(field: Field, b: Binding, name: string)
    ensures var source := Trim(b.sourceId);
            var filtered := KnownSource(source) && name in b.filters;
            var allowed := source == "employees" && name == "work_status";
      && (BindingFaulty(field, b, BadFilter(name)) <==> filtered && !allowed)
      && (BindingFaulty(field, b, EmptyFilter(name)) <==> filtered && allowed && b.filters[name] == [])
      && (BindingFaulty(field, b, BadFilterValue(name)) <==>
            && filtered && allowed && b.filters[name] != []
            && exists v | v in b.filters[name] ::
                 v !in {"active", "probation", "leave_suspended", "onboarding", "resigned"})
  {
    KnownExactly(Trim(b.sourceId));
  }

  lemma BoundFieldExactly(schema: Schema, i: nat, fault: FieldFault)
    requires i < |schema.fields|
    requires fault.BadSource? || fault.BadValueField? || fault.NotAutofill? || fault.BadLabelField?
             || fault.NotOptionWidget? || fault.BadFilter? || fault.EmptyFilter? || fault.BadFilterValue?
    ensures Violates(schema, InField(i, fault)) <==>
      schema.fields[i].binding.Some? && BindingFaulty(schema.fields[i], schema.fields[i].binding.value, fault)
  {
  }

  /** Some earlier slot of the layout, in reading order, holds the same identifier. */
  predicate PlacedBefore(rows: seq<Row>, r: nat, k: nat)
    requires r < |rows| && k < |rows[r].fieldIds|
  {
    || (exists j | 0 <= j < k :: rows[r].fieldIds[j] == rows[r].fieldIds[k])
    || (exists q | 0 <= q < r :: rows[r].fieldIds[k] in rows[q].fieldIds)
  }

  lemma EarlierSlots(rows: seq<Row>, r: nat, k: nat)
    requires r < |rows| && k < |rows[r].fieldIds|
    ensures rows[r].fieldIds[k] in Flatten(rows[..r]) + rows[r].fieldIds[..k] <==> PlacedBefore(rows, r, k)
  {
    var id := rows[r].fieldIds[k];
    FlattenMembers(rows[..r], id);
    assert id in rows[r].fieldIds[..k] <==> exists j | 0 <= j < k :: rows[r].fieldIds[j] == id;
    assert (exists row | row in rows[..r] :: id in row.fieldIds) <==>
             (exists q | 0 <= q < r :: id in rows[q].fieldIds) by {
      if q :| 0 <= q < r && id in rows[q].fieldIds {
        assert rows[..r][q] in rows[..r];
      }
      if row :| row in rows[..r] && id in row.fieldIds {
        var q :| 0 <= q < r && rows[..r][q] == row;
        assert rows[q] == row;
      }
    }
  }

  /** The codes of the layout: of a row, and of a field that has no place in any. */
  lemma LayoutCodesExactly(schema: Schema, r: nat)
    requires r < |schema.rows|
    ensures var rows, known := schema.rows, set f | f in schema.fields :: Trim(f.id);
      && (Violates(schema, EmptyRow(r)) <==> rows[r].fieldIds == [])
      && (Violates(schema, UnknownField(r)) <==> exists id | id in rows[r].fieldIds :: id !in known)
      && (Violates(schema, RepeatedField(r)) <==> exists k | 0 <= k < |rows[r].fieldIds| :: PlacedBefore(rows, r, k))
  {
    KnownAgain(schema.fields);
    forall k | 0 <= k < |schema.rows[r].fieldIds|
      ensures schema.rows[r].fieldIds[k] in Flatten(schema.rows[..r]) + schema.rows[r].fieldIds[..k]
         <==> PlacedBefore(schema.rows, r, k)
    {
      EarlierSlots(schema.rows, r, k);
    }
  }

  lemma KnownAgain(fields: seq<Field>)
    ensures IdSet(fields, |fields|) == set f | f in fields :: Trim(f.id)
  {
  }

  lemma MissingExactly(schema: Schema, id: string)
    ensures Violates(schema, MissingField(id)) <==>
      && (exists f :: f in schema.fields && Trim(f.id) == id)
      && !(exists row :: row in schema.rows && id in row.fieldIds)
  {
    KnownAgain(schema.fields);
    FlattenMembers(schema.rows, id);
  }

  /** The codes of a stage, and of the schema as a whole. */
  lemma StageCodesExactly(schema: Schema, i: nat)
    requires i < |schema.stages|
    ensures var st := schema.stages[i];
      && (Violates(schema, InStage(i, DuplicateStage)) <==> exists j | 0 <= j < i :: schema.stages[j].id == st.id)
      && (Violates(schema, InStage(i, BadStageType)) <==> Trim(st.kind) !in {"approver", "condition", "notify"})
      && (Violates(schema, InStage(i, GroupsRetired)) <==> st.userGroups != [])
  {
  }

  lemma StageCode(schema: Schema, i: nat, fault: StageFault)
    requires i < |schema.stages| && fault != DuplicateStage
    ensures Violates(schema, InStage(i, fault)) <==> StageOwnFaulty(schema.stages[i], fault)
  {
  }

  lemma StageIdExactly(schema: Schema, i: nat)
    requires i < |schema.stages|
    ensures Violates(schema, InStage(i, InvalidStageId)) <==> !Names(Trim(schema.stages[i].id))
  {
    StageCode(schema, i, InvalidStageId);
    NamesExactly(Trim(schema.stages[i].id));
  }

  lemma StageTextsExactly(schema: Schema, i: nat)
    requires i < |schema.stages|
    ensures var st := schema.stages[i];
      && (Violates(schema, InStage(i, NoStageCaption)) <==> AllBlank(st.caption))
      && (Violates(schema, InStage(i, NoApprover)) <==>
            st.kind == "approver" && AllBlank(st.role) && st.accounts == [])
  {
    StageCode(schema, i, NoStageCaption);
    StageCode(schema, i, NoApprover);
    BlankTexts(schema.stages[i].caption);
    BlankTexts(schema.stages[i].role);
  }

  lemma SchemaCodesExactly(schema: Schema)
    ensures Violates(schema, BadVersion) <==> schema.version != 2
    ensures Violates(schema, NoName) <==> AllBlank(schema.name)
    ensures Violates(schema, NoStages) <==> schema.stages == []
  {
    BlankTexts(schema.name);
  }

  // ------------------------------------------------ what a compiled node is

  predicate RuntimeKind(kind: string) {
    kind in {"text", "input", "textarea", "number", "checkbox", "date", "datetime", "select", "radio", "multilist",
             "autofill"}
  }

  /** A control's columns: the field's own, with empty parts left out. */
  lemma ControlExactly(f: Field, parent: string, slot: nat)
    ensures var n := ControlNode(f, parent, slot);
      && n.id == f.id && n.caption == f.caption && n.content.Control?
      && n.content.placeholder == f.placeholder && n.content.required == f.required
      && n.content.defaultValue == f.defaultValue && n.content.parent == parent && n.content.slot == slot
      && (f.options == [] ==> n.content.options == None) && (f.options != [] ==> n.content.options == Some(f.options))
      && n.content.binding == f.binding
      && (n.content.analytics == None <==>
            !f.analytics.reportable && !f.analytics.filterable && !f.analytics.groupable && f.analytics.role == "")
      && (n.content.analytics != None ==> n.content.analytics == Some(f.analytics))
      && (n.content.security == None <==>
            f.security.classification == "" && f.security.masking == "" && !f.security.agentAccess)
      && (n.content.security != None ==> n.content.security == Some(f.security))
  {
  }

  /** Its kind: text for a string input, autofill for a read-only field, otherwise the widget. */
  lemma KindExactly(f: Field, parent: string, slot: nat)
    ensures var kind := ControlNode(f, parent, slot).kind;
      && (kind == "text" <==> f.widget == "text" || (f.widget == "input" && f.dataType == "string"))
      && (kind == "autofill" <==> f.widget == "autofill" || f.widget == "readonly")
      && (kind != "text" && kind != "autofill" ==> kind == f.widget)
  {
  }

  lemma TightWidgets(widget: string)
    requires Trim(widget) in {"input", "textarea", "number", "checkbox", "date", "datetime", "select", "radio",
                              "multilist", "autofill", "readonly"}
    ensures Tight(widget) <==> widget in {"input", "textarea", "number", "checkbox", "date", "datetime", "select",
                                          "radio", "multilist", "autofill", "readonly"}
  {
    TrimIsTight(widget);
    TrimIsTight(Trim(widget));
    if widget in {"input", "textarea", "number", "checkbox", "date", "datetime", "select", "radio", "multilist",
                  "autofill", "readonly"} {
      assert !IsSpace(widget[0]) && !IsSpace(widget[|widget| - 1]);
    }
  }

  /** A compiled control has a kind the runtime knows exactly if its accepted widget has no surrounding
      white space: the validator trims the name, the compiler does not. */
  lemma KnownKindExactly(f: Field, parent: string, slot: nat)
    requires FieldSound(f)
    ensures RuntimeKind(ControlNode(f, parent, slot).kind) <==> Tight(f.widget)
  {
    TightWidgets(f.widget);
    KindExactly(f, parent, slot);
  }

  /** An accepted field whose control the runtime does not know: its widget starts with a space. */
  lemma PaddedWidgetIsUnknown(slot: nat)
    ensures var f := SPACED_FIELD.(widget := " input");
      FieldSound(f) && !RuntimeKind(ControlNode(f, "p", slot).kind)
  {
    var f := SPACED_FIELD.(widget := " input");
    SpacedFieldSound();
    TightLiterals();
    assert " input"[1..] == "input" && TrimLeft(" input") == TrimLeft("input") == "input";
    assert FitsLength(f.rules, 0) && FitsValue(f.rules, 0.0);
    assert FieldSound(f);
    KnownKindExactly(f, "p", slot);
  }

  /** The number a text of digits denotes. */
  function Value(s: string): int {
    if s == "" then 0 else 10 * Value(s[..|s| - 1]) + (s[|s| - 1] as int - '0' as int)
  }

  lemma {:induction false} DigitsExactly(n: nat)
    ensures Digits(n) != "" && Value(Digits(n)) == n
    ensures forall c | c in Digits(n) :: c in DIGITS
    ensures n > 0 ==> Digits(n)[0] != '0'
  {
    var last := "0123456789"[n % 10];
    assert last as int == n % 10 + '0' as int && last in DIGITS;
    if n < 10 {
      assert Digits(n) == [last] && [last][..0] == "";
      assert Value([last]) == 10 * Value("") + n;
    } else {
      DigitsExactly(n / 10);
      assert Digits(n) == Digits(n / 10) + [last] && (Digits(n / 10) + [last])[..|Digits(n / 10)|] == Digits(n / 10);
    }
  }

  /** A row's node: its own identifier or, without one, its number from one on; one column a slot. */
  lemma RowExactly(row: Row, r: nat)
    ensures var n := RowNode(row, r);
      && n.kind == "layout" && n.content.Columns? && |n.content.columns| == |row.fieldIds|
      && (row.id != "" ==> n.id == row.id)
      && (row.id == "" ==> |n.id| > 7 && n.id[..7] == "layout-" && Value(n.id[7..]) == r + 1)
  {
    DigitsExactly(r + 1);
    if row.id == "" {
      var id := LayoutId(row, r);
      assert id == "layout-" + Digits(r + 1) && id[..7] == "layout-" && id[7..] == Digits(r + 1);
    }
  }

  lemma StageNodesExactly(stages: seq<Stage>)
    ensures |StageNodes(stages)| == |stages|
    ensures forall i | 0 <= i < |stages| ::
      var n, st := StageNodes(stages)[i], stages[i];
      n.0 == st.id && n.1 == st.kind && n.2 == st.caption && n.3 == st.detail && n.4 == st.config
  {
  }
}
