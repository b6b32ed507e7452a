/** The binding step: the directive columns of one list item applied to the
    controls of a form (OrgUtilitiesClass.cs, ProcessItem lines 17-103). */
module Processing {
  import opened Wrappers
  import opened Text
  import opened Records
  import opened ControlNames
  import opened ListLookup
  import opened Controls
  import opened Availability
  import opened Conversion

  /** `GetFormattedControlName` with its default prefix; `None` where it throws. */
  function ControlName(w: Widget): Option<string> {
    FormattedControlName(w.clientId, DefaultPrefixLength)
  }

  /** How the loops of lines 27-45 and 51-100 treat a control for a field:
      its name cannot be formatted (the loop throws), the field's formatted
      name contains it (a target), or neither (skipped). */
  datatype Role = Unnamed | Target | Bystander

  function RoleOf(f: FieldInfo, w: Widget): (r: Role)
    ensures r == Unnamed <==> ControlName(w).None?
    ensures r == Target <==> ControlName(w).Some? && Contains(f.formattedName, ControlName(w).value)
  {
    match ControlName(w)
    case None => Unnamed
    case Some(n) => if Contains(f.formattedName, n) then Target else Bystander
  }

  /** The roles of the found controls, in order. */
  function Roles(found: seq<Found>, f: FieldInfo): (r: seq<Role>)
    ensures |r| == |found| && forall j :: 0 <= j < |found| ==> r[j] == RoleOf(f, found[j].widget)
  {
    seq(|found|, j requires 0 <= j < |found| => RoleOf(f, found[j].widget))
  }

  /** What a field does to each control it targets; it depends on the field
      and the item only, never on the control. */
  datatype Step = Apply(edit: Edit) | Skip | Fail(error: Error)

  /** The loop throws at a control of this role. */
  predicate Halts(role: Role, step: Step) {
    role == Unnamed || (role == Target && step.Fail?)
  }

  /** The loop over `found[from..]`, whose roles are `roles`: bystanders are
      skipped, targets receive the step. */
  function VisitTargets(t: Control, found: seq<Found>, roles: seq<Role>, from: nat, step: Step): (r: Result<Control, Error>)
    requires |roles| == |found| && from <= |found|
    ensures r.Failure? <==> exists j | from <= j < |found| :: Halts(roles[j], step)
    ensures r.Failure? ==> (step.Fail? && r.error == step.error) || r.error.ControlNameTooShort?
    decreases |found| - from
  {
    if from == |found| then Success(t)
    else
      match roles[from]
      case Unnamed => Failure(ControlNameTooShort(found[from].widget.clientId))
      case Bystander => VisitTargets(t, found, roles, from + 1, step)
      case Target =>
        match step
        case Fail(e) => Failure(e)
        case Skip => VisitTargets(t, found, roles, from + 1, step)
        case Apply(e) => VisitTargets(EditAt(t, found[from].path, e), found, roles, from + 1, step)
  }

  /** Some target of `found[from..]` sits at `q`. */
  predicate EditedBy(found: seq<Found>, roles: seq<Role>, from: nat, q: Path)
    requires |roles| == |found|
  {
    exists j | from <= j < |found| :: found[j].path == q && roles[j] == Target
  }

  lemma EditedByUnfold(found: seq<Found>, roles: seq<Role>, from: nat, q: Path)
    requires |roles| == |found| && from < |found|
    ensures EditedBy(found, roles, from, q)
            <==> (found[from].path == q && roles[from] == Target) || EditedBy(found, roles, from + 1, q)
  {
    if EditedBy(found, roles, from, q) {
      var j :| from <= j < |found| && found[j].path == q && roles[j] == Target;
      if j > from {
        assert from + 1 <= j < |found| && found[j].path == q && roles[j] == Target;
      }
    }
  }

  /** A successful loop edits exactly the targets' paths, each once in effect. */
  lemma {:induction false} VisitTargetsWidgets(t: Control, found: seq<Found>, roles: seq<Role>, from: nat, step: Step, q: Path)
    requires |roles| == |found| && from <= |found|
    requires VisitTargets(t, found, roles, from, step).Success?
    ensures WidgetAt(VisitTargets(t, found, roles, from, step).value, q)
            == if step.Apply? && EditedBy(found, roles, from, q) then EditOpt(WidgetAt(t, q), step.edit) else WidgetAt(t, q)
    decreases |found| - from
  {
    if from < |found| {
      EditedByUnfold(found, roles, from, q);
      if roles[from] == Target && step.Apply? {
        var t' := EditAt(t, found[from].path, step.edit);
        VisitTargetsWidgets(t', found, roles, from + 1, step, q);
        EditAtWidget(t, found[from].path, step.edit, q);
        EditOptTwice(WidgetAt(t, q), step.edit);
      } else {
        VisitTargetsWidgets(t, found, roles, from + 1, step, q);
      }
    }
  }

  /** The loop of a field over the proper descendants of class `k`, in the
      order `FindDescendants` yields them. */
  function VisitDescendants(t: Control, k: Kind, f: FieldInfo, step: Step): Result<Control, Error> {
    var found := FindDescendants(t, k);
    VisitTargets(t, found, Roles(found, f), 0, step)
  }

  /** `q` names a proper descendant of class `k` of role `role`. */
  predicate RoleAt(t: Control, k: Kind, f: FieldInfo, q: Path, role: Role) {
    |q| > 0 && WidgetAt(t, q).Some? && WidgetAt(t, q).value.kind == k && RoleOf(f, WidgetAt(t, q).value) == role
  }

  /** `q` names a proper descendant of class `k` that halts the loop. */
  predicate HaltsAt(t: Control, k: Kind, f: FieldInfo, step: Step, q: Path) {
    RoleAt(t, k, f, q, Unnamed) || (step.Fail? && RoleAt(t, k, f, q, Target))
  }

  /** Over the proper descendants of class `k`, the loop throws exactly when
      one of them cannot be named, or one is a target and the step throws. */
  lemma VisitDescendantsFails(t: Control, k: Kind, f: FieldInfo, step: Step)
    ensures VisitDescendants(t, k, f, step).Failure? <==> exists q :: HaltsAt(t, k, f, step, q)
  {
    if VisitDescendants(t, k, f, step).Failure? {
      FailureHasHalt(t, k, f, step);
    } else {
      forall q | HaltsAt(t, k, f, step, q)
        ensures false
      {
        HaltFails(t, k, f, step, q);
      }
    }
  }

  lemma FailureHasHalt(t: Control, k: Kind, f: FieldInfo, step: Step)
    requires VisitDescendants(t, k, f, step).Failure?
    ensures exists q :: HaltsAt(t, k, f, step, q)
  {
    var found := FindDescendants(t, k);
    var roles := Roles(found, f);
    var j :| 0 <= j < |found| && Halts(roles[j], step);
    assert Located(t, found[j], k);
    assert HaltsAt(t, k, f, step, found[j].path);
  }

  lemma HaltFails(t: Control, k: Kind, f: FieldInfo, step: Step, q: Path)
    requires HaltsAt(t, k, f, step, q)
    ensures VisitDescendants(t, k, f, step).Failure?
  {
    var found := FindDescendants(t, k);
    var roles := Roles(found, f);
    FindDescendantsComplete(t, k, q);
    var j :| 0 <= j < |found| && found[j].path == q;
    assert Located(t, found[j], k);
    assert Halts(roles[j], step);
  }

  /** Over the proper descendants of class `k`, a successful loop applies the
      step to every target and changes nothing else. */
  lemma VisitDescendantsEffect(t: Control, k: Kind, f: FieldInfo, step: Step, q: Path)
    requires VisitDescendants(t, k, f, step).Success?
    ensures WidgetAt(VisitDescendants(t, k, f, step).value, q)
            == if step.Apply? && RoleAt(t, k, f, q, Target) then EditOpt(WidgetAt(t, q), step.edit) else WidgetAt(t, q)
  {
    var found := FindDescendants(t, k);
    var roles := Roles(found, f);
    VisitTargetsWidgets(t, found, roles, 0, step, q);
    EditedIsTarget(t, k, f, q);
  }

  /** The loop reaches `q` as a target exactly when `q` names a target of class `k`. */
  lemma EditedIsTarget(t: Control, k: Kind, f: FieldInfo, q: Path)
    ensures var found := FindDescendants(t, k);
            EditedBy(found, Roles(found, f), 0, q) <==> RoleAt(t, k, f, q, Target)
  {
    var found := FindDescendants(t, k);
    var roles := Roles(found, f);
    if EditedBy(found, roles, 0, q) {
      var j :| 0 <= j < |found| && found[j].path == q && roles[j] == Target;
      assert Located(t, found[j], k);
    }
    if RoleAt(t, k, f, q, Target) {
      TargetIsEdited(t, k, f, q);
    }
  }

  lemma TargetIsEdited(t: Control, k: Kind, f: FieldInfo, q: Path)
    requires RoleAt(t, k, f, q, Target)
    ensures var found := FindDescendants(t, k);
            EditedBy(found, Roles(found, f), 0, q)
  {
    var found := FindDescendants(t, k);
    var roles := Roles(found, f);
    FindDescendantsComplete(t, k, q);
    var j :| 0 <= j < |found| && found[j].path == q;
    assert Located(t, found[j], k);
    assert found[j].path == q && roles[j] == Target;
  }

  /** The visibility a targeted panel receives: the cleaned column value as
      a Boolean, or visible when it does not parse. */
  function ShowValue(item: ListItem, f: FieldInfo): bool {
    ToBoolean(GetItemValue(item, f.fieldName)).GetOr(true)
  }

  /** Lines 31-44: a Boolean field sets the visibility to `show`, any other
      field throws. */
  function ShowStep(f: FieldInfo, show: bool): Step {
    if f.isBool then Apply(SetVisible(show)) else Fail(FieldNotBoolean(f.fieldName))
  }

  /** `Split(" ", 2)[1]`: the field name after its first space, or `None`
      where the indexing throws. */
  function ListTitleOf(fieldName: string): (r: Option<string>)
    ensures r.Some? <==> ' ' in fieldName
    ensures r.Some? ==> EndsWith(fieldName, r.value) && |r.value| < |fieldName|
    ensures r.Some? ==> var k := |fieldName| - |r.value| - 1; fieldName[k] == ' ' && ' ' !in fieldName[..k]
  {
    if ' ' in fieldName then
      var i := IndexOf(fieldName, ' ');
      Some(fieldName[i + 1..])
    else None
  }

  /** The keyword before the first space is dropped; the title keeps any
      further spaces. */
  lemma ListTitleOfKeyword(keyword: string, title: string)
    requires ' ' !in keyword
    ensures ListTitleOf(keyword + " " + title) == Some(title)
  {
    var s := keyword + " " + title;
    assert s[|keyword|] == ' ';
    assert s[..|keyword|] == keyword;
    assert s[|keyword| + 1..] == title;
  }

  /** Lines 56-98: a name without a space throws, a title that resolves to no
      single list skips the control, otherwise the options are bound. */
  function AvailableStep(item: ListItem, f: FieldInfo, lists: seq<SpList>): Step {
    match ListTitleOf(f.fieldName)
    case None => Fail(FieldNameWithoutSpace(f.fieldName))
    case Some(title) =>
      match ResolveList(title, lists)
      case Failure(_) => Skip
      case Success(related) => Apply(ReplaceItems(AvailableOptions(RawValue(item, f.fieldName), related)))
  }

  /** What the step of an availability field is: it throws exactly when the
      field name has no space, and binds options exactly when the title after
      the space names a single list. */
  lemma AvailableStepCases(item: ListItem, f: FieldInfo, lists: seq<SpList>)
    ensures AvailableStep(item, f, lists).Fail? <==> ' ' !in f.fieldName
    ensures AvailableStep(item, f, lists).Fail? ==> AvailableStep(item, f, lists).error == FieldNameWithoutSpace(f.fieldName)
    ensures AvailableStep(item, f, lists).Apply?
            <==> ListTitleOf(f.fieldName).Some? && ResolveList(ListTitleOf(f.fieldName).value, lists).Success?
    ensures AvailableStep(item, f, lists).Apply? ==>
              AvailableStep(item, f, lists).edit
              == ReplaceItems(AvailableOptions(RawValue(item, f.fieldName), ResolveList(ListTitleOf(f.fieldName).value, lists).value))
  {
  }

  /** Lines 24-46: the panels of the form, when the field carries `Show`. */
  function ShowField(t: Control, f: FieldInfo, show: bool): Result<Control, Error> {
    if f.containsShow then VisitDescendants(t, Panel, f, ShowStep(f, show)) else Success(t)
  }

  /** Lines 48-101: the drop-down lists of the form, when the field carries `Available`. */
  function AvailableField(t: Control, f: FieldInfo, step: Step): Result<Control, Error> {
    if f.containsAvailable then VisitDescendants(t, DropDownList, f, step) else Success(t)
  }

  /** One field: its visibility part, then its availability part. */
  function ProcessField(t: Control, f: FieldInfo, item: ListItem, lists: seq<SpList>): Result<Control, Error> {
    match ShowField(t, f, ShowValue(item, f))
    case Failure(e) => Failure(e)
    case Success(t1) => AvailableField(t1, f, AvailableStep(item, f, lists))
  }

  /** The fields in collection order; the first exception ends the loop. */
  function ProcessFields(t: Control, fields: seq<FieldInfo>, item: ListItem, lists: seq<SpList>): Result<Control, Error>
    decreases |fields|
  {
    if fields == [] then Success(t)
    else
      match ProcessField(t, fields[0], item, lists)
      case Failure(e) => Failure(e)
      case Success(t1) => ProcessFields(t1, fields[1..], item, lists)
  }

  /** `ProcessItem(pItem, pFormInstance)`, with the site's lists as a parameter. */
  function ProcessItem(item: ListItem, form: Control, lists: seq<SpList>): Result<Control, Error> {
    ProcessFields(form, item.fields, item, lists)
  }

  // ---------------------------------------------------------------------
  // What the visibility part of one field does

  /** A field with `Show` throws exactly when some panel's name cannot be
      formatted, or some panel is a target and the field is not Boolean. */
  lemma ShowFieldFails(t: Control, f: FieldInfo, show: bool)
    ensures ShowField(t, f, show).Failure?
            <==> f.containsShow
                 && exists q :: RoleAt(t, Panel, f, q, Unnamed) || (!f.isBool && RoleAt(t, Panel, f, q, Target))
  {
    if f.containsShow {
      var step := ShowStep(f, show);
      assert step.Fail? <==> !f.isBool;
      VisitDescendantsFails(t, Panel, f, step);
      if ShowField(t, f, show).Failure? {
        var q :| HaltsAt(t, Panel, f, step, q);
        assert RoleAt(t, Panel, f, q, Unnamed) || (!f.isBool && RoleAt(t, Panel, f, q, Target));
      } else {
        forall q
          ensures !(RoleAt(t, Panel, f, q, Unnamed) || (!f.isBool && RoleAt(t, Panel, f, q, Target)))
        {
          assert !HaltsAt(t, Panel, f, step, q);
        }
      }
    }
  }

  /** A non-Boolean `Show` field with a target panel throws. */
  lemma NonBooleanTargetFails(t: Control, f: FieldInfo, show: bool, q: Path)
    requires f.containsShow && !f.isBool && RoleAt(t, Panel, f, q, Target)
    ensures ShowField(t, f, show).Failure?
    ensures ShowField(t, f, show).error == FieldNotBoolean(f.fieldName)
            || ShowField(t, f, show).error.ControlNameTooShort?
  {
    HaltFails(t, Panel, f, ShowStep(f, show), q);
  }

  /** A Boolean field with `Show` sets the visibility of every panel it
      targets to `show` and changes nothing else. */
  lemma ShowFieldEffect(t: Control, f: FieldInfo, show: bool, q: Path)
    requires ShowField(t, f, show).Success?
    ensures WidgetAt(ShowField(t, f, show).value, q)
            == if f.containsShow && RoleAt(t, Panel, f, q, Target)
               then Some(WidgetAt(t, q).value.(visible := show))
               else WidgetAt(t, q)
  {
    if f.containsShow {
      VisitDescendantsEffect(t, Panel, f, ShowStep(f, show), q);
      if RoleAt(t, Panel, f, q, Target) && !f.isBool {
        NonBooleanTargetFails(t, f, show, q);
      }
    }
  }

  /** A successful availability part replaces the options of every
      drop-down list it targets with the options of the list named after
      the space in the field name, and changes nothing else; when that title
      names no single list, nothing changes at all. */
  lemma AvailableFieldEffect(t: Control, f: FieldInfo, item: ListItem, lists: seq<SpList>, q: Path)
    requires AvailableField(t, f, AvailableStep(item, f, lists)).Success?
    ensures WidgetAt(AvailableField(t, f, AvailableStep(item, f, lists)).value, q)
            == if && f.containsAvailable && RoleAt(t, DropDownList, f, q, Target)
                  && ListTitleOf(f.fieldName).Some? && ResolveList(ListTitleOf(f.fieldName).value, lists).Success?
               then Some(WidgetAt(t, q).value.(items := AvailableOptions(RawValue(item, f.fieldName),
                                                                         ResolveList(ListTitleOf(f.fieldName).value, lists).value)))
               else WidgetAt(t, q)
  {
    if f.containsAvailable {
      var step := AvailableStep(item, f, lists);
      AvailableStepCases(item, f, lists);
      VisitDescendantsEffect(t, DropDownList, f, step, q);
    }
  }

  // ---------------------------------------------------------------------
  // What a whole item does

  /** Two possibly-absent controls are the same slot: both absent, or both
      present with the same identifier and class. */
  predicate SameSlot(a: Option<Widget>, b: Option<Widget>) {
    (a.None? <==> b.None?)
    && (a.Some? && b.Some? ==> a.value.clientId == b.value.clientId && a.value.kind == b.value.kind)
  }

  /** `u` has the controls of `t` at the same places, with the same
      identifiers and classes. */
  ghost predicate SameShape(t: Control, u: Control) {
    forall q :: SameSlot(WidgetAt(t, q), WidgetAt(u, q))
  }

  /** A field directs the control: it targets it and carries the keyword of
      the control's class. */
  predicate Directed(f: FieldInfo, w: Widget) {
    RoleOf(f, w) == Target && ((f.containsShow && w.kind == Panel) || (f.containsAvailable && w.kind == DropDownList))
  }

  /** Whether a field directs a control depends on its identifier and class only. */
  lemma DirectedSameSlot(f: FieldInfo, a: Option<Widget>, b: Option<Widget>)
    requires SameSlot(a, b) && a.Some?
    ensures Directed(f, a.value) <==> Directed(f, b.value)
  {
  }

  /** At `q`, going from `a` to `b` keeps the slot and changes the control
      only when `f` directs it. */
  predicate KeptAt(f: FieldInfo, q: Path, a: Option<Widget>, b: Option<Widget>) {
    SameSlot(a, b) && (b != a ==> |q| > 0 && a.Some? && Directed(f, a.value))
  }

  lemma KeptAtTransitive(f: FieldInfo, q: Path, a: Option<Widget>, b: Option<Widget>, c: Option<Widget>)
    requires KeptAt(f, q, a, b) && KeptAt(f, q, b, c)
    ensures KeptAt(f, q, a, c)
  {
    if b.Some? {
      DirectedSameSlot(f, a, b);
    }
  }

  lemma ShowFieldKept(t: Control, f: FieldInfo, show: bool, q: Path)
    requires ShowField(t, f, show).Success?
    ensures KeptAt(f, q, WidgetAt(t, q), WidgetAt(ShowField(t, f, show).value, q))
  {
    ShowFieldEffect(t, f, show, q);
  }

  lemma AvailableFieldKept(t: Control, f: FieldInfo, step: Step, q: Path)
    requires AvailableField(t, f, step).Success?
    ensures KeptAt(f, q, WidgetAt(t, q), WidgetAt(AvailableField(t, f, step).value, q))
  {
    if f.containsAvailable {
      VisitDescendantsEffect(t, DropDownList, f, step, q);
    }
  }

  /** At one place, one field's two parts keep the slot and change the
      control only when the field directs it. */
  lemma FieldPartsAt(t: Control, f: FieldInfo, show: bool, step: Step, q: Path)
    requires ShowField(t, f, show).Success?
    requires AvailableField(ShowField(t, f, show).value, f, step).Success?
    ensures var u := AvailableField(ShowField(t, f, show).value, f, step).value;
            SameSlot(WidgetAt(t, q), WidgetAt(u, q))
            && (WidgetAt(u, q) != WidgetAt(t, q) ==> |q| > 0 && WidgetAt(t, q).Some? && Directed(f, WidgetAt(t, q).value))
  {
    var t1 := ShowField(t, f, show).value;
    var u := AvailableField(t1, f, step).value;
    ShowFieldKept(t, f, show, q);
    AvailableFieldKept(t1, f, step, q);
    KeptAtTransitive(f, q, WidgetAt(t, q), WidgetAt(t1, q), WidgetAt(u, q));
  }

  /** One field keeps the shape and changes only the controls it directs. */
  lemma ProcessFieldChanges(t: Control, f: FieldInfo, item: ListItem, lists: seq<SpList>)
    requires ProcessField(t, f, item, lists).Success?
    ensures SameShape(t, ProcessField(t, f, item, lists).value)
    ensures forall q :: WidgetAt(ProcessField(t, f, item, lists).value, q) != WidgetAt(t, q)
                        ==> |q| > 0 && WidgetAt(t, q).Some? && Directed(f, WidgetAt(t, q).value)
  {
    var show := ShowValue(item, f);
    var step := AvailableStep(item, f, lists);
    var u := ProcessField(t, f, item, lists).value;
    assert u == AvailableField(ShowField(t, f, show).value, f, step).value;
    forall q
      ensures SameSlot(WidgetAt(t, q), WidgetAt(u, q))
      ensures WidgetAt(u, q) != WidgetAt(t, q) ==> |q| > 0 && WidgetAt(t, q).Some? && Directed(f, WidgetAt(t, q).value)
    {
      FieldPartsAt(t, f, show, step, q);
    }
  }

  /** A whole item keeps the shape of the form and changes only controls
      that one of its fields directs; the root is never changed. */
  lemma {:induction false} ProcessFieldsChanges(t: Control, fields: seq<FieldInfo>, item: ListItem, lists: seq<SpList>)
    requires ProcessFields(t, fields, item, lists).Success?
    ensures SameShape(t, ProcessFields(t, fields, item, lists).value)
    ensures forall q :: WidgetAt(ProcessFields(t, fields, item, lists).value, q) != WidgetAt(t, q)
                        ==> |q| > 0 && WidgetAt(t, q).Some?
                            && exists f :: f in fields && Directed(f, WidgetAt(t, q).value)
    decreases |fields|
  {
    if fields != [] {
      var t1 := ProcessField(t, fields[0], item, lists).value;
      var u := ProcessFields(t, fields, item, lists).value;
      ProcessFieldChanges(t, fields[0], item, lists);
      ProcessFieldsChanges(t1, fields[1..], item, lists);
      forall q
        ensures SameSlot(WidgetAt(t, q), WidgetAt(u, q))
        ensures WidgetAt(u, q) != WidgetAt(t, q)
                ==> |q| > 0 && WidgetAt(t, q).Some? && exists f :: f in fields && Directed(f, WidgetAt(t, q).value)
      {
        assert SameSlot(WidgetAt(t, q), WidgetAt(t1, q));
        assert SameSlot(WidgetAt(t1, q), WidgetAt(u, q));
        if WidgetAt(u, q) != WidgetAt(t, q) && WidgetAt(t1, q) == WidgetAt(t, q) {
          var f :| f in fields[1..] && Directed(f, WidgetAt(t1, q).value);
          assert f in fields;
        } else if WidgetAt(u, q) != WidgetAt(t, q) {
          assert fields[0] in fields;
        }
      }
    }
  }

  /** An item with no `Show` and no `Available` field leaves the form as it is. */
  lemma {:induction false} ProcessFieldsWithoutDirectives(t: Control, fields: seq<FieldInfo>, item: ListItem, lists: seq<SpList>)
    requires forall i :: 0 <= i < |fields| ==> !fields[i].containsShow && !fields[i].containsAvailable
    ensures ProcessFields(t, fields, item, lists) == Success(t)
    decreases |fields|
  {
    if fields != [] {
      ProcessFieldsWithoutDirectives(t, fields[1..], item, lists);
    }
  }

  /** The item-level statements of the two lemmas above. */
  lemma ProcessItemChanges(item: ListItem, form: Control, lists: seq<SpList>)
    ensures (forall i :: 0 <= i < |item.fields| ==> !item.fields[i].containsShow && !item.fields[i].containsAvailable)
            ==> ProcessItem(item, form, lists) == Success(form)
    ensures ProcessItem(item, form, lists).Success? ==>
              SameShape(form, ProcessItem(item, form, lists).value)
              && forall q :: WidgetAt(ProcessItem(item, form, lists).value, q) != WidgetAt(form, q)
                             ==> |q| > 0 && WidgetAt(form, q).Some?
                                 && exists f :: f in item.fields && Directed(f, WidgetAt(form, q).value)
  {
    if forall i :: 0 <= i < |item.fields| ==> !item.fields[i].containsShow && !item.fields[i].containsAvailable {
      ProcessFieldsWithoutDirectives(form, item.fields, item, lists);
    }
    if ProcessItem(item, form, lists).Success? {
      ProcessFieldsChanges(form, item.fields, item, lists);
    }
  }

  /** Whether `f` gives `q` a role depends on the slot at `q` only. */
  lemma RoleAtSameShape(t: Control, u: Control, k: Kind, f: FieldInfo, q: Path, role: Role)
    requires SameShape(t, u) && RoleAt(t, k, f, q, role)
    ensures RoleAt(u, k, f, q, role)
  {
    assert SameSlot(WidgetAt(t, q), WidgetAt(u, q));
  }

  /** A field that does not throw keeps every role of every other field. */
  lemma ProcessFieldKeepsRole(t: Control, f: FieldInfo, item: ListItem, lists: seq<SpList>, k: Kind, g: FieldInfo, q: Path, role: Role)
    requires ProcessField(t, f, item, lists).Success? && RoleAt(t, k, g, q, role)
    ensures RoleAt(ProcessField(t, f, item, lists).value, k, g, q, role)
  {
    ProcessFieldChanges(t, f, item, lists);
    RoleAtSameShape(t, ProcessField(t, f, item, lists).value, k, g, q, role);
  }

  /** The loop throws when its first field does, and otherwise goes on
      from the form that field leaves. */
  lemma ProcessFieldsUnfold(t: Control, fields: seq<FieldInfo>, item: ListItem, lists: seq<SpList>)
    requires fields != []
    ensures ProcessField(t, fields[0], item, lists).Failure? ==> ProcessFields(t, fields, item, lists).Failure?
    ensures ProcessField(t, fields[0], item, lists).Success? ==>
              ProcessFields(t, fields, item, lists)
              == ProcessFields(ProcessField(t, fields[0], item, lists).value, fields[1..], item, lists)
  {
  }

  /** A non-Boolean `Show` field with a target panel throws before its
      availability part runs. */
  lemma NonBooleanFieldOwnFailure(t: Control, f: FieldInfo, item: ListItem, lists: seq<SpList>, q: Path)
    requires f.containsShow && !f.isBool && RoleAt(t, Panel, f, q, Target)
    ensures ProcessField(t, f, item, lists).Failure?
    ensures ProcessField(t, f, item, lists).error == FieldNotBoolean(f.fieldName)
            || ProcessField(t, f, item, lists).error.ControlNameTooShort?
  {
    NonBooleanTargetFails(t, f, ShowValue(item, f), q);
  }

  /** A non-Boolean `Show` field anywhere in the collection that targets a
      panel of the form makes the loop throw: the fields before it either
      throw first or keep that panel and its name. */
  lemma {:induction false} NonBooleanFieldFails(t: Control, fields: seq<FieldInfo>, item: ListItem, lists: seq<SpList>, i: nat, q: Path)
    requires i < |fields|
    requires fields[i].containsShow && !fields[i].isBool && RoleAt(t, Panel, fields[i], q, Target)
    ensures ProcessFields(t, fields, item, lists).Failure?
    decreases i, 1
  {
    if i == 0 {
      ProcessFieldsUnfold(t, fields, item, lists);
      NonBooleanFieldOwnFailure(t, fields[0], item, lists, q);
    } else {
      NonBooleanLaterFieldFails(t, fields, item, lists, i, q);
    }
  }

  /** The inductive step: the first field throws, or it keeps the target
      and the rest of the collection throws. */
  lemma {:induction false} NonBooleanLaterFieldFails(t: Control, fields: seq<FieldInfo>, item: ListItem, lists: seq<SpList>, i: nat, q: Path)
    requires 0 < i < |fields|
    requires fields[i].containsShow && !fields[i].isBool && RoleAt(t, Panel, fields[i], q, Target)
    ensures ProcessFields(t, fields, item, lists).Failure?
    decreases i, 0
  {
    ProcessFieldsUnfold(t, fields, item, lists);
    var first := ProcessField(t, fields[0], item, lists);
    if first.Success? {
      var f, rest := fields[i], fields[1..];
      assert rest[i - 1] == f;
      ProcessFieldKeepsRole(t, fields[0], item, lists, Panel, f, q, Target);
      NonBooleanFieldFails(first.value, rest, item, lists, i - 1, q);
    }
  }

  /** A non-Boolean `Show` field of the item that targets a panel of the form
      makes the whole item throw; when it is the first field, the exception
      is its own. */
  lemma NonBooleanShowFieldFails(item: ListItem, form: Control, lists: seq<SpList>, i: nat, q: Path)
    requires i < |item.fields|
    requires var f := item.fields[i]; f.containsShow && !f.isBool && RoleAt(form, Panel, f, q, Target)
    ensures ProcessItem(item, form, lists).Failure?
    ensures i == 0 ==> ProcessItem(item, form, lists).error == FieldNotBoolean(item.fields[0].fieldName)
                       || ProcessItem(item, form, lists).error.ControlNameTooShort?
  {
    if i == 0 {
      NonBooleanTargetFails(form, item.fields[0], ShowValue(item, item.fields[0]), q);
    } else {
      NonBooleanFieldFails(form, item.fields, item, lists, i, q);
    }
  }
}
