/**
  The employee form component as a state machine: route parameters choose
  the mode, submit either marks every control touched or issues exactly one
  create or update call, and each response event clears the busy flag.
  Asynchronous replies arrive as separate events.
 */
module EmployeeForm {

  import opened DirectoryOption
  import opened EmployeeModel
  import opened Notifications
  import opened Effects
  import opened FormValidators
  import HttpErrors

  /** One form control: its current value and Angular's interaction flags. */
  datatype Control = Control(value: string, touched: bool, dirty: bool)

  /** A control as `initForm` creates it and `reset` restores it: empty, untouched, pristine. */
  const Pristine := Control("", false, false)

  datatype Field = NameField | EmailField | DepartmentField

  datatype Controls = Controls(name: Control, email: Control, department: Control)

  /** The component's fields: the form, the mode, the bound identity and the busy flag. */
  datatype FormComponent = FormComponent(
    controls: Controls,
    isEditMode: bool,
    employeeId: Option<JsNumber>,
    loading: bool)

  /** The labels and values of the department select, in display order. */
  const DepartmentOptions: seq<(string, Department)> :=
    [("HR", HR), ("Finance", FINANCE), ("IT", IT), ("Operations", OPERATIONS)]

  /**
    The select offers every department exactly once, each under a different
    submitted value, and choosing any of them satisfies the validator.
   */
  lemma DepartmentOptionsComplete(d: Department)
    ensures exists i | 0 <= i < |DepartmentOptions| :: DepartmentOptions[i].1 == d
    ensures forall i, j | 0 <= i < j < |DepartmentOptions| :: DepartmentOptions[i].1 != DepartmentOptions[j].1
    ensures forall i | 0 <= i < |DepartmentOptions| :: DepartmentValid(Code(DepartmentOptions[i].1))
    ensures forall i, j | 0 <= i < j < |DepartmentOptions| ::
      Code(DepartmentOptions[i].1) != Code(DepartmentOptions[j].1)
  {
    forall i, j | 0 <= i < j < |DepartmentOptions|
      ensures Code(DepartmentOptions[i].1) != Code(DepartmentOptions[j].1)
    {
      CodeInjective(DepartmentOptions[i].1, DepartmentOptions[j].1);
    }
    match d
    case HR => assert DepartmentOptions[0].1 == d;
    case FINANCE => assert DepartmentOptions[1].1 == d;
    case IT => assert DepartmentOptions[2].1 == d;
    case OPERATIONS => assert DepartmentOptions[3].1 == d;
  }

  /** The component right after construction and `initForm`, before any route parameter arrives. */
  function Init(): FormComponent
  {
    FormComponent(Controls(Pristine, Pristine, Pristine), false, None, false)
  }

  function ControlOf(cs: Controls, f: Field): Control
  {
    match f
    case NameField => cs.name
    case EmailField => cs.email
    case DepartmentField => cs.department
  }

  /** The errors the validators of field `f` report; `ngEmail` is Angular's built-in email check. */
  function Errors(cs: Controls, f: Field, ngEmail: string -> bool): set<ErrorKey>
  {
    match f
    case NameField => NameErrors(cs.name.value)
    case EmailField => EmailErrors(cs.email.value, ngEmail)
    case DepartmentField => DepartmentErrors(cs.department.value)
  }

  predicate ControlInvalid(cs: Controls, f: Field, ngEmail: string -> bool)
  {
    Errors(cs, f, ngEmail) != {}
  }

  /** `employeeForm.invalid`: some control reports an error. */
  predicate FormInvalid(cs: Controls, ngEmail: string -> bool)
  {
    ControlInvalid(cs, NameField, ngEmail)
    || ControlInvalid(cs, EmailField, ngEmail)
    || ControlInvalid(cs, DepartmentField, ngEmail)
  }

  /** `employeeForm.get(name)`: the control registered under that name, if any. */
  function FieldNamed(name: string): (r: Option<Field>)
    ensures r.Some? <==> name in {"name", "email", "department"}
    ensures r == Some(NameField) <==> name == "name"
    ensures r == Some(EmailField) <==> name == "email"
    ensures r == Some(DepartmentField) <==> name == "department"
  {
    if name == "name" then Some(NameField)
    else if name == "email" then Some(EmailField)
    else if name == "department" then Some(DepartmentField)
    else None
  }

  /** Whether the template shows the errors of the named field. */
  function IsFieldInvalid(c: FormComponent, name: string, ngEmail: string -> bool): (b: bool)
    ensures b <==> exists f :: (FieldNamed(name) == Some(f)
      && ControlInvalid(c.controls, f, ngEmail)
      && (ControlOf(c.controls, f).dirty || ControlOf(c.controls, f).touched))
    ensures FieldNamed(name) == None ==> !b
  {
    match FieldNamed(name)
    case None => false
    case Some(f) =>
      var control := ControlOf(c.controls, f);
      ControlInvalid(c.controls, f, ngEmail) && (control.dirty || control.touched)
  }

  /** `markFormGroupTouched` on the flat form: every control touched, values and dirty flags kept. */
  function MarkAllTouched(cs: Controls): (r: Controls)
    ensures forall f :: ControlOf(r, f).touched
    ensures forall f :: ControlOf(r, f).value == ControlOf(cs, f).value
    ensures forall f :: ControlOf(r, f).dirty == ControlOf(cs, f).dirty
  {
    Controls(
      cs.name.(touched := true),
      cs.email.(touched := true),
      cs.department.(touched := true))
  }

  /** The controls with the control of field `f` replaced by `k`. */
  function WithControl(cs: Controls, f: Field, k: Control): (r: Controls)
    ensures ControlOf(r, f) == k
    ensures forall g | g != f :: ControlOf(r, g) == ControlOf(cs, g)
  {
    match f
    case NameField => cs.(name := k)
    case EmailField => cs.(email := k)
    case DepartmentField => cs.(department := k)
  }

  /** The user typed into field `f` (or chose an option) leaving `v`: the value changes and the control becomes dirty. */
  function OnEdited(c: FormComponent, f: Field, v: string): (r: Transition<FormComponent>)
    ensures ControlOf(r.state.controls, f) == Control(v, ControlOf(c.controls, f).touched, true)
    ensures forall g | g != f :: ControlOf(r.state.controls, g) == ControlOf(c.controls, g)
    ensures r.state == c.(controls := r.state.controls) && r.effects == []
  {
    var k := ControlOf(c.controls, f);
    Transition(c.(controls := WithControl(c.controls, f, k.(value := v, dirty := true))), [])
  }

  /** The user left field `f`: the control becomes touched and nothing else changes. */
  function OnBlurred(c: FormComponent, f: Field): (r: Transition<FormComponent>)
    ensures ControlOf(r.state.controls, f) == ControlOf(c.controls, f).(touched := true)
    ensures forall g | g != f :: ControlOf(r.state.controls, g) == ControlOf(c.controls, g)
    ensures r.state == c.(controls := r.state.controls) && r.effects == []
  {
    var k := ControlOf(c.controls, f);
    Transition(c.(controls := WithControl(c.controls, f, k.(touched := true))), [])
  }

  /** `employeeForm.value`, cast to a request without a check. */
  function FormValue(cs: Controls): EmployeeRequest
  {
    EmployeeRequest(cs.name.value, cs.email.value, cs.department.value)
  }

  /** `loadEmployee(id)`: busy, and a fetch of the record; the controls wait for the reply. */
  function LoadEmployee(c: FormComponent, id: JsNumber): (r: Transition<FormComponent>)
    ensures r.state == c.(loading := true) && r.effects == [Send(GetById(id))]
  {
    Transition(c.(loading := true), [Send(GetById(id))])
  }

  /**
    The route's `id` parameter arrived (`None` when it is absent); `toNumber`
    is JavaScript's unary `+`. A present, non-empty id other than "new"
    switches to edit mode and fetches the record.
   */
  function OnRouteParams(c: FormComponent, id: Option<string>, toNumber: string -> JsNumber): (r: Transition<FormComponent>)
    ensures (id.Some? && id.value != "" && id.value != "new") ==>
      r.state == c.(isEditMode := true, employeeId := Some(toNumber(id.value)), loading := true)
      && r.effects == [Send(GetById(toNumber(id.value)))]
    ensures !(id.Some? && id.value != "" && id.value != "new") ==> r.state == c && r.effects == []
  {
    if id.Some? && id.value != "" && id.value != "new" then
      var n := toNumber(id.value);
      LoadEmployee(c.(isEditMode := true, employeeId := Some(n)), n)
    else
      Transition(c, [])
  }

  /** The fetched record arrived: its three writable fields are patched in; interaction flags are kept. */
  function OnEmployeeLoaded(c: FormComponent, e: EmployeeResponse): (r: Transition<FormComponent>)
    ensures FormValue(r.state.controls) == EmployeeRequest(e.name, e.email, e.department)
    ensures forall f :: ControlOf(r.state.controls, f).touched == ControlOf(c.controls, f).touched
    ensures forall f :: ControlOf(r.state.controls, f).dirty == ControlOf(c.controls, f).dirty
    ensures r.state == c.(controls := r.state.controls, loading := false) && r.effects == []
  {
    var cs := c.controls;
    Transition(
      c.(controls := Controls(cs.name.(value := e.name), cs.email.(value := e.email), cs.department.(value := e.department)),
         loading := false),
      [])
  }

  /** The fetch failed: not busy, and back to the list; the interceptor has already shown the error. */
  function OnEmployeeLoadFailed(c: FormComponent): (r: Transition<FormComponent>)
    ensures r.state == c.(loading := false)
    ensures NoCalls(r.effects) && r.effects == [Navigate(ListRoute)]
  {
    Transition(c.(loading := false), [Navigate(ListRoute)])
  }

  /** The call a valid submit issues: update when in edit mode with a truthy id, create otherwise. */
  function SaveCall(c: FormComponent): ApiCall
  {
    if c.isEditMode && c.employeeId.Some? && IsTruthy(c.employeeId.value) then
      Update(c.employeeId.value, FormValue(c.controls))
    else
      Create(FormValue(c.controls))
  }

  /** `onSubmit`. */
  function Submit(c: FormComponent, ngEmail: string -> bool): (r: Transition<FormComponent>)
    ensures FormInvalid(c.controls, ngEmail) ==>
      && r.effects == []
      && r.state == c.(controls := r.state.controls)
      && (forall f :: ControlOf(r.state.controls, f).touched)
      && (forall f :: ControlOf(r.state.controls, f).dirty == ControlOf(c.controls, f).dirty)
      && FormValue(r.state.controls) == FormValue(c.controls)
    ensures !FormInvalid(c.controls, ngEmail) ==>
      && r.state == c.(loading := true)
      && |r.effects| == 1 && r.effects[0].Send?
      && (r.effects[0].call.Update? <==> c.isEditMode && c.employeeId.Some? && IsTruthy(c.employeeId.value))
      && (r.effects[0].call.Update? ==> r.effects[0].call.id == c.employeeId.value)
      && (r.effects[0].call.Update? || r.effects[0].call.Create?)
      && r.effects[0].call.body == FormValue(c.controls)
  {
    if FormInvalid(c.controls, ngEmail) then
      Transition(c.(controls := MarkAllTouched(c.controls)), [])
    else
      Transition(c.(loading := true), [Send(SaveCall(c))])
  }

  /** After a rejected submit the template shows the errors of every invalid field. */
  lemma RejectedSubmitShowsErrors(c: FormComponent, ngEmail: string -> bool, name: string)
    requires FormInvalid(c.controls, ngEmail)
    requires FieldNamed(name).Some? && ControlInvalid(c.controls, FieldNamed(name).value, ngEmail)
    ensures IsFieldInvalid(Submit(c, ngEmail).state, name, ngEmail)
  {
    var f := FieldNamed(name).value;
    var cs := Submit(c, ngEmail).state.controls;
    assert Errors(cs, f, ngEmail) == Errors(c.controls, f, ngEmail);
  }

  /** Submitting an invalid form a second time changes nothing more. */
  lemma RejectedSubmitIdempotent(c: FormComponent, ngEmail: string -> bool)
    requires FormInvalid(c.controls, ngEmail)
    ensures Submit(Submit(c, ngEmail).state, ngEmail) == Transition(Submit(c, ngEmail).state, [])
  {
    var cs := MarkAllTouched(c.controls);
    assert forall f :: Errors(cs, f, ngEmail) == Errors(c.controls, f, ngEmail);
    assert MarkAllTouched(cs) == cs;
  }

  /** A record with id 0 (or an id that parsed to NaN) is created anew even in edit mode. */
  lemma FalsyIdCreates(c: FormComponent, ngEmail: string -> bool)
    requires !FormInvalid(c.controls, ngEmail) && c.isEditMode
    requires c.employeeId == Some(Num(0)) || c.employeeId == Some(NaN)
    ensures Submit(c, ngEmail).effects == [Send(Create(FormValue(c.controls)))]
  {
  }

  /** Which save call a response belongs to. */
  datatype SaveKind = Created | Updated

  function SuccessMessage(kind: SaveKind): string
  {
    match kind
    case Created => "Employee created successfully"
    case Updated => "Employee updated successfully"
  }

  /** The create or update call succeeded: one success toast, back to the list, not busy. */
  function OnSaveSucceeded(c: FormComponent, kind: SaveKind): Transition<FormComponent>
  {
    Transition(c.(loading := false), [Notify(ShowSuccess(SuccessMessage(kind))), Navigate(ListRoute)])
  }

  /** The create or update call failed: the interceptor has already shown the error; only the busy flag clears. */
  function OnSaveFailed(c: FormComponent): Transition<FormComponent>
  {
    Transition(c.(loading := false), [])
  }

  /** Either reply to a save call leaves the form idle; only success notifies and navigates. */
  lemma SaveReplyClearsLoading(c: FormComponent, kind: SaveKind, succeeded: bool)
    ensures var r := if succeeded then OnSaveSucceeded(c, kind) else OnSaveFailed(c);
      && r.state == c.(loading := false)
      && NoCalls(r.effects)
      && (succeeded <==> exists i | 0 <= i < |r.effects| :: r.effects[i].Notify?)
      && (succeeded <==> Navigate(ListRoute) in r.effects)
      && (succeeded ==> r.effects[0] == Notify(Notification(Success, "Success", SuccessMessage(kind), Lifetime)))
      && r.effects == (if succeeded then [Notify(ShowSuccess(SuccessMessage(kind))), Navigate(ListRoute)] else [])
  {
    var r := if succeeded then OnSaveSucceeded(c, kind) else OnSaveFailed(c);
    if succeeded {
      assert r.effects[0].Notify?;
    }
  }

  /** `resetForm`: reload the record in edit mode with a truthy id, otherwise clear every control. */
  function Reset(c: FormComponent): (r: Transition<FormComponent>)
    ensures (c.isEditMode && c.employeeId.Some? && IsTruthy(c.employeeId.value)) ==>
      r.state == c.(loading := true) && r.effects == [Send(GetById(c.employeeId.value))]
    ensures !(c.isEditMode && c.employeeId.Some? && IsTruthy(c.employeeId.value)) ==>
      r.effects == [] && r.state == c.(controls := r.state.controls)
      && forall f :: ControlOf(r.state.controls, f) == Pristine
  {
    if c.isEditMode && c.employeeId.Some? && IsTruthy(c.employeeId.value) then
      LoadEmployee(c, c.employeeId.value)
    else
      Transition(c.(controls := Controls(Pristine, Pristine, Pristine)), [])
  }

  /** A cleared form shows no error for any field, although it is invalid. */
  lemma ClearedFormShowsNoErrors(c: FormComponent, ngEmail: string -> bool, name: string)
    requires !(c.isEditMode && c.employeeId.Some? && IsTruthy(c.employeeId.value))
    ensures !IsFieldInvalid(Reset(c).state, name, ngEmail)
    ensures FormInvalid(Reset(c).state.controls, ngEmail)
  {
    assert Required in Errors(Reset(c).state.controls, NameField, ngEmail);
  }

  /** Only a present id other than "new" enters edit mode; otherwise the fresh form stays in create mode. */
  lemma EditModeIff(id: Option<string>, toNumber: string -> JsNumber)
    ensures var r := OnRouteParams(Init(), id, toNumber);
      (r.state.isEditMode <==> id.Some? && id.value != "" && id.value != "new")
      && (r.state.isEditMode ==> r.state.loading && r.effects == [Send(GetById(toNumber(id.value)))])
      && (!r.state.isEditMode ==> r.state == Init() && r.effects == [])
  {
  }

  /** The sample address is in the pattern's language. */
  lemma SampleEmailMatches()
    ensures EmailPattern.Matches("ada@x.com")
  {
    var e := "ada@x.com";
    assert EmailPattern.EmailSplit(e, 3, 5) by {
      assert e[..3] == "ada";
      assert e[4..5] == "x";
      assert e[6..] == "com";
    }
    EmailPattern.LanguageRuns(e, 3, 5);
  }

  /** Everything that can happen to the form component: user input, route parameters and replies. */
  datatype FormEvent =
    | Edited(field: Field, text: string)
    | Blurred(field: Field)
    | RouteParams(id: Option<string>)
    | EmployeeLoaded(employee: EmployeeResponse)
    | EmployeeLoadFailed
    | Submitted
    | SaveSucceeded(kind: SaveKind)
    | SaveFailed
    | ResetClicked

  /** One event, with Angular's email check and JavaScript's unary `+` as parameters. */
  function Handle(c: FormComponent, ev: FormEvent, ngEmail: string -> bool, toNumber: string -> JsNumber): Transition<FormComponent>
  {
    match ev
    case Edited(f, v) => OnEdited(c, f, v)
    case Blurred(f) => OnBlurred(c, f)
    case RouteParams(id) => OnRouteParams(c, id, toNumber)
    case EmployeeLoaded(e) => OnEmployeeLoaded(c, e)
    case EmployeeLoadFailed => OnEmployeeLoadFailed(c)
    case Submitted => Submit(c, ngEmail)
    case SaveSucceeded(kind) => OnSaveSucceeded(c, kind)
    case SaveFailed => OnSaveFailed(c)
    case ResetClicked => Reset(c)
  }

  /** A create or update call is only ever sent by submitting a form that passes every validator. */
  lemma SaveOnlyFromValidSubmit(c: FormComponent, ev: FormEvent, ngEmail: string -> bool, toNumber: string -> JsNumber, k: int)
    requires 0 <= k < |Handle(c, ev, ngEmail, toNumber).effects|
    requires Handle(c, ev, ngEmail, toNumber).effects[k].Send?
    requires Handle(c, ev, ngEmail, toNumber).effects[k].call.Create? || Handle(c, ev, ngEmail, toNumber).effects[k].call.Update?
    ensures ev.Submitted? && !FormInvalid(c.controls, ngEmail)
    ensures NameValid(c.controls.name.value) && DepartmentValid(c.controls.department.value)
    ensures EmailValid(c.controls.email.value, ngEmail)
  {
  }

  /** No event sends more than one call. */
  lemma AtMostOneCall(c: FormComponent, ev: FormEvent, ngEmail: string -> bool, toNumber: string -> JsNumber, i: int, j: int)
    requires 0 <= i < j < |Handle(c, ev, ngEmail, toNumber).effects|
    ensures !(Handle(c, ev, ngEmail, toNumber).effects[i].Send? && Handle(c, ev, ngEmail, toNumber).effects[j].Send?)
  {
  }

  /**
    Adding an employee end to end: on a fresh form the user types three
    values that pass their validators and submits; exactly one create call
    carries those values, and its success shows one toast and returns to
    the list.
   */
  lemma CreateScenario(name: string, email: string, department: string,
                       ngEmail: string -> bool, toNumber: string -> JsNumber)
    requires NameValid(name) && EmailValid(email, ngEmail) && DepartmentValid(department)
    ensures var typed :=
        Handle(Handle(Handle(Init(), Edited(NameField, name), ngEmail, toNumber).state,
          Edited(EmailField, email), ngEmail, toNumber).state,
          Edited(DepartmentField, department), ngEmail, toNumber).state;
      var sent := Handle(typed, Submitted, ngEmail, toNumber);
      && sent.state.loading && !sent.state.isEditMode
      && sent.effects == [Send(Create(EmployeeRequest(name, email, department)))]
      && Handle(sent.state, SaveSucceeded(Created), ngEmail, toNumber).effects
         == [Notify(ShowSuccess("Employee created successfully")), Navigate(ListRoute)]
  {
    var typed :=
        Handle(Handle(Handle(Init(), Edited(NameField, name), ngEmail, toNumber).state,
          Edited(EmailField, email), ngEmail, toNumber).state,
          Edited(DepartmentField, department), ngEmail, toNumber).state;
    assert typed.controls == Controls(Control(name, false, true), Control(email, false, true), Control(department, false, true));
    assert !FormInvalid(typed.controls, ngEmail);
  }

  /**
    Opening the edit page for a record the server does not have: the
    interceptor shows exactly the not-found toast and passes the failure on,
    and the form stops loading and returns to the list.
   */
  lemma NotFoundReturnsToList(c: FormComponent, body: HttpErrors.ErrorBody, shown: seq<Notification>,
                              ngEmail: string -> bool, toNumber: string -> JsNumber)
    requires !body.ClientEvent?
    ensures var failure := HttpErrors.HttpFailure(404, body);
      HttpErrors.Intercept(HttpErrors.Outcome<EmployeeResponse>.Failed(failure), shown)
        == (HttpErrors.Passed(HttpErrors.Failed(failure)), shown + [ShowError(HttpErrors.NotFoundMessage)])
    ensures Handle(c, EmployeeLoadFailed, ngEmail, toNumber)
      == Transition(c.(loading := false), [Navigate(ListRoute)])
  {
  }
}
