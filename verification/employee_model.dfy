/** An absent-or-present value: a missing route id, an unknown control name, a closed dialog. */
module DirectoryOption {

  datatype Option<T> = None | Some(value: T)
}

/**
  The records the UI exchanges with the REST API, and the service calls it
  issues, as data: a call is an action the controllers emit, not a request
  that runs.
 */
module EmployeeModel {

  /** The four departments; each constant's string value is its own name. */
  datatype Department = FINANCE | HR | IT | OPERATIONS

  /** The string value of a `Department` constant, the text that goes over the wire. */
  function Code(d: Department): string
  {
    match d
    case FINANCE => "FINANCE"
    case HR => "HR"
    case IT => "IT"
    case OPERATIONS => "OPERATIONS"
  }

  /** Distinct departments have distinct, non-empty string values. */
  lemma CodeInjective(d: Department, e: Department)
    ensures Code(d) != ""
    ensures Code(d) == Code(e) ==> d == e
  {
  }

  /**
    The writable fields sent on create and update. The form's raw value is
    cast to this type without a check, so the department is the control's
    string, not necessarily one of the four codes.
   */
  datatype EmployeeRequest = EmployeeRequest(name: string, email: string, department: string)

  /** A record as the server returns it. */
  datatype EmployeeResponse = EmployeeResponse(
    id: int,
    name: string,
    email: string,
    department: string,
    createdAt: string,
    updatedAt: string)

  /** The result of JavaScript's unary `+` on a route parameter: a number, or NaN. */
  datatype JsNumber = Num(value: int) | NaN

  /** A number is truthy unless it is 0 or NaN. */
  predicate IsTruthy(n: JsNumber)
  {
    n.Num? && n.value != 0
  }

  /** The REST calls of the employee service, one constructor per endpoint. */
  datatype ApiCall =
    | GetAll
    | GetById(id: JsNumber)
    | Create(body: EmployeeRequest)
    | Update(id: JsNumber, body: EmployeeRequest)
    | Delete(employeeId: int)
    | SearchByName(name: string)
}

/** Toasts as the notification service builds them. */
module Notifications {

  datatype Severity = Success | Info | Warn | Error

  datatype Notification = Notification(severity: Severity, summary: string, detail: string, life: nat)

  /** Every toast is shown for five seconds. */
  const Lifetime: nat := 5000

  function ShowSuccess(message: string): Notification
  {
    Notification(Success, "Success", message, Lifetime)
  }

  function ShowError(message: string): Notification
  {
    Notification(Error, "Error", message, Lifetime)
  }
}

/** What a controller transition asks the outside world to do. */
module Effects {

  import opened EmployeeModel
  import opened Notifications

  datatype Effect =
    | Send(call: ApiCall)
    | Notify(note: Notification)
    | Navigate(path: string)
    | AskConfirmation(message: string, target: EmployeeResponse)

  /** A controller's next state together with the effects of the step, in order. */
  datatype Transition<S> = Transition(state: S, effects: seq<Effect>)

  /** The route both controllers return to. */
  const ListRoute := "/employees"

  /** The effects contain no API call at all. */
  predicate NoCalls(effects: seq<Effect>)
  {
    forall i | 0 <= i < |effects| :: !effects[i].Send?
  }
}
