/**
  The HTTP error interceptor: a failed request is turned into exactly one
  error toast and the original failure is passed on to the caller, unless
  mapping a 400 payload itself throws.
 */
module HttpErrors {

  import opened DirectoryOption
  import opened JsStrings
  import opened Notifications

  /** One key visited by `for (const key in body)`: an own property, or an enumerable inherited one. */
  datatype Property = Property(key: string, value: JsValue, own: bool)

  /** The `error` payload of a failed response, by the shapes the interceptor tells apart. */
  datatype ErrorBody =
    /** A client-side `ErrorEvent`, whatever the status. */
    | ClientEvent(message: string)
    /** null, undefined, or another falsy value (`""`, `0`, `false`, NaN). */
    | Falsy
    /** A truthy value that is not an object (a non-empty string, a non-zero number, `true`). */
    | Primitive
    /**
      A non-null object or array: the keys a `for ... in` loop visits, in
      order, and what `body.message` evaluates to, rendered as a string with
      "" standing for every falsy value.
     */
    | Object(enumerable: seq<Property>, message: string)

  /** A failed response: its status code and its payload. */
  datatype HttpFailure = HttpFailure(status: int, body: ErrorBody)

  const UnknownMessage := "An unknown error occurred"
  const ConnectionMessage := "Unable to connect to the server. Please check your internet connection."
  const NotFoundMessage := "The requested resource was not found."
  const ForbiddenMessage := "You do not have permission to perform this action."
  const UnauthorizedMessage := "You are not authorized to perform this action."
  const InvalidRequestMessage := "Invalid request data."
  const ServerErrorMessage := "A server error occurred. Please try again later."

  /** The statuses with a fixed message; status 0 is "no response at all". */
  const FixedMessages: map<int, string> := map[
    0 := ConnectionMessage,
    401 := UnauthorizedMessage,
    403 := ForbiddenMessage,
    404 := NotFoundMessage,
    500 := ServerErrorMessage
  ]

  /** Every status the interceptor recognises: the fixed ones and 400 Bad Request. */
  const KnownStatuses: set<int> := FixedMessages.Keys + {400}

  /** The name of the built-in method the 400 branch calls on the payload itself. */
  const HasOwnPropertyKey := "hasOwnProperty"

  /**
    Some visited key is named `hasOwnProperty`. Looking up
    `body.hasOwnProperty` then finds that key's JSON value instead of the
    built-in method, and calling it throws a TypeError. The first visited key
    already triggers the call, so the position of the key does not matter.
   */
  predicate ShadowsHasOwnProperty(props: seq<Property>)
  {
    exists i | 0 <= i < |props| :: props[i].key == HasOwnPropertyKey
  }

  /** The message mapping throws: a 400 whose object payload shadows `hasOwnProperty`. */
  predicate MappingThrows(e: HttpFailure)
  {
    e.status == 400 && e.body.Object? && ShadowsHasOwnProperty(e.body.enumerable)
  }

  /** The values the `hasOwnProperty` filter keeps, in enumeration order. */
  function OwnValues(props: seq<Property>): (vs: seq<JsValue>)
    ensures |vs| <= |props|
    ensures vs == [] <==> forall i | 0 <= i < |props| :: !props[i].own
    ensures forall i | 0 <= i < |props| && props[i].own :: props[i].value in vs
    ensures forall v | v in vs :: exists i | 0 <= i < |props| :: props[i].own && props[i].value == v
  {
    if |props| == 0 then []
    else
      var rest := OwnValues(props[1..]);
      assert forall i | 1 <= i < |props| :: props[i] == props[1..][i - 1];
      if props[0].own then [props[0].value] + rest else rest
  }

  /**
    The kept values position by position: the j-th kept value is the value
    of the j-th own key, so order and multiplicity follow the enumeration.
   */
  lemma {:induction false} OwnValuesInOrder(props: seq<Property>) returns (idx: seq<int>)
    ensures |idx| == |OwnValues(props)|
    ensures forall j | 0 <= j < |idx| ::
      0 <= idx[j] < |props| && props[idx[j]].own && OwnValues(props)[j] == props[idx[j]].value
    ensures forall j, k | 0 <= j < k < |idx| :: idx[j] < idx[k]
    ensures forall i | 0 <= i < |props| && props[i].own :: i in idx
    decreases |props|
  {
    if |props| == 0 {
      return [];
    }
    var tail := props[1..];
    var rest := OwnValuesInOrder(tail);
    var shifted := ShiftIndices(rest);
    ghost var kept := OwnValues(tail);
    OwnValuesCons(props);
    ShiftedValues(props, rest, shifted, kept);
    ShiftedCover(props, rest, shifted);
    idx := OwnIndicesStep(props, shifted, kept, OwnValues(props));
  }

  /** The own positions of the whole sequence, from the tail's own positions moved right by one. */
  lemma OwnIndicesStep(props: seq<Property>, shifted: seq<int>, kept: seq<JsValue>, vals: seq<JsValue>)
    returns (idx: seq<int>)
    requires |props| > 0 && |shifted| == |kept|
    requires vals == (if props[0].own then [props[0].value] else []) + kept
    requires forall j | 0 <= j < |shifted| ::
      1 <= shifted[j] < |props| && props[shifted[j]].own && kept[j] == props[shifted[j]].value
    requires forall j, k | 0 <= j < k < |shifted| :: shifted[j] < shifted[k]
    requires forall i | 1 <= i < |props| && props[i].own :: i in shifted
    ensures |idx| == |vals|
    ensures forall j | 0 <= j < |idx| ::
      0 <= idx[j] < |props| && props[idx[j]].own && vals[j] == props[idx[j]].value
    ensures forall j, k | 0 <= j < k < |idx| :: idx[j] < idx[k]
    ensures forall i | 0 <= i < |props| && props[i].own :: i in idx
  {
    if props[0].own {
      idx := PrependZero(shifted);
      forall j | 0 <= j < |idx|
        ensures 0 <= idx[j] < |props| && props[idx[j]].own && vals[j] == props[idx[j]].value
      {
        if j > 0 {
          assert idx[j] == shifted[j - 1] && vals[j] == kept[j - 1];
        }
      }
      forall i | 0 <= i < |props| && props[i].own
        ensures i in idx
      {
        if i > 0 {
          assert i in shifted;
        }
      }
    } else {
      idx := shifted;
      forall i | 0 <= i < |props| && props[i].own
        ensures i in idx
      {
        assert i > 0;
      }
    }
  }

  /** The tail's own positions, moved right by one, point at the same own values in the whole sequence. */
  lemma ShiftedValues(props: seq<Property>, rest: seq<int>, shifted: seq<int>, kept: seq<JsValue>)
    requires |props| > 0 && |shifted| == |rest| == |kept|
    requires forall j | 0 <= j < |rest| :: shifted[j] == rest[j] + 1
    requires forall j | 0 <= j < |rest| ::
      0 <= rest[j] < |props[1..]| && props[1..][rest[j]].own && kept[j] == props[1..][rest[j]].value
    ensures forall j | 0 <= j < |shifted| ::
      1 <= shifted[j] < |props| && props[shifted[j]].own && kept[j] == props[shifted[j]].value
  {
    forall j | 0 <= j < |shifted|
      ensures 1 <= shifted[j] < |props| && props[shifted[j]].own && kept[j] == props[shifted[j]].value
    {
      var r := rest[j];
      assert props[1..][r] == props[r + 1];
    }
  }

  /** Every own position of the tail, moved right by one, covers the own positions past the first. */
  lemma ShiftedCover(props: seq<Property>, rest: seq<int>, shifted: seq<int>)
    requires |props| > 0 && |shifted| == |rest|
    requires forall j | 0 <= j < |rest| :: shifted[j] == rest[j] + 1
    requires forall i | 0 <= i < |props[1..]| && props[1..][i].own :: i in rest
    ensures forall i | 1 <= i < |props| && props[i].own :: i in shifted
  {
    forall i | 1 <= i < |props| && props[i].own
      ensures i in shifted
    {
      assert props[1..][i - 1] == props[i];
      var j :| 0 <= j < |rest| && rest[j] == i - 1;
      assert shifted[j] == i;
    }
  }

  /** Position 0 put in front of increasing positions that are all at least 1. */
  lemma PrependZero(shifted: seq<int>) returns (idx: seq<int>)
    requires forall j | 0 <= j < |shifted| :: 1 <= shifted[j]
    requires forall j, k | 0 <= j < k < |shifted| :: shifted[j] < shifted[k]
    ensures idx == [0] + shifted
    ensures forall j, k | 0 <= j < k < |idx| :: idx[j] < idx[k]
  {
    idx := [0] + shifted;
    forall j, k | 0 <= j < k < |idx|
      ensures idx[j] < idx[k]
    {
      assert idx[k] == shifted[k - 1];
      if j > 0 {
        assert idx[j] == shifted[j - 1];
      }
    }
  }

  /** One step of the filter: the first key's value if it is own, then the rest. */
  lemma OwnValuesCons(props: seq<Property>)
    requires |props| > 0
    ensures OwnValues(props) == (if props[0].own then [props[0].value] else []) + OwnValues(props[1..])
  {
  }

  /** Every index moved one place to the right, for the tail of a sequence. */
  lemma ShiftIndices(idx: seq<int>) returns (shifted: seq<int>)
    requires forall j, k | 0 <= j < k < |idx| :: idx[j] < idx[k]
    ensures |shifted| == |idx|
    ensures forall j | 0 <= j < |idx| :: shifted[j] == idx[j] + 1
    ensures forall j, k | 0 <= j < k < |shifted| :: shifted[j] < shifted[k]
  {
    shifted := seq(|idx|, j requires 0 <= j < |idx| => idx[j] + 1);
  }

  /**
    The message for status 400: field-level messages joined, else the
    top-level message, else a generic one; `None` when the own-key test throws.
   */
  function BadRequestMessage(body: ErrorBody): Option<string>
  {
    match body
    case Object(props, topLevel) =>
      if ShadowsHasOwnProperty(props) then None
      else
        var collected := OwnValues(props);
        if |collected| > 0 then Some(Join(RenderAll(collected), ". "))
        else if topLevel != "" then Some(topLevel)
        else Some(InvalidRequestMessage)
    case _ => Some(InvalidRequestMessage)
  }

  /**
    The message shown for a failed response: a priority chain over payload
    shape and status. `None` stands for the TypeError the mapping throws.
   */
  function ErrorMessage(e: HttpFailure): (msg: Option<string>)
    ensures msg.None? <==> MappingThrows(e)
    ensures e.body.ClientEvent? ==> msg == Some("Error: " + e.body.message)
    ensures !e.body.ClientEvent? && e.status in FixedMessages ==> msg == Some(FixedMessages[e.status])
    ensures !e.body.ClientEvent? && e.status !in KnownStatuses ==> msg == Some(UnknownMessage)
  {
    if e.body.ClientEvent? then Some("Error: " + e.body.message)
    else if e.status == 0 then Some(ConnectionMessage)
    else if e.status == 404 then Some(NotFoundMessage)
    else if e.status == 403 then Some(ForbiddenMessage)
    else if e.status == 401 then Some(UnauthorizedMessage)
    else if e.status == 400 then BadRequestMessage(e.body)
    else if e.status == 500 then Some(ServerErrorMessage)
    else Some(UnknownMessage)
  }

  /** With at least one own key, a 400 shows the own values, in key order, joined by ". ". */
  lemma BadRequestJoinsOwnValues(status: int, props: seq<Property>, topLevel: string, k: int)
    requires status == 400 && 0 <= k < |props| && props[k].own
    requires !ShadowsHasOwnProperty(props)
    ensures ErrorMessage(HttpFailure(status, Object(props, topLevel)))
      == Some(Join(RenderAll(OwnValues(props)), ". "))
    ensures |OwnValues(props)| >= 1
  {
  }

  /** With exactly one own key, a 400 shows that key's value and nothing else. */
  lemma {:induction false} BadRequestSingleKey(props: seq<Property>, topLevel: string, k: int)
    requires 0 <= k < |props| && props[k].own
    requires forall i | 0 <= i < |props| && i != k :: !props[i].own
    requires !ShadowsHasOwnProperty(props)
    ensures ErrorMessage(HttpFailure(400, Object(props, topLevel))) == Some(Render(props[k].value))
  {
    OwnValuesSingle(props, k);
  }

  lemma {:induction false} OwnValuesSingle(props: seq<Property>, k: int)
    requires 0 <= k < |props| && props[k].own
    requires forall i | 0 <= i < |props| && i != k :: !props[i].own
    ensures OwnValues(props) == [props[k].value]
    decreases |props|
  {
    if k > 0 {
      assert !props[0].own;
      OwnValuesSingle(props[1..], k - 1);
    } else {
      assert forall i | 0 <= i < |props[1..]| :: !props[1..][i].own by {
        forall i | 0 <= i < |props[1..]| ensures !props[1..][i].own {
          assert props[1..][i] == props[i + 1];
        }
      }
    }
  }

  /** An object with no own keys: its top-level message if truthy, the generic text otherwise. */
  lemma BadRequestWithoutOwnKeys(props: seq<Property>, topLevel: string)
    requires forall i | 0 <= i < |props| :: !props[i].own
    requires !ShadowsHasOwnProperty(props)
    ensures ErrorMessage(HttpFailure(400, Object(props, topLevel)))
      == Some(if topLevel != "" then topLevel else InvalidRequestMessage)
  {
  }

  /** A 400 whose payload is not an object (null included) always shows the generic text. */
  lemma BadRequestWithoutObject(body: ErrorBody)
    requires body.Falsy? || body.Primitive?
    ensures ErrorMessage(HttpFailure(400, body)) == Some(InvalidRequestMessage)
  {
  }

  /**
    A validation payload `{field: "name", message: "required"}` has two own
    keys, so the toast joins both values.
   */
  lemma TwoKeyPayload()
    ensures ErrorMessage(HttpFailure(400, Object(
      [Property("field", Text("name"), true), Property("message", Text("required"), true)],
      "required"))) == Some("name. required")
  {
    var props := [Property("field", Text("name"), true), Property("message", Text("required"), true)];
    assert |props[0].key| != |HasOwnPropertyKey| && |props[1].key| != |HasOwnPropertyKey|;
    assert !ShadowsHasOwnProperty(props);
    assert OwnValues(props) == [Text("name"), Text("required")] by {
      OwnValuesCons(props);
      OwnValuesCons(props[1..]);
    }
    assert RenderAll([Text("name"), Text("required")]) == ["name", "required"];
    assert Join(["name", "required"], ". ") == "name. required" by {
      assert ["name", "required"][1..] == ["required"];
    }
    assert BadRequestMessage(Object(props, "required")) == Some("name. required");
  }

  /** The outcome of a request as `next.handle` delivers it. */
  datatype Outcome<T> = Response(value: T) | Failed(failure: HttpFailure)

  /** What the caller sees: the request's own outcome, or the TypeError thrown inside the error handler. */
  datatype Signal<T> = Passed(outcome: Outcome<T>) | TypeErrorThrown

  /**
    The interceptor wrapped around one request, given the toasts shown so far:
    responses pass through untouched; failures add one error toast and are
    re-signalled unchanged, except when mapping the message throws, which
    shows nothing and replaces the failure with the TypeError.
   */
  function Intercept<T>(o: Outcome<T>, shown: seq<Notification>): (r: (Signal<T>, seq<Notification>))
    ensures o.Response? ==> r == (Passed(o), shown)
    ensures o.Failed? && !MappingThrows(o.failure) ==>
      && r.0 == Passed(o)
      && |r.1| == |shown| + 1 && r.1[..|shown|] == shown
      && r.1[|shown|] == Notification(Error, "Error", ErrorMessage(o.failure).value, Lifetime)
    ensures o.Failed? && MappingThrows(o.failure) ==> r == (TypeErrorThrown, shown)
  {
    match o
    case Response(_) => (Passed(o), shown)
    case Failed(e) =>
      match ErrorMessage(e)
      case Some(m) => (Passed(o), shown + [ShowError(m)])
      case None => (TypeErrorThrown, shown)
  }

  /** A 400 payload with a key named `hasOwnProperty` shows no toast, and the caller receives the TypeError. */
  lemma ShadowedKeyThrows<T>(props: seq<Property>, topLevel: string, k: int, shown: seq<Notification>)
    requires 0 <= k < |props| && props[k].key == HasOwnPropertyKey
    ensures ErrorMessage(HttpFailure(400, Object(props, topLevel))) == None
    ensures Intercept(Outcome<T>.Failed(HttpFailure(400, Object(props, topLevel))), shown) == (Signal<T>.TypeErrorThrown, shown)
  {
  }

  /** The payload `{"hasOwnProperty": "x"}` makes the interceptor throw instead of notifying. */
  lemma HasOwnPropertyPayload<T>()
    ensures Intercept(Outcome<T>.Failed(HttpFailure(400, Object([Property("hasOwnProperty", Text("x"), true)], ""))), [])
      == (Signal<T>.TypeErrorThrown, [])
  {
    var props := [Property("hasOwnProperty", Text("x"), true)];
    assert props[0].key == HasOwnPropertyKey;
  }
}
