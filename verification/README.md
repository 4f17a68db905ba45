# Employee directory UI: verified model of its decision logic

This project models, in Dafny, the three pieces of an Angular
employee-directory front end that make decisions:

- the **HTTP error interceptor**, which turns a failed request into exactly
  one error toast and re-signals the failure unchanged. The toast text comes
  from a priority chain: a client-side `ErrorEvent` first, then status 0,
  404, 403, 401, 400 (with a payload-dependent message) and 500, then a
  default. One payload breaks this: a 400 object with a key named
  `hasOwnProperty`. The own-key test then calls that key's value, throws a
  TypeError, shows no toast, and hands the TypeError to the caller;
- the **employee form**. Its three controls carry Angular validators. The
  email pattern is modelled as a deterministic automaton, which is proved to
  accept exactly the regular language of the pattern. Around the form sits
  a small controller: create/edit mode, the busy flag (`loading`),
  submit/reset, and per-control touched/dirty flags;
- the **employee list**: a case-insensitive live filter over the fetched
  records, the load/search/delete transitions, and the confirmation gate in
  front of every delete.

Asynchronous replies are separate events, such as `ListLoaded`,
`SaveSucceeded` and `ConfirmationAnswered`, handled by `OnListLoaded`,
`OnSaveSucceeded` and `OnConfirmation`. A controller step returns a
`Transition`: the next state plus the effects the step asks for, in order.
An effect is an API call, a toast, a navigation, or a confirmation dialog.

Files (one module each unless noted):

| file | module | models |
|---|---|---|
| js_strings.dfy | JsStrings | `toLowerCase` (ASCII), `trim`, `includes`, `Array.prototype.join` |
| employee_model.dfy | DirectoryOption, EmployeeModel, Notifications, Effects | records, `Department`, service calls as data, toasts, effects |
| http_errors.dfy | HttpErrors | the interceptor |
| email_pattern.dfy | EmailPattern | the explicit email pattern: language, automaton, equivalence |
| form_validators.dfy | FormValidators | validators of the three controls |
| employee_form.dfy | EmployeeForm | the form component |
| name_filter.dfy | NameFilter | the list's live name filter |
| employee_list.dfy | EmployeeList | the list component |

Parameters stand for code that is not part of this model:

- `ngEmail: string -> bool` is Angular's built-in `Validators.email`.
- `toNumber: string -> JsNumber` is JavaScript's unary `+` on the route parameter.

Three behaviours of the code are easy to misread:

- The department control has only `Validators.required`, so any non-empty
  string passes it. The select offers a placeholder option with the empty
  value, which fails `required`, followed by the four department codes,
  each exactly once (`DepartmentOptionsComplete`).
- A 400 payload `{field: "name", message: "required"}` has two own keys, and
  the toast joins both values: `"name. required"` (`TwoKeyPayload`).
- Every emission of the route parameters re-runs the edit-mode check. A
  later id therefore switches a create-mode form to edit mode
  (`OnRouteParams` applies to any state).

## Model

| member | source | states |
|---|---|---|
| HttpErrors.ErrorMessage | src/app/interceptors/http-error.interceptor.ts:20-53 | a client-side event always gives "Error: " + its message, whatever the status; otherwise statuses 0/401/403/404/500 give their fixed texts (checked against a lookup table), and every status outside {0,400,401,403,404,500} gives "An unknown error occurred"; the mapping throws (no message) exactly for a 400 object payload with a key named `hasOwnProperty` |
| HttpErrors.OwnValues | src/app/interceptors/http-error.interceptor.ts:37-42 | the `hasOwnProperty` filter keeps the value of every own key and nothing else; it is empty exactly when no visited key is own |
| HttpErrors.OwnValuesInOrder | src/app/interceptors/http-error.interceptor.ts:37-42 | the kept values are, position by position, the values of the own keys in enumeration order: one entry per own key, at strictly increasing key positions, and no own key skipped |
| HttpErrors.BadRequestJoinsOwnValues | src/app/interceptors/http-error.interceptor.ts:36-44 | a 400 with an object payload that has at least one own key, and no key named `hasOwnProperty`, shows the own values joined by ". " |
| HttpErrors.BadRequestSingleKey | src/app/interceptors/http-error.interceptor.ts:38-44 | with exactly one own key (not named `hasOwnProperty`), the 400 message is that key's value, with no separator |
| HttpErrors.BadRequestWithoutOwnKeys | src/app/interceptors/http-error.interceptor.ts:43-47 | an object payload without own keys, and without a `hasOwnProperty` key, gives its top-level `message` if truthy, else "Invalid request data." |
| HttpErrors.BadRequestWithoutObject | src/app/interceptors/http-error.interceptor.ts:36-50 | a 400 whose payload is null, another falsy value or a non-object gives "Invalid request data." |
| HttpErrors.TwoKeyPayload | src/app/interceptors/http-error.interceptor.ts:36-44 | the payload {field: "name", message: "required"} produces "name. required" |
| HttpErrors.ShadowedKeyThrows | src/app/interceptors/http-error.interceptor.ts:38-39 | a 400 object payload with a key named `hasOwnProperty`, anywhere and own or inherited, yields no message; the interceptor shows no toast and delivers a TypeError instead of the failure |
| HttpErrors.HasOwnPropertyPayload | src/app/interceptors/http-error.interceptor.ts:36-42 | the payload {"hasOwnProperty": "x"} makes the interceptor throw a TypeError without a toast |
| HttpErrors.Intercept | src/app/interceptors/http-error.interceptor.ts:17-60 | a success passes through with no toast; a failure whose message can be mapped adds exactly one error toast ("Error", the mapped message, 5000 ms), keeps every earlier toast, and re-signals the identical failure; a failure whose mapping throws adds no toast and delivers the TypeError |
| JsStrings.JoinValues | src/app/interceptors/http-error.interceptor.ts:44 | the left-to-right `join` loop of the ECMAScript standard builds the same string as the recursive `Join` used by the message mapping |
| JsStrings.JoinSnoc | src/app/interceptors/http-error.interceptor.ts:44 | joining one more value appends the separator and that value |
| JsStrings.JoinLength | src/app/interceptors/http-error.interceptor.ts:44 | a join holds every value once, plus one separator between each pair of neighbours |
| EmployeeModel.CodeInjective | src/app/models/employee.model.ts:10-15 | the four departments have distinct, non-empty string values |
| EmailPattern.MatchesIffInLanguage | src/app/components/employee-form/employee-form.component.ts:179 | the automaton accepts a string if and only if it splits as local-part "@" domain "." two-or-more letters, each part in its character class |
| EmailPattern.Scan | src/app/components/employee-form/employee-form.component.ts:179 | a single left-to-right pass with one state variable returns true exactly for the strings of the pattern's language |
| EmailPattern.AcceptedShape | src/app/components/employee-form/employee-form.component.ts:179 | an accepted address has exactly one "@", at least one character before it, a final "." followed only by two or more ASCII letters, and at least six characters |
| EmailPattern.NoAtRejected | src/app/components/employee-form/employee-form.component.ts:179 | a string without "@" is rejected |
| EmailPattern.ShortAddressAccepted | src/app/components/employee-form/employee-form.component.ts:179 | "a@b.co" is accepted |
| EmployeeForm.SampleEmailMatches | src/app/components/employee-form/employee-form.component.ts:179 | the address "ada@x.com" satisfies the email pattern |
| FormValidators.NamePatternIff | src/app/components/employee-form/employee-form.component.ts:173 | the name pattern accepts exactly the non-empty strings of ASCII letters and spaces |
| FormValidators.NameErrors | src/app/components/employee-form/employee-form.component.ts:171-175 | "required" is reported exactly for the empty name; "pattern" exactly for a non-empty name containing a character other than a letter or space; "maxlength" exactly above 100 characters |
| FormValidators.EmailErrors | src/app/components/employee-form/employee-form.component.ts:176-180 | the empty value reports only "required"; "email" and "pattern" are reported for non-empty values failing Angular's check or lying outside the pattern's language |
| FormValidators.DepartmentErrors | src/app/components/employee-form/employee-form.component.ts:181 | the department is valid exactly when it is non-empty; its only possible error is "required" |
| FormValidators.NameValidIff | src/app/components/employee-form/employee-form.component.ts:171-175 | a name is valid if and only if it has 1 to 100 characters, all ASCII letters or spaces |
| FormValidators.EmailValidIff | src/app/components/employee-form/employee-form.component.ts:176-180 | an email is valid if and only if it is non-empty, passes Angular's email check, and is in the pattern's language |
| FormValidators.ValidEmailShape | src/app/components/employee-form/employee-form.component.ts:176-180 | a valid email has exactly one "@" with something before it, and ends in "." plus two or more letters |
| FormValidators.NameWithDigitInvalid | src/app/components/employee-form/employee-form.component.ts:173 | a name containing a digit is invalid, with a "pattern" error |
| FormValidators.LetterNameValid | src/app/components/employee-form/employee-form.component.ts:171-175 | "Ada Lovelace" is a valid name |
| EmployeeForm.DepartmentOptionsComplete | src/app/components/employee-form/employee-form.component.ts:142-147 | the select lists every department exactly once, each option submits a different code, and every option passes the department validator |
| EmployeeForm.OnRouteParams | src/app/components/employee-form/employee-form.component.ts:159-166 | a present, non-empty id other than "new" enters edit mode, binds the parsed id, sets loading and fetches that record; any other value changes nothing |
| EmployeeForm.EditModeIff | src/app/components/employee-form/employee-form.component.ts:156-167 | from a fresh form, edit mode holds if and only if the id is present, non-empty and not "new"; otherwise the form stays exactly as created, with no call |
| EmployeeForm.LoadEmployee | src/app/components/employee-form/employee-form.component.ts:185-187 | loading a record only marks the form busy and sends one fetch of that id; the controls stay as they are until the reply |
| EmployeeForm.OnEmployeeLoaded | src/app/components/employee-form/employee-form.component.ts:188-195 | the fetched record's name, email and department become the form value; touched and dirty flags, mode and bound id are kept; loading clears; nothing is sent |
| EmployeeForm.OnEmployeeLoadFailed | src/app/components/employee-form/employee-form.component.ts:196-199 | a failed fetch clears loading, keeps everything else, sends no call, and navigates back to the list |
| EmployeeForm.FieldNamed | src/app/components/employee-form/employee-form.component.ts:258 | "name", "email" and "department" select the name, email and department control respectively, and no other string names a control |
| EmployeeForm.OnEdited | src/app/components/employee-form/employee-form.component.ts:36-73 | typing into (or choosing in) a field sets that control's value and marks it dirty, keeps its touched flag, leaves the other controls, mode, id and loading unchanged, and sends nothing |
| EmployeeForm.OnBlurred | src/app/components/employee-form/employee-form.component.ts:36-73 | leaving a field marks that control touched; nothing else changes and nothing is sent |
| EmployeeForm.IsFieldInvalid | src/app/components/employee-form/employee-form.component.ts:257-260 | a field shows errors if and only if it names a control that is invalid and dirty or touched; an unknown name never shows errors |
| EmployeeForm.MarkAllTouched | src/app/components/employee-form/employee-form.component.ts:262-269 | every control becomes touched; values and dirty flags are unchanged |
| EmployeeForm.Submit | src/app/components/employee-form/employee-form.component.ts:203-217 | an invalid form issues no call and changes only the touched flags: every control becomes touched, values, dirty flags, loading, mode and id are kept; a valid form sets loading and issues exactly one call carrying the form value: an update of the bound id if and only if in edit mode with a truthy id, a create otherwise |
| EmployeeForm.RejectedSubmitShowsErrors | src/app/components/employee-form/employee-form.component.ts:257-269 | after a rejected submit, every invalid field shows its errors |
| EmployeeForm.RejectedSubmitIdempotent | src/app/components/employee-form/employee-form.component.ts:203-207 | submitting an invalid form a second time changes nothing and sends nothing |
| EmployeeForm.FalsyIdCreates | src/app/components/employee-form/employee-form.component.ts:212-216 | in edit mode, an id of 0 or NaN makes a valid submit send a create, not an update |
| EmployeeForm.SaveReplyClearsLoading | src/app/components/employee-form/employee-form.component.ts:219-243 | after a create or update reply, success or failure, only loading changes (to false); success emits exactly the success toast for that call followed by one navigation to the list, and failure emits nothing at all |
| EmployeeForm.Reset | src/app/components/employee-form/employee-form.component.ts:245-251 | in edit mode with a truthy id, reset sets loading and re-fetches the record; otherwise every control is emptied, untouched and pristine, while mode, id and loading are kept |
| EmployeeForm.ClearedFormShowsNoErrors | src/app/components/employee-form/employee-form.component.ts:245-251 | a cleared form shows no field errors, although it is invalid |
| EmployeeForm.CreateScenario | src/app/components/employee-form/employee-form.component.ts:171-230 | on a fresh form, typing three valid values and submitting sends one create call with exactly those values; its success shows "Employee created successfully" and returns to the list |
| EmployeeForm.SaveOnlyFromValidSubmit | src/app/components/employee-form/employee-form.component.ts:203-217 | of all form events, only submitting a form whose three controls are valid sends a create or update call |
| EmployeeForm.AtMostOneCall | src/app/components/employee-form/employee-form.component.ts:156-251 | no form event sends more than one call |
| EmployeeForm.NotFoundReturnsToList | src/app/components/employee-form/employee-form.component.ts:185-199 | a fetch of the record that fails with 404 shows exactly the toast "The requested resource was not found.", passes the failure on, and the form stops loading and navigates back to the list |
| JsStrings.BlankIffAllWhitespace | src/app/components/employee-list/employee-list.component.ts:188 | `!term.trim()` holds if and only if every character of the term is JavaScript whitespace |
| JsStrings.IncludesIffOccurs | src/app/components/employee-list/employee-list.component.ts:195 | `includes` is true if and only if the needle occurs at some index of the text |
| JsStrings.LowerIdempotent | src/app/components/employee-list/employee-list.component.ts:193-195 | lower-casing twice is lower-casing once |
| NameFilter.KeepMatching | src/app/components/employee-list/employee-list.component.ts:194-196 | the filter keeps each record exactly as often as it occurs when its name matches and drops it otherwise, as an order-preserving subsequence no longer than the list |
| NameFilter.KeepMatchingMembers | src/app/components/employee-list/employee-list.component.ts:194-196 | a record is kept if and only if it is in the list and its lower-cased name contains the lower-cased term |
| NameFilter.FilterView | src/app/components/employee-list/employee-list.component.ts:187-197 | a blank term shows the whole list; any other term, untrimmed, selects the records whose lower-cased name contains its lower-cased form |
| NameFilter.FilterViewMembers | src/app/components/employee-list/employee-list.component.ts:193-196 | with a non-blank term, membership in the view is exactly "in the list and the name matches" |
| NameFilter.FilterViewIsSubsequence | src/app/components/employee-list/employee-list.component.ts:187-197 | the view is an order-preserving subsequence of the list and never longer |
| NameFilter.KeepMatchingIdempotent | src/app/components/employee-list/employee-list.component.ts:194-196 | filtering the kept records again with the same term keeps all of them |
| NameFilter.FilterViewIdempotent | src/app/components/employee-list/employee-list.component.ts:187-197 | filtering the view again with the same term gives the same view |
| NameFilter.NoMatchEmptyView | src/app/components/employee-list/employee-list.component.ts:193-196 | a non-blank term contained in no name gives an empty view |
| NameFilter.LowerKeepsBlank | src/app/components/employee-list/employee-list.component.ts:188-193 | a term is blank exactly when its lower-cased form is blank |
| NameFilter.FilterViewIgnoresTermCase | src/app/components/employee-list/employee-list.component.ts:193-196 | lower-casing the term beforehand does not change the view |
| NameFilter.SubsequenceReflexive | src/app/components/employee-list/employee-list.component.ts:189 | the copy shown for a blank term is a (trivial) subsequence of the list |
| EmployeeList.LoadEmployees | src/app/components/employee-list/employee-list.component.ts:173-175 | loading only marks the list busy and sends one fetch of all employees; the list, the view, the term and any open dialog stay until the reply |
| EmployeeList.OnListLoaded | src/app/components/employee-list/employee-list.component.ts:176-180 | a successful load makes the data both the list and the view and clears loading; the term and any open dialog are kept, and nothing is sent |
| EmployeeList.OnFetchFailed | src/app/components/employee-list/employee-list.component.ts:173-215 | a failed load of the list or a failed name search only clears loading; list, view, term and any open dialog are kept, and nothing is sent |
| EmployeeList.OnSearchChange | src/app/components/employee-list/employee-list.component.ts:187-197 | the live filter changes only the view and sends no call; the view is a subsequence of the list, equal to it for a blank term, and otherwise holds every matching record exactly as often as the list does and no other record |
| EmployeeList.SearchInput | src/app/components/employee-list/employee-list.component.ts:43-44 | typing stores the text as the term and makes the view the name filter of the full list by that text; nothing else changes and nothing is sent |
| EmployeeList.OnSearchChangeIdempotent | src/app/components/employee-list/employee-list.component.ts:187-197 | running the live filter twice is running it once |
| EmployeeList.NoMatchKeepsList | src/app/components/employee-list/employee-list.component.ts:187-197 | typing a term found in no name empties the view and leaves the fetched list unchanged |
| EmployeeList.SearchEmployees | src/app/components/employee-list/employee-list.component.ts:199-215 | a blank term is exactly a reload; any other term sets loading and sends one name search with the untrimmed term |
| EmployeeList.OnSearchResults | src/app/components/employee-list/employee-list.component.ts:207-210 | search results replace only the view and clear loading; the list, the term and any open dialog are kept |
| EmployeeList.ConfirmDelete | src/app/components/employee-list/employee-list.component.ts:225-232 | asking to delete opens one confirmation for the record, with the text "Are you sure you want to delete <name>?", remembers the record the dialog is for, and sends nothing |
| EmployeeList.OnConfirmation | src/app/components/employee-list/employee-list.component.ts:228-230 | any answer closes the dialog; accepting an open dialog sends exactly one delete of the record it was opened for; rejecting, or answering with no dialog open, sends nothing |
| EmployeeList.DeleteOnlyWhenAccepted | src/app/components/employee-list/employee-list.component.ts:225-241 | of all list events, only accepting an open dialog sends a delete, and it deletes the record that dialog was opened for |
| EmployeeList.ConfirmationOutcomes | src/app/components/employee-list/employee-list.component.ts:225-232 | after asking about a record, accepting sends exactly one delete of it and rejecting sends nothing; either way the component is otherwise as before the question |
| EmployeeList.AnswerWithoutDialogIgnored | src/app/components/employee-list/employee-list.component.ts:228-230 | with no dialog open, an answer changes nothing and sends nothing |
| EmployeeList.LatestDialogWins | src/app/components/employee-list/employee-list.component.ts:225-232 | asking about one record and then another, accepting deletes only the second |
| EmployeeList.DeleteEmployee | src/app/components/employee-list/employee-list.component.ts:234-235 | deleting sends exactly one delete call for that id and leaves the component unchanged until the reply |
| EmployeeList.OnDeleted | src/app/components/employee-list/employee-list.component.ts:236-239 | a successful delete shows one success toast and then reloads the whole list; only loading changes, and the current view is not edited locally |
| EmployeeList.OnDeleteFailed | src/app/components/employee-list/employee-list.component.ts:234-241 | a failed delete changes nothing and sends nothing: there is no error callback and no reload |
| EmployeeList.OnlyListLoadReplacesEmployees | src/app/components/employee-list/employee-list.component.ts:173-241 | only a reply carrying the whole list replaces the fetched list |
| EmployeeList.RepliesClearLoading | src/app/components/employee-list/employee-list.component.ts:173-215 | every reply to a load or a search leaves loading false |

## Left out

- JsStrings.Lower: folds ASCII letters only. JavaScript's `toLowerCase`
  also folds non-ASCII letters, so names and terms with such letters may
  match differently in the real filter.
- Angular's `Validators.email` is library code. It is the parameter
  `ngEmail`, and every result is stated relative to it.
- JavaScript's unary `+` on the route id is the parameter `toNumber`. Its
  result is an integer or NaN; fractional and infinite numbers are not
  modelled.
- `reset()` sets every control to `null`. The model uses the empty string.
  Both fail `required`, and the other validators skip both.
- `Validators.maxLength` counts UTF-16 code units, the model counts
  characters. The two agree on every name the pattern accepts, since those
  are ASCII.
- `markFormGroupTouched` recurses into nested groups. This form has none,
  so `MarkAllTouched` works on the three flat controls.
- The template disables the submit button while the form is invalid or
  busy. The model lets `Submit` run in any state, as `onSubmit` itself does.
- The template's error texts and everything visual (styles, the department
  badge, the application shell) are left out. They make no decisions.
- The employee service builds URLs and calls `HttpClient`. Each call is the
  `ApiCall` value it would send. Transport, retries and timeouts are left out.
- The notification service forwards to PrimeNG's message service. A toast
  is a `Notification` record in the effects. Display, expiry and `clear()`
  are left out.
- Router navigation is a `Navigate` effect. The list's
  `navigateToAddEmployee`/`navigateToEditEmployee` only navigate and are
  left out.
- The confirmation dialog is an `AskConfirmation` effect, and the user's
  answer is an event. The dialog library shows one question at a time: a
  newer question replaces an unanswered one, along with its `accept`
  callback. The component's `pending` field stands for that callback's
  captured record.
- User input is modelled as the `Edited` and `Blurred` form events. Angular
  updates a control on every change and marks it touched on blur. Focus
  handling and other `updateOn` settings are left out.
- RxJS asynchrony is left out. Replies are events, and nothing matches a
  reply to its request. The code does not guard against overlapping
  requests either.
- The `Employee` interface (employee.model.ts, lines 1-8) is not used by
  the modelled components.
- Dependency-injection wiring (app.config.ts) is not part of this model.
- A 400 payload is modelled as the ordered keys a `for ... in` loop visits.
  Each key carries a flag saying whether it is own. Its `message` lookup is
  modelled as a rendered string, with "" for any falsy value. A value that
  is neither null nor undefined is represented by its string conversion.
  Parsed JSON values are never functions, so a key named `hasOwnProperty`
  always makes the own-key test throw.
- A truthy function payload has `typeof` "function", not "object". It
  counts as `Primitive`.
