/**
  The employee list component as a state machine over the fetched list, the
  filtered view, the busy flag and the search box. Replies to its calls
  arrive as separate events; deleting goes through a confirmation dialog
  whose answer is an event too.
 */
module EmployeeList {

  import opened DirectoryOption
  import opened EmployeeModel
  import opened Notifications
  import opened Effects
  import opened NameFilter
  import opened JsStrings

  datatype ListComponent = ListComponent(
    employees: seq<EmployeeResponse>,
    filteredEmployees: seq<EmployeeResponse>,
    loading: bool,
    searchTerm: string,
    pending: Option<EmployeeResponse>)

  /** The component as constructed: nothing fetched yet, already marked busy, no dialog open. */
  function Init(): ListComponent
  {
    ListComponent([], [], true, "", None)
  }

  /** `loadEmployees`: busy, and a fetch of the whole list; the list and the view wait for the reply. */
  function LoadEmployees(c: ListComponent): (r: Transition<ListComponent>)
    ensures r.state == c.(loading := true) && r.effects == [Send(GetAll)]
  {
    Transition(c.(loading := true), [Send(GetAll)])
  }

  /** The whole list arrived: it becomes both the list and the view. */
  function OnListLoaded(c: ListComponent, data: seq<EmployeeResponse>): (r: Transition<ListComponent>)
    ensures r.state.employees == data && r.state.filteredEmployees == data
    ensures r.state == c.(employees := data, filteredEmployees := data, loading := false) && r.effects == []
  {
    Transition(c.(employees := data, filteredEmployees := data, loading := false), [])
  }

  /** Fetching the whole list or searching by name failed: both handlers only clear the busy flag. */
  function OnFetchFailed(c: ListComponent): (r: Transition<ListComponent>)
    ensures r.state == c.(loading := false) && r.effects == []
  {
    Transition(c.(loading := false), [])
  }

  /** `onSearchChange`: recompute the view from the full list, with no call. */
  function OnSearchChange(c: ListComponent): (r: Transition<ListComponent>)
    ensures r.state.employees == c.employees && r.state.loading == c.loading
    ensures r.state.searchTerm == c.searchTerm && r.effects == []
    ensures IsSubsequence(r.state.filteredEmployees, c.employees)
    ensures AllWhitespace(c.searchTerm) ==> r.state.filteredEmployees == c.employees
    ensures !AllWhitespace(c.searchTerm) ==> forall x ::
      x in r.state.filteredEmployees <==> x in c.employees && NameMatches(x, Lower(c.searchTerm))
    ensures !AllWhitespace(c.searchTerm) ==> forall x ::
      multiset(r.state.filteredEmployees)[x]
        == if NameMatches(x, Lower(c.searchTerm)) then multiset(c.employees)[x] else 0
    ensures r.state == c.(filteredEmployees := r.state.filteredEmployees)
  {
    FilterViewIsSubsequence(c.employees, c.searchTerm);
    FilterViewMembers(c.employees, c.searchTerm);
    Transition(c.(filteredEmployees := FilterView(c.employees, c.searchTerm)), [])
  }

  /** Typing in the search box: two-way binding stores the text, then the `input` handler filters. */
  function SearchInput(c: ListComponent, text: string): (r: Transition<ListComponent>)
    ensures r.state == c.(searchTerm := text, filteredEmployees := FilterView(c.employees, text))
    ensures r.effects == []
  {
    OnSearchChange(c.(searchTerm := text))
  }

  /** Re-running the live filter with the same term changes nothing. */
  lemma OnSearchChangeIdempotent(c: ListComponent)
    ensures OnSearchChange(OnSearchChange(c).state) == OnSearchChange(c)
  {
  }

  /** `searchEmployees`: a blank term reloads the whole list; any other term asks the server. */
  function SearchEmployees(c: ListComponent): (r: Transition<ListComponent>)
    ensures AllWhitespace(c.searchTerm) ==> r == LoadEmployees(c)
    ensures !AllWhitespace(c.searchTerm) ==>
      r.state == c.(loading := true) && r.effects == [Send(SearchByName(c.searchTerm))]
  {
    BlankIffAllWhitespace(c.searchTerm);
    if IsBlank(c.searchTerm) then LoadEmployees(c)
    else Transition(c.(loading := true), [Send(SearchByName(c.searchTerm))])
  }

  /** The server's search results arrived: they replace only the view. */
  function OnSearchResults(c: ListComponent, data: seq<EmployeeResponse>): (r: Transition<ListComponent>)
    ensures r.state.employees == c.employees && r.state.filteredEmployees == data
    ensures !r.state.loading && r.effects == []
    ensures r.state == c.(filteredEmployees := data, loading := false)
  {
    Transition(c.(filteredEmployees := data, loading := false), [])
  }

  /** The question the dialog asks about `e`. */
  function DeletePrompt(e: EmployeeResponse): string
  {
    "Are you sure you want to delete " + e.name + "?"
  }

  /**
    `confirmDelete`: open the dialog naming the employee; its `accept`
    callback captures that employee, kept here as the pending record.
    Nothing is sent yet.
   */
  function ConfirmDelete(c: ListComponent, e: EmployeeResponse): (r: Transition<ListComponent>)
    ensures r.state == c.(pending := Some(e)) && NoCalls(r.effects) && |r.effects| == 1
    ensures r.effects[0].AskConfirmation? && r.effects[0].target == e
    ensures r.effects[0].message == "Are you sure you want to delete " + e.name + "?"
  {
    Transition(c.(pending := Some(e)), [AskConfirmation(DeletePrompt(e), e)])
  }

  /** `deleteEmployee`: send the delete call; the view is left as it is. */
  function DeleteEmployee(c: ListComponent, id: int): (r: Transition<ListComponent>)
    ensures r.state == c && r.effects == [Send(Delete(id))]
  {
    Transition(c, [Send(Delete(id))])
  }

  /**
    The dialog's answer closes it: `accept` deletes the record the dialog
    was opened for, rejecting does nothing. Without an open dialog there is
    nothing to answer.
   */
  function OnConfirmation(c: ListComponent, accepted: bool): (r: Transition<ListComponent>)
    ensures r.state == c.(pending := None)
    ensures accepted && c.pending.Some? ==> r.effects == [Send(Delete(c.pending.value.id))]
    ensures !(accepted && c.pending.Some?) ==> r.effects == []
  {
    match c.pending
    case None => Transition(c, [])
    case Some(e) =>
      var closed := c.(pending := None);
      if accepted then DeleteEmployee(closed, e.id) else Transition(closed, [])
  }

  /** The delete call succeeded: one success toast and a full reload, not a local removal. */
  function OnDeleted(c: ListComponent): (r: Transition<ListComponent>)
    ensures r.state == c.(loading := true)
    ensures r.effects == [Notify(ShowSuccess("Employee deleted successfully")), Send(GetAll)]
  {
    var reload := LoadEmployees(c);
    Transition(reload.state, [Notify(ShowSuccess("Employee deleted successfully"))] + reload.effects)
  }

  /** The delete call failed: the component has no error handler, so nothing changes and nothing is reloaded. */
  function OnDeleteFailed(c: ListComponent): (r: Transition<ListComponent>)
    ensures r.state == c && r.effects == []
  {
    Transition(c, [])
  }

  /** Everything that can happen to the list component. */
  datatype ListEvent =
    | Initialized
    | ListLoaded(data: seq<EmployeeResponse>)
    | ListFailed
    | SearchTyped(text: string)
    | SearchRequested
    | SearchResults(data: seq<EmployeeResponse>)
    | SearchFailed
    | DeleteClicked(employee: EmployeeResponse)
    | ConfirmationAnswered(accepted: bool)
    | Deleted
    | DeleteFailed

  function Handle(c: ListComponent, ev: ListEvent): Transition<ListComponent>
  {
    match ev
    case Initialized => LoadEmployees(c)
    case ListLoaded(data) => OnListLoaded(c, data)
    case ListFailed => OnFetchFailed(c)
    case SearchTyped(text) => SearchInput(c, text)
    case SearchRequested => SearchEmployees(c)
    case SearchResults(data) => OnSearchResults(c, data)
    case SearchFailed => OnFetchFailed(c)
    case DeleteClicked(e) => ConfirmDelete(c, e)
    case ConfirmationAnswered(accepted) => OnConfirmation(c, accepted)
    case Deleted => OnDeleted(c)
    case DeleteFailed => OnDeleteFailed(c)
  }

  /** A delete call comes only from accepting an open dialog, and deletes the record that dialog was opened for. */
  lemma DeleteOnlyWhenAccepted(c: ListComponent, ev: ListEvent, id: int)
    requires Send(Delete(id)) in Handle(c, ev).effects
    ensures ev == ConfirmationAnswered(true)
    ensures c.pending.Some? && c.pending.value.id == id
  {
  }

  /**
    After asking about `e`, accepting sends exactly one delete of `e`;
    rejecting sends nothing; either answer closes the dialog and leaves the
    rest of the component as it was.
   */
  lemma ConfirmationOutcomes(c: ListComponent, e: EmployeeResponse)
    ensures var asked := Handle(c, DeleteClicked(e)).state;
      && Handle(asked, ConfirmationAnswered(true)) == Transition(c.(pending := None), [Send(Delete(e.id))])
      && Handle(asked, ConfirmationAnswered(false)) == Transition(c.(pending := None), [])
  {
  }

  /** An answer with no dialog open does nothing. */
  lemma AnswerWithoutDialogIgnored(c: ListComponent, accepted: bool)
    requires c.pending.None?
    ensures Handle(c, ConfirmationAnswered(accepted)) == Transition(c, [])
  {
  }

  /** The most recent question wins: asking about `e` and then `f` deletes only `f` on accept. */
  lemma LatestDialogWins(c: ListComponent, e: EmployeeResponse, f: EmployeeResponse)
    ensures var asked := Handle(Handle(c, DeleteClicked(e)).state, DeleteClicked(f)).state;
      Handle(asked, ConfirmationAnswered(true)).effects == [Send(Delete(f.id))]
  {
  }

  /** Only a reply carrying the whole list replaces the fetched list. */
  lemma OnlyListLoadReplacesEmployees(c: ListComponent, ev: ListEvent)
    ensures Handle(c, ev).state.employees != c.employees ==> ev.ListLoaded?
  {
  }

  /** Every reply to a fetch or search leaves the component idle. */
  lemma RepliesClearLoading(c: ListComponent, ev: ListEvent)
    requires ev.ListLoaded? || ev.ListFailed? || ev.SearchResults? || ev.SearchFailed?
    ensures !Handle(c, ev).state.loading
  {
  }

  /** Filtering by a term found in no name empties the view and keeps the fetched list. */
  lemma NoMatchKeepsList(c: ListComponent, text: string)
    requires !AllWhitespace(text)
    requires forall i | 0 <= i < |c.employees| :: !NameMatches(c.employees[i], Lower(text))
    ensures SearchInput(c, text).state.filteredEmployees == []
    ensures SearchInput(c, text).state.employees == c.employees
  {
    NoMatchEmptyView(c.employees, text);
  }
}
