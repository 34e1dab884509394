/** The dashboard page: the delete confirmation dialog, the filter reset, the results
    line, the alerts the page raises, and which of spinner, error panel, empty notice
    and cards appear for a given store state. Alert identifiers are parameters; the
    wait between starting and finishing an asynchronous handler is the gap between two
    returned page states. */
module LeasesOverview {
  import opened Options
  import opened Text
  import opened Seqs
  import opened LeaseTypes
  import opened BookingStore
  import opened AlertQueue

  /** `deleteDialogOpen`, `bookingToDelete` and `isDeleting`. */
  datatype DeleteDialog = DeleteDialog(open: bool, target: Option<string>, isDeleting: bool)

  datatype Page = Page(store: StoreState, alerts: seq<Alert>, dialog: DeleteDialog)

  const DeletedMessage := "Booking deleted successfully"
  const DeleteFailedMessage := "Failed to delete booking. Please try again."
  const ChecksRunningMessage := "Running validation checks..."
  const ChecksDoneMessage := "All checks completed successfully!"

  /** The page when it first mounts: the store loading, no alerts, the dialog closed. */
  function InitialPage(): (p: Page)
    ensures p.store == InitialStore() && p.alerts == []
    ensures !p.dialog.open && p.dialog.target.None? && !p.dialog.isDeleting
  {
    Page(InitialStore(), [], DeleteDialog(false, None, false))
  }

  /** The alert most recently raised. */
  function LastAlert(p: Page): Option<Alert> {
    if |p.alerts| == 0 then None else Some(p.alerts[|p.alerts| - 1])
  }

  // ---------------------------------------------------------------------------
  // Delete confirmation
  // ---------------------------------------------------------------------------

  /** `handleDeleteClick`: remember which booking and open the dialog. */
  function DeleteClick(p: Page, bookingId: string): (r: Page)
    ensures r.dialog.open && r.dialog.target == Some(bookingId)
    ensures r.dialog.isDeleting == p.dialog.isDeleting
    ensures r.store == p.store && r.alerts == p.alerts
  {
    p.(dialog := p.dialog.(open := true, target := Some(bookingId)))
  }

  /** `!bookingToDelete` is false: a booking id is remembered and it is not empty. */
  predicate HasTarget(d: DeleteDialog) {
    d.target.Some? && d.target.value != ""
  }

  /** The first half of `handleConfirmDelete`, up to the `await`: without a target
      nothing happens; otherwise the dialog shows progress. */
  function StartConfirm(p: Page): (r: Page)
    ensures !HasTarget(p.dialog) ==> r == p
    ensures HasTarget(p.dialog) ==> r.dialog.isDeleting && r.(dialog := p.dialog) == p
    ensures r.dialog.open == p.dialog.open && r.dialog.target == p.dialog.target
  {
    if !HasTarget(p.dialog) then p else p.(dialog := p.dialog.(isDeleting := true))
  }

  /** The page a handler step leaves, and the removal the alert it raised schedules. */
  datatype Step = Step(page: Page, dismissal: Option<Dismissal>)

  /** The second half of `handleConfirmDelete`, after the `await`, applied to the page as
      it is when the request settles: the store deletes the booking captured when the
      handler started; a success raises a success alert and closes the dialog, forgetting
      its target; a failure raises an error alert and leaves the dialog as it finds it,
      open or not. Progress stops either way. Alerts shown or hidden meanwhile are kept. */
  function SettleConfirm(q: Page, target: string, outcome: DeleteOutcome, alertId: string): (r: Step)
    ensures !r.page.dialog.isDeleting
    ensures r.page.store == DeleteBooking(q.store, target, outcome).store
    ensures |r.page.alerts| == |q.alerts| + 1 && r.page.alerts[..|q.alerts|] == q.alerts
    ensures r.dismissal == Some(Dismissal(alertId, DefaultDuration))
    ensures outcome == Deleted ==>
      && r.page.dialog == DeleteDialog(false, None, false)
      && LastAlert(r.page) == Some(Alert(alertId, Success, DeletedMessage, DefaultDuration))
    ensures outcome == DeleteFailed ==>
      && r.page.dialog.open == q.dialog.open && r.page.dialog.target == q.dialog.target
      && LastAlert(r.page) == Some(Alert(alertId, Error, DeleteFailedMessage, DefaultDuration))
  {
    var deleted := DeleteBooking(q.store, target, outcome);
    if !deleted.rejected then
      var shown := ShowAlert(q.alerts, alertId, Success, DeletedMessage, None);
      Step(Page(deleted.store, shown.alerts, DeleteDialog(false, None, false)), shown.dismissal)
    else
      var shown := ShowAlert(q.alerts, alertId, Error, DeleteFailedMessage, None);
      Step(Page(deleted.store, shown.alerts, q.dialog.(isDeleting := false)), shown.dismissal)
  }

  /** A confirmation with nothing happening between its two halves, seen at both moments:
      while the delete request is out, and once it has settled. */
  datatype Confirmation = Confirmation(inFlight: Page, settled: Page, dismissal: Option<Dismissal>)

  /** `handleConfirmDelete` run through without interruption: without a target nothing
      happens. Otherwise the dialog shows progress while the store deletes; a success
      raises a success alert and closes the dialog, forgetting the target; a failure
      raises an error alert and leaves the dialog open on the same booking. Progress
      stops either way. */
  function ConfirmDelete(p: Page, outcome: DeleteOutcome, alertId: string): (r: Confirmation)
    ensures !HasTarget(p.dialog) ==> r.inFlight == p && r.settled == p && r.dismissal.None?
    ensures HasTarget(p.dialog) ==>
      && r.inFlight.dialog == p.dialog.(isDeleting := true)
      && r.inFlight.store == p.store && r.inFlight.alerts == p.alerts
      && !r.settled.dialog.isDeleting
      && r.settled.store == DeleteBooking(p.store, p.dialog.target.value, outcome).store
      && |r.settled.alerts| == |p.alerts| + 1 && r.settled.alerts[..|p.alerts|] == p.alerts
      && r.dismissal == Some(Dismissal(alertId, DefaultDuration))
    ensures HasTarget(p.dialog) && outcome == Deleted ==>
      && !r.settled.dialog.open && r.settled.dialog.target.None?
      && LastAlert(r.settled) == Some(Alert(alertId, Success, DeletedMessage, DefaultDuration))
    ensures HasTarget(p.dialog) && outcome == DeleteFailed ==>
      && r.settled.dialog.open == p.dialog.open && r.settled.dialog.target == p.dialog.target
      && LastAlert(r.settled) == Some(Alert(alertId, Error, DeleteFailedMessage, DefaultDuration))
  {
    if !HasTarget(p.dialog) then Confirmation(p, p, None)
    else
      var inFlight := StartConfirm(p);
      var done := SettleConfirm(inFlight, p.dialog.target.value, outcome, alertId);
      Confirmation(inFlight, done.page, done.dismissal)
  }

  /** `handleCancelDelete`: close the dialog and forget the target. */
  function CancelDelete(p: Page): (r: Page)
    ensures !r.dialog.open && !HasTarget(r.dialog)
    ensures r.dialog.isDeleting == p.dialog.isDeleting
    ensures r.store == p.store && r.alerts == p.alerts
  {
    p.(dialog := p.dialog.(open := false, target := None))
  }

  /** Confirming after cancelling does nothing: the cancel forgot the target. */
  lemma ConfirmAfterCancelIsNoOp(p: Page, outcome: DeleteOutcome, alertId: string)
    ensures ConfirmDelete(CancelDelete(p), outcome, alertId).settled == CancelDelete(p)
  {
  }

  /** Confirming changes the page exactly when a non-empty booking id is remembered. */
  lemma ConfirmNeedsTarget(p: Page, outcome: DeleteOutcome, alertId: string)
    ensures ConfirmDelete(p, outcome, alertId).settled == p <==> !HasTarget(p.dialog)
  {
    if HasTarget(p.dialog) {
      assert |ConfirmDelete(p, outcome, alertId).settled.alerts| != |p.alerts|;
    }
  }

  /** The overlay behind the dialog still cancels while the delete is out. A cancel in
      that window followed by a failed delete leaves the dialog closed with no target,
      the error alert raised, and nothing deleted. */
  lemma CancelDuringFailedDelete(p: Page, alertId: string)
    requires HasTarget(p.dialog)
    ensures var r := SettleConfirm(CancelDelete(StartConfirm(p)), p.dialog.target.value, DeleteFailed, alertId).page;
      && r.dialog == DeleteDialog(false, None, false)
      && r.store.bookings == p.store.bookings
      && LastAlert(r) == Some(Alert(alertId, Error, DeleteFailedMessage, DefaultDuration))
  {
  }

  /** Clicking delete on a card and confirming with success removes that booking from the
      cards and leaves the dialog closed and idle. */
  lemma ClickConfirmRemovesBooking(p: Page, b: Booking, alertId: string)
    requires b.id != ""
    ensures var r := ConfirmDelete(DeleteClick(p, b.id), Deleted, alertId).settled;
      && b !in Visible(r.store)
      && r.dialog == DeleteDialog(false, None, false)
  {
    DeletedBookingNotVisible(DeleteClick(p, b.id).store, b.id, b);
  }

  // ---------------------------------------------------------------------------
  // Filters and results line
  // ---------------------------------------------------------------------------

  /** `searchQuery || selectedLeaseFilter`: the raw texts, not the trimmed query. */
  predicate FiltersActive(s: StoreState): (r: bool)
    ensures !r ==> Visible(s) == s.bookings
  {
    s.searchQuery != "" || s.selectedLeaseFilter != ""
  }

  /** `handleClearFilters`: both filters emptied; the list and everything else kept. */
  function ClearFilters(p: Page): (r: Page)
    ensures !FiltersActive(r.store)
    ensures Visible(r.store) == p.store.bookings
    ensures r.store.bookings == p.store.bookings && r.store.isLoading == p.store.isLoading
    ensures r.store.error == p.store.error
    ensures r.alerts == p.alerts && r.dialog == p.dialog
  {
    p.(store := SetSelectedLeaseFilter(SetSearchQuery(p.store, ""), ""))
  }

  /** A search of blanks alone offers "Clear filters" although it filters nothing. */
  lemma BlankSearchOffersClearWithoutFiltering(s: StoreState, query: string)
    requires s.selectedLeaseFilter == "" && query != "" && AllWhitespace(query)
    ensures FiltersActive(SetSearchQuery(s, query))
    ensures Visible(SetSearchQuery(s, query)) == s.bookings
  {
  }

  /** The results line: the count, "lease" or "leases", then "found". */
  function ResultsLabel(count: nat): (shown: string)
    ensures Split(shown, ' ') == [NatToString(count), if count == 1 then "lease" else "leases", "found"]
  {
    var n := NatToString(count);
    var noun := if count == 1 then "lease" else "leases";
    assert ' ' !in n by {
      assert forall i :: 0 <= i < |n| ==> n[i] != ' ';
    }
    SplitThreeWords(n, noun, "found");
    n + " " + noun + " " + "found"
  }

  /** The number on the results line reads back as the number of cards. */
  lemma ResultsLabelCount(count: nat)
    ensures ParseDigits(Split(ResultsLabel(count), ' ')[0]) == count
  {
    ParseNatToString(count);
  }

  // ---------------------------------------------------------------------------
  // What is on the page
  // ---------------------------------------------------------------------------

  datatype ResultsInfo = ResultsInfo(text: string, clearButton: bool)

  datatype EmptyNotice = EmptyNotice(title: string, description: string, icon: string, action: Option<string>)

  datatype View = View(
    spinner: bool,
    errorPanel: Option<string>,
    results: Option<ResultsInfo>,
    emptyNotice: Option<EmptyNotice>,
    cards: seq<Booking>)

  /** The notice shown when nothing matches; it offers the filter reset only when a
      filter is active. */
  function NoLeasesNotice(s: StoreState): (n: EmptyNotice)
    ensures n.action.Some? <==> FiltersActive(s)
    ensures n.action.Some? ==> n.action.value == "Clear filters"
  {
    if FiltersActive(s) then
      EmptyNotice("No leases found", "Try adjusting your search or filters to find what you're looking for.",
        "search", Some("Clear filters"))
    else
      EmptyNotice("No leases found", "There are no leases to display at the moment.", "lease", None)
  }

  /** The page's list area for a store state: the spinner while loading, the error panel
      with the error's message while an error is recorded, and the results line, the
      empty notice and the cards only when neither applies. */
  function RenderPage(s: StoreState): (v: View)
    ensures v.spinner == s.isLoading
    ensures v.errorPanel.Some? <==> s.error.Some?
    ensures s.error.Some? ==> v.errorPanel == Some(s.error.value.message)
    ensures v.results.Some? <==> !s.isLoading && s.error.None?
    ensures v.results.Some? ==>
      v.results.value.clearButton == FiltersActive(s) && v.results.value.text == ResultsLabel(|v.cards|)
    ensures v.emptyNotice.Some? <==> !s.isLoading && s.error.None? && |Visible(s)| == 0
    ensures !s.isLoading && s.error.None? ==> v.cards == Visible(s)
    ensures s.isLoading || s.error.Some? ==> v.cards == []
    ensures IsSubsequence(v.cards, s.bookings)
  {
    var ready := !s.isLoading && s.error.None?;
    var cards := if ready then Visible(s) else [];
    assert IsSubsequence([], s.bookings);
    View(
      s.isLoading,
      if s.error.Some? then Some(s.error.value.message) else None,
      if ready then Some(ResultsInfo(ResultsLabel(|cards|), FiltersActive(s))) else None,
      if ready && |cards| == 0 then Some(NoLeasesNotice(s)) else None,
      cards)
  }

  /** A failed delete records an error in the store, so the cards give way to the error
      panel, although the bookings themselves are all still there. */
  lemma FailedDeleteHidesCards(p: Page, alertId: string)
    requires HasTarget(p.dialog)
    ensures var r := ConfirmDelete(p, DeleteFailed, alertId).settled;
      && r.store.bookings == p.store.bookings
      && RenderPage(r.store).cards == []
      && RenderPage(r.store).errorPanel == Some("Failed to delete booking")
      && r.dialog.open == p.dialog.open
  {
  }

  /** "Try again" on the error panel refetches; when that succeeds the error is gone and
      the cards are the filtered fetched list. */
  lemma RetryAfterErrorShowsCards(s: StoreState, data: seq<Booking>)
    requires s.error.Some?
    ensures var v := RenderPage(FetchBookings(s, Fetched(data)));
      && v.errorPanel.None? && !v.spinner
      && v.cards == FilteredBookings(data, s.searchQuery, s.selectedLeaseFilter)
  {
  }

  /** While the first fetch is out only the spinner shows. */
  lemma InitialPageShowsSpinnerOnly()
    ensures var v := RenderPage(InitialPage().store);
      v.spinner && v.errorPanel.None? && v.results.None? && v.emptyNotice.None? && v.cards == []
  {
  }

  // ---------------------------------------------------------------------------
  // Other alerts the page raises
  // ---------------------------------------------------------------------------

  /** `handleCopyId`: one success alert naming the copied id, removed again after the
      default 3000 ms. */
  function CopyIdAlert(p: Page, leaseId: string, alertId: string): (r: Step)
    ensures LastAlert(r.page) == Some(Alert(alertId, Success, "Lease ID \"" + leaseId + "\" copied to clipboard!", DefaultDuration))
    ensures |r.page.alerts| == |p.alerts| + 1 && r.page.alerts[..|p.alerts|] == p.alerts
    ensures r.page.store == p.store && r.page.dialog == p.dialog
    ensures r.dismissal == Some(Dismissal(alertId, DefaultDuration))
  {
    var shown := ShowAlert(p.alerts, alertId, Success, "Lease ID \"" + leaseId + "\" copied to clipboard!", None);
    Step(p.(alerts := shown.alerts), shown.dismissal)
  }

  /** The first half of `handleRunChecks`: an information alert saying the checks run,
      removed again after the default 3000 ms. */
  function StartChecks(p: Page, startId: string): (r: Step)
    ensures |r.page.alerts| == |p.alerts| + 1 && r.page.alerts[..|p.alerts|] == p.alerts
    ensures LastAlert(r.page) == Some(Alert(startId, Info, ChecksRunningMessage, DefaultDuration))
    ensures r.page.store == p.store && r.page.dialog == p.dialog
    ensures r.dismissal == Some(Dismissal(startId, DefaultDuration))
  {
    var shown := ShowAlert(p.alerts, startId, Info, ChecksRunningMessage, None);
    Step(p.(alerts := shown.alerts), shown.dismissal)
  }

  /** The second half of `handleRunChecks`, once the pause has passed, applied to the page
      as it is then: a success alert after whatever alerts are showing, removed again
      after the default 3000 ms. */
  function FinishChecks(q: Page, doneId: string): (r: Step)
    ensures |r.page.alerts| == |q.alerts| + 1 && r.page.alerts[..|q.alerts|] == q.alerts
    ensures LastAlert(r.page) == Some(Alert(doneId, Success, ChecksDoneMessage, DefaultDuration))
    ensures r.page.store == q.store && r.page.dialog == q.dialog
    ensures r.dismissal == Some(Dismissal(doneId, DefaultDuration))
  {
    var shown := ShowAlert(q.alerts, doneId, Success, ChecksDoneMessage, None);
    Step(q.(alerts := shown.alerts), shown.dismissal)
  }

  /** `handleRunChecks` run through without interruption, seen when it starts and when its
      pause has passed: an information alert, then a success alert after it, each with
      its own scheduled removal. */
  function RunChecks(p: Page, startId: string, doneId: string): (r: (Step, Step))
    ensures LastAlert(r.0.page) == Some(Alert(startId, Info, ChecksRunningMessage, DefaultDuration))
    ensures LastAlert(r.1.page) == Some(Alert(doneId, Success, ChecksDoneMessage, DefaultDuration))
    ensures |r.0.page.alerts| == |p.alerts| + 1 && r.0.page.alerts[..|p.alerts|] == p.alerts
    ensures |r.1.page.alerts| == |r.0.page.alerts| + 1 && r.1.page.alerts[..|r.0.page.alerts|] == r.0.page.alerts
    ensures r.0.page.store == p.store && r.1.page.store == p.store && r.1.page.dialog == p.dialog
    ensures r.0.dismissal == Some(Dismissal(startId, DefaultDuration))
    ensures r.1.dismissal == Some(Dismissal(doneId, DefaultDuration))
  {
    var started := StartChecks(p, startId);
    (started, FinishChecks(started.page, doneId))
  }
}
