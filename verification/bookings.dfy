/** The booking store behind the dashboard (`useBookings`): the loaded bookings, the
    loading flag, the last error, the search text and the lease selection, with the
    derived filtered view. Network delays are gone: every asynchronous call is split
    into the state change made when it starts and the one made when it settles, and
    its result is a parameter. */
module BookingStore {
  import opened Options
  import opened Text
  import opened Seqs
  import opened LeaseTypes

  datatype StoreState = StoreState(
    bookings: seq<Booking>,
    isLoading: bool,
    error: Option<ApiError>,
    searchQuery: string,
    selectedLeaseFilter: string)

  const FetchError := ApiError("FETCH_ERROR", "Failed to fetch bookings", None)
  const DeleteError := ApiError("DELETE_ERROR", "Failed to delete booking", None)

  /** The state before the first fetch settles: nothing loaded, loading, no error,
      no search text, no lease selected. */
  function InitialStore(): (s: StoreState)
    ensures s.bookings == [] && s.isLoading && s.error == None
    ensures s.searchQuery == "" && s.selectedLeaseFilter == ""
  {
    StoreState([], true, None, "", "")
  }

  // ---------------------------------------------------------------------------
  // The filtered view
  // ---------------------------------------------------------------------------

  /** The six texts a search looks at; the booking's own `id` is not among them. */
  function SearchFields(b: Booking): seq<string> {
    [b.uniqueId, b.lease.uniqueId, b.lease.agreementNumber,
     b.lease.guestEmail, b.lease.hostEmail, b.lease.listing.name]
  }

  /** The search test for an already lower-cased and trimmed query. */
  predicate MatchesQuery(b: Booking, query: string) {
    || Contains(ToLower(b.uniqueId), query)
    || Contains(ToLower(b.lease.uniqueId), query)
    || Contains(ToLower(b.lease.agreementNumber), query)
    || Contains(ToLower(b.lease.guestEmail), query)
    || Contains(ToLower(b.lease.hostEmail), query)
    || Contains(ToLower(b.lease.listing.name), query)
  }

  /** The lease selection test: either of the lease's identifiers, compared exactly. */
  predicate MatchesLease(b: Booking, leaseFilter: string) {
    b.lease.id == leaseFilter || b.lease.uniqueId == leaseFilter
  }

  function QueryTest(query: string): Booking -> bool {
    (b: Booking) => MatchesQuery(b, query)
  }

  function LeaseTest(leaseFilter: string): Booking -> bool {
    (b: Booking) => MatchesLease(b, leaseFilter)
  }

  /** The search text as the filter uses it: lower-cased, then trimmed. */
  function NormalizedQuery(searchQuery: string): string {
    Trim(ToLower(searchQuery))
  }

  /** A booking passes the search when the query is blank or one of its six search
      fields, lower-cased, contains the normalised query. */
  predicate PassesSearch(b: Booking, searchQuery: string) {
    Trim(searchQuery) == "" ||
    exists i :: 0 <= i < |SearchFields(b)| && Contains(ToLower(SearchFields(b)[i]), NormalizedQuery(searchQuery))
  }

  /** A booking passes the lease selection when nothing is selected or either lease
      identifier equals the selection. */
  predicate PassesLease(b: Booking, leaseFilter: string) {
    leaseFilter == "" || b.lease.id == leaseFilter || b.lease.uniqueId == leaseFilter
  }

  /** The search stage alone. */
  function SearchOnly(bookings: seq<Booking>, searchQuery: string): (r: seq<Booking>)
    ensures IsSubsequence(r, bookings)
    ensures forall b :: b in r <==> b in bookings && PassesSearch(b, searchQuery)
    ensures forall b :: multiset(r)[b] == if PassesSearch(b, searchQuery) then multiset(bookings)[b] else 0
  {
    if Trim(searchQuery) == "" then
      SubsequenceReflexive(bookings);
      bookings
    else
      var r := Filter(bookings, QueryTest(NormalizedQuery(searchQuery)));
      FilterCounts(bookings, QueryTest(NormalizedQuery(searchQuery)));
      assert forall b :: MatchesQuery(b, NormalizedQuery(searchQuery)) <==> PassesSearch(b, searchQuery) by {
        forall b ensures MatchesQuery(b, NormalizedQuery(searchQuery)) <==> PassesSearch(b, searchQuery) {
          MatchesQueryIffSomeField(b, NormalizedQuery(searchQuery));
        }
      }
      r
  }

  /** The lease-selection stage alone. */
  function LeaseOnly(bookings: seq<Booking>, leaseFilter: string): (r: seq<Booking>)
    ensures IsSubsequence(r, bookings)
    ensures forall b :: b in r <==> b in bookings && PassesLease(b, leaseFilter)
    ensures forall b :: multiset(r)[b] == if PassesLease(b, leaseFilter) then multiset(bookings)[b] else 0
  {
    if leaseFilter == "" then
      SubsequenceReflexive(bookings);
      bookings
    else
      FilterCounts(bookings, LeaseTest(leaseFilter));
      Filter(bookings, LeaseTest(leaseFilter))
  }

  /** `filteredBookings`: the search stage, then the lease stage. The result keeps the
      store's order and holds exactly the bookings that pass both tests; with a blank
      query and no selection it is the whole list. */
  function FilteredBookings(bookings: seq<Booking>, searchQuery: string, leaseFilter: string): (r: seq<Booking>)
    ensures IsSubsequence(r, bookings)
    ensures forall b :: b in r <==> b in bookings && PassesSearch(b, searchQuery) && PassesLease(b, leaseFilter)
    ensures forall b ::
              multiset(r)[b] == if PassesSearch(b, searchQuery) && PassesLease(b, leaseFilter) then multiset(bookings)[b] else 0
    ensures Trim(searchQuery) == "" && leaseFilter == "" ==> r == bookings
  {
    var searched := SearchOnly(bookings, searchQuery);
    SubsequenceTransitive(LeaseOnly(searched, leaseFilter), searched, bookings);
    LeaseOnly(searched, leaseFilter)
  }

  /** The six-way disjunction of the source is the same as "some search field matches". */
  lemma MatchesQueryIffSomeField(b: Booking, query: string)
    ensures MatchesQuery(b, query) <==>
      exists i :: 0 <= i < |SearchFields(b)| && Contains(ToLower(SearchFields(b)[i]), query)
  {
    var f := SearchFields(b);
    if MatchesQuery(b, query) {
      if Contains(ToLower(b.uniqueId), query) { assert Contains(ToLower(f[0]), query); }
      else if Contains(ToLower(b.lease.uniqueId), query) { assert Contains(ToLower(f[1]), query); }
      else if Contains(ToLower(b.lease.agreementNumber), query) { assert Contains(ToLower(f[2]), query); }
      else if Contains(ToLower(b.lease.guestEmail), query) { assert Contains(ToLower(f[3]), query); }
      else if Contains(ToLower(b.lease.hostEmail), query) { assert Contains(ToLower(f[4]), query); }
      else { assert Contains(ToLower(f[5]), query); }
    }
  }

  /** Applying the two stages in the other order gives the same list: the result is the
      intersection of the search-only and lease-only views, in store order. */
  lemma FilteredIsIntersection(bookings: seq<Booking>, searchQuery: string, leaseFilter: string)
    ensures FilteredBookings(bookings, searchQuery, leaseFilter)
         == SearchOnly(LeaseOnly(bookings, leaseFilter), searchQuery)
    ensures forall b :: b in FilteredBookings(bookings, searchQuery, leaseFilter) <==>
      b in SearchOnly(bookings, searchQuery) && b in LeaseOnly(bookings, leaseFilter)
  {
    if Trim(searchQuery) != "" && leaseFilter != "" {
      FilterCommutes(bookings, QueryTest(NormalizedQuery(searchQuery)), LeaseTest(leaseFilter));
    }
  }

  /** Filtering the filtered list again with the same query and selection changes nothing. */
  lemma FilteredIdempotent(bookings: seq<Booking>, searchQuery: string, leaseFilter: string)
    ensures FilteredBookings(FilteredBookings(bookings, searchQuery, leaseFilter), searchQuery, leaseFilter)
         == FilteredBookings(bookings, searchQuery, leaseFilter)
  {
    var r := FilteredBookings(bookings, searchQuery, leaseFilter);
    var q := NormalizedQuery(searchQuery);
    if Trim(searchQuery) != "" {
      assert forall i :: 0 <= i < |r| ==> QueryTest(q)(r[i]) by {
        forall i | 0 <= i < |r| ensures QueryTest(q)(r[i]) {
          assert r[i] in r;
          MatchesQueryIffSomeField(r[i], q);
        }
      }
      FilterKeepsAll(r, QueryTest(q));
    }
    if leaseFilter != "" {
      assert forall i :: 0 <= i < |r| ==> LeaseTest(leaseFilter)(r[i]) by {
        forall i | 0 <= i < |r| ensures LeaseTest(leaseFilter)(r[i]) {
          assert r[i] in r;
        }
      }
      FilterKeepsAll(r, LeaseTest(leaseFilter));
    }
  }

  /** The booking's own `id` plays no part in the search. */
  lemma SearchIgnoresBookingId(b: Booking, otherId: string, searchQuery: string)
    ensures PassesSearch(b.(id := otherId), searchQuery) == PassesSearch(b, searchQuery)
  {
    assert SearchFields(b.(id := otherId)) == SearchFields(b);
  }

  /** The search ignores the case of the query: two queries that lower-case alike
      select the same bookings. */
  lemma SearchIgnoresQueryCase(b: Booking, q1: string, q2: string)
    requires ToLower(q1) == ToLower(q2)
    ensures PassesSearch(b, q1) == PassesSearch(b, q2)
  {
    BlankIffLowerBlank(q1);
    BlankIffLowerBlank(q2);
  }

  /** Lower-casing never turns whitespace into text or text into whitespace. */
  lemma BlankIffLowerBlank(q: string)
    ensures Trim(q) == "" <==> Trim(ToLower(q)) == ""
  {
    assert AllWhitespace(q) <==> AllWhitespace(ToLower(q)) by {
      forall i | 0 <= i < |q| ensures IsWhitespace(q[i]) <==> IsWhitespace(ToLower(q)[i]) {
        assert ToLower(q)[i] == LowerChar(q[i]);
      }
    }
  }

  // ---------------------------------------------------------------------------
  // Store operations
  // ---------------------------------------------------------------------------

  /** The list the page renders. */
  function Visible(s: StoreState): seq<Booking> {
    FilteredBookings(s.bookings, s.searchQuery, s.selectedLeaseFilter)
  }

  /** `setSearchQuery`: only the search text changes. */
  function SetSearchQuery(s: StoreState, query: string): (r: StoreState)
    ensures r.searchQuery == query
    ensures r.(searchQuery := s.searchQuery) == s
  {
    s.(searchQuery := query)
  }

  /** `setSelectedLeaseFilter`: only the lease selection changes. */
  function SetSelectedLeaseFilter(s: StoreState, leaseId: string): (r: StoreState)
    ensures r.selectedLeaseFilter == leaseId
    ensures r.(selectedLeaseFilter := s.selectedLeaseFilter) == s
  {
    s.(selectedLeaseFilter := leaseId)
  }

  /** What the data source answered to a fetch. */
  datatype FetchOutcome = Fetched(data: seq<Booking>) | FetchFailed

  /** The start of `fetchBookings`: loading, and the previous error forgotten at once. */
  function BeginFetch(s: StoreState): (r: StoreState)
    ensures r.isLoading && r.error == None
    ensures r.bookings == s.bookings
    ensures r.searchQuery == s.searchQuery && r.selectedLeaseFilter == s.selectedLeaseFilter
  {
    s.(isLoading := true, error := None)
  }

  /** The end of `fetchBookings`: the loaded list replaces the old one, or a failure is
      recorded as FETCH_ERROR with the old list kept; either way loading stops. */
  function SettleFetch(s: StoreState, outcome: FetchOutcome): (r: StoreState)
    ensures !r.isLoading
    ensures outcome.Fetched? ==> r.bookings == outcome.data && r.error == s.error
    ensures outcome.FetchFailed? ==> r.bookings == s.bookings && r.error == Some(FetchError)
    ensures r.searchQuery == s.searchQuery && r.selectedLeaseFilter == s.selectedLeaseFilter
  {
    match outcome
    case Fetched(data) => s.(bookings := data, isLoading := false)
    case FetchFailed => s.(error := Some(FetchError), isLoading := false)
  }

  /** A whole fetch (also `refreshBookings`). */
  function FetchBookings(s: StoreState, outcome: FetchOutcome): (r: StoreState)
    ensures !r.isLoading
    ensures outcome.Fetched? ==> r.bookings == outcome.data && r.error == None
    ensures outcome.FetchFailed? ==> r.bookings == s.bookings && r.error == Some(FetchError)
    ensures r.searchQuery == s.searchQuery && r.selectedLeaseFilter == s.selectedLeaseFilter
  {
    SettleFetch(BeginFetch(s), outcome)
  }

  /** Refreshing twice with the same answer is the same as refreshing once. */
  lemma FetchIdempotent(s: StoreState, outcome: FetchOutcome)
    ensures FetchBookings(FetchBookings(s, outcome), outcome) == FetchBookings(s, outcome)
  {
  }

  /** Two fetches started before either settles: the one that settles last decides the
      list when it succeeds, and a late failure keeps what the earlier one loaded. */
  lemma OverlappingFetchesLastWins(s: StoreState, first: FetchOutcome, second: FetchOutcome)
    ensures var r := SettleFetch(SettleFetch(BeginFetch(BeginFetch(s)), first), second);
      && !r.isLoading
      && (second.Fetched? ==> r.bookings == second.data)
      && (second.FetchFailed? && first.Fetched? ==> r.bookings == first.data && r.error == Some(FetchError))
  {
  }

  /** What the data source answered to a delete request. */
  datatype DeleteOutcome = Deleted | DeleteFailed

  /** The store after a delete, and whether the call rejected to its caller. */
  datatype DeleteResult = DeleteResult(store: StoreState, rejected: bool)

  /** `deleteBooking(id)`: on success every booking with that id leaves the list and the
      rest keep their order; on failure the list stays, DELETE_ERROR is recorded and the
      caller sees the failure. Nothing is removed before the data source answers. */
  function DeleteBooking(s: StoreState, id: string, outcome: DeleteOutcome): (r: DeleteResult)
    ensures r.rejected <==> outcome == DeleteFailed
    ensures outcome == Deleted ==>
      && IsSubsequence(r.store.bookings, s.bookings)
      && (forall b :: b in r.store.bookings <==> b in s.bookings && b.id != id)
      && (forall b :: multiset(r.store.bookings)[b] == if b.id == id then 0 else multiset(s.bookings)[b])
      && r.store.error == s.error
    ensures outcome == DeleteFailed ==> r.store.bookings == s.bookings && r.store.error == Some(DeleteError)
    ensures r.store.isLoading == s.isLoading
    ensures r.store.searchQuery == s.searchQuery && r.store.selectedLeaseFilter == s.selectedLeaseFilter
  {
    match outcome
    case Deleted =>
      FilterCounts(s.bookings, OtherThan(id));
      DeleteResult(s.(bookings := Filter(s.bookings, OtherThan(id))), false)
    case DeleteFailed => DeleteResult(s.(error := Some(DeleteError)), true)
  }

  function OtherThan(id: string): Booking -> bool {
    (b: Booking) => b.id != id
  }

  /** Deleting an id no booking carries leaves the list as it was. */
  lemma DeleteAbsentIdIsNoOp(s: StoreState, id: string)
    requires forall i :: 0 <= i < |s.bookings| ==> s.bookings[i].id != id
    ensures DeleteBooking(s, id, Deleted).store == s
  {
    FilterKeepsAll(s.bookings, OtherThan(id));
  }

  /** Deleting the same id twice is the same as deleting it once. */
  lemma DeleteTwiceSameAsOnce(s: StoreState, id: string)
    ensures DeleteBooking(DeleteBooking(s, id, Deleted).store, id, Deleted) == DeleteBooking(s, id, Deleted)
  {
    FilterIdempotent(s.bookings, OtherThan(id));
  }

  /** A deleted booking also leaves the filtered view, whatever the query and selection. */
  lemma DeletedBookingNotVisible(s: StoreState, id: string, b: Booking)
    requires b.id == id
    ensures b !in Visible(DeleteBooking(s, id, Deleted).store)
  {
  }
}
