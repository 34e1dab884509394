/** The lease selector: which option the current value picks, the text on its trigger,
    which entries are highlighted, and what choosing or clearing reports to the store.
    Whether the menu is open, and the outside-click listener, are presentation only. */
module LeaseDropdown {
  import opened Options
  import opened Seqs
  import opened LeaseTypes
  import opened BookingStore

  const DefaultPlaceholder := "Choose Lease"

  /** An option is highlighted when the value equals either of its identifiers. For a
      non-empty value that is exactly when the bookings of the option's lease pass the
      store's lease stage. */
  predicate OptionSelected(value: string, o: LeaseOption): (r: bool)
    ensures forall b: Booking :: Describes(o, b.lease) && value != "" ==> (r <==> PassesLease(b, value))
  {
    value == o.id || value == o.uniqueId
  }

  function SelectedTest(value: string): LeaseOption -> bool {
    (o: LeaseOption) => OptionSelected(value, o)
  }

  /** Position `i` holds the first option the value picks. */
  predicate FirstSelectedAt(options: seq<LeaseOption>, value: string, i: int) {
    0 <= i < |options| && OptionSelected(value, options[i])
    && forall j :: 0 <= j < i ==> !OptionSelected(value, options[j])
  }

  /** `selectedOption`: the first option the value picks, if any. */
  function SelectedOption(options: seq<LeaseOption>, value: string): (r: Option<LeaseOption>)
    ensures r.None? <==> forall i :: 0 <= i < |options| ==> !OptionSelected(value, options[i])
    ensures r.Some? ==> exists i :: FirstSelectedAt(options, value, i) && options[i] == r.value
    decreases |options|
  {
    if |options| == 0 then None
    else if OptionSelected(value, options[0]) then Some(options[0])
    else
      var r := SelectedOption(options[1..], value);
      assert r.Some? ==> exists i :: FirstSelectedAt(options, value, i) && options[i] == r.value by {
        if r.Some? {
          var k :| FirstSelectedAt(options[1..], value, k) && options[1..][k] == r.value;
          assert forall j :: 0 <= j < k + 1 ==> !OptionSelected(value, options[j]) by {
            forall j | 0 <= j < k + 1 ensures !OptionSelected(value, options[j]) {
              if j > 0 {
                assert options[j] == options[1..][j - 1];
              }
            }
          }
          assert options[k + 1] == r.value;
          assert FirstSelectedAt(options, value, k + 1);
        }
      }
      r
  }

  /** The entries drawn highlighted, in menu order. */
  function HighlightedOptions(options: seq<LeaseOption>, value: string): (r: seq<LeaseOption>)
    ensures IsSubsequence(r, options)
    ensures forall o :: o in r <==> o in options && OptionSelected(value, o)
    ensures forall o :: multiset(r)[o] == if OptionSelected(value, o) then multiset(options)[o] else 0
  {
    FilterCounts(options, SelectedTest(value));
    Filter(options, SelectedTest(value))
  }

  /** The option named on the trigger is the first highlighted entry of the menu. */
  lemma {:induction false} SelectedIsFirstHighlighted(options: seq<LeaseOption>, value: string)
    ensures var h := HighlightedOptions(options, value);
      SelectedOption(options, value) == (if |h| == 0 then None else Some(h[0]))
    decreases |options|
  {
    if |options| > 0 {
      SelectedIsFirstHighlighted(options[1..], value);
    }
  }

  /** `displayValue`: the selected option's label when it is non-empty, otherwise the
      placeholder, "Choose Lease" unless the caller gives another. */
  function DisplayValue(options: seq<LeaseOption>, value: string, placeholder: Option<string>): (shown: string)
    ensures (forall i :: 0 <= i < |options| ==> !OptionSelected(value, options[i]))
      ==> shown == placeholder.GetOr(DefaultPlaceholder)
    ensures forall i :: FirstSelectedAt(options, value, i) && options[i].displayLabel != "" ==>
                          shown == options[i].displayLabel
    ensures forall i :: FirstSelectedAt(options, value, i) && options[i].displayLabel == "" ==>
                          shown == placeholder.GetOr(DefaultPlaceholder)
  {
    var selected := SelectedOption(options, value);
    if selected.Some? && selected.value.displayLabel != "" then selected.value.displayLabel
    else placeholder.GetOr(DefaultPlaceholder)
  }

  /** The trigger text is greyed as a placeholder exactly when no option is selected. */
  predicate ShowsPlaceholderStyle(options: seq<LeaseOption>, value: string) {
    SelectedOption(options, value).None?
  }

  /** A selected option with an empty label puts the placeholder text on the trigger but
      not the placeholder style. */
  lemma EmptyLabelShowsPlaceholderText(options: seq<LeaseOption>, value: string, placeholder: Option<string>)
    requires |options| > 0 && OptionSelected(value, options[0]) && options[0].displayLabel == ""
    ensures DisplayValue(options, value, placeholder) == placeholder.GetOr(DefaultPlaceholder)
    ensures !ShowsPlaceholderStyle(options, value)
  {
  }

  /** The "show all" entry is highlighted exactly when nothing is selected, and the clear
      button is shown exactly when something is. */
  predicate ShowAllSelected(value: string): (r: bool)
    ensures r ==> forall bookings: seq<Booking> :: LeaseOnly(bookings, value) == bookings
  {
    value == ""
  }

  predicate ShowClear(value: string): (r: bool)
    ensures r <==> !ShowAllSelected(value)
  {
    value != ""
  }

  /** `handleSelect(option.id)`: choosing an entry puts the option's `id` into the store's
      lease selection; nothing else in the store changes. */
  function ChooseOption(s: StoreState, o: LeaseOption): (r: StoreState)
    ensures r.selectedLeaseFilter == o.id
    ensures OptionSelected(r.selectedLeaseFilter, o) && ShowClear(r.selectedLeaseFilter) == (o.id != "")
    ensures r.(selectedLeaseFilter := s.selectedLeaseFilter) == s
  {
    SetSelectedLeaseFilter(s, o.id)
  }

  /** `handleSelect('')` from the "show all" entry and `handleClear` from the clear button
      both empty the selection, after which every booking passes the lease stage. */
  function ClearSelection(s: StoreState): (r: StoreState)
    ensures ShowAllSelected(r.selectedLeaseFilter) && !ShowClear(r.selectedLeaseFilter)
    ensures forall b :: PassesLease(b, r.selectedLeaseFilter)
    ensures r.(selectedLeaseFilter := s.selectedLeaseFilter) == s
  {
    SetSelectedLeaseFilter(s, "")
  }

  /** An option stands for a lease when it carries both of the lease's identifiers. */
  predicate Describes(o: LeaseOption, lease: Lease) {
    o.id == lease.id && o.uniqueId == lease.uniqueId
  }

  /** After an option standing for a booking's lease is chosen, that booking passes the
      lease stage of the filter. */
  lemma ChosenLeasePasses(s: StoreState, o: LeaseOption, b: Booking)
    requires Describes(o, b.lease)
    ensures PassesLease(b, ChooseOption(s, o).selectedLeaseFilter)
  {
  }

  /** For a non-empty value, the menu highlights the option of a booking's lease exactly
      when the store's lease stage lets that booking through. */
  lemma HighlightAgreesWithFilter(value: string, o: LeaseOption, b: Booking)
    requires value != "" && Describes(o, b.lease)
    ensures OptionSelected(value, o) <==> PassesLease(b, value)
  {
  }

  /** No two options share an identifier in a way that lets `o.id` pick another option. */
  predicate IdPicksOnly(options: seq<LeaseOption>, o: LeaseOption) {
    forall i :: 0 <= i < |options| && options[i] != o ==> !OptionSelected(o.id, options[i])
  }

  /** Choosing an option and reading the selection back finds that same option, provided no
      other option answers to its id. */
  lemma ChooseThenSelected(options: seq<LeaseOption>, o: LeaseOption, s: StoreState)
    requires o in options && IdPicksOnly(options, o)
    ensures SelectedOption(options, ChooseOption(s, o).selectedLeaseFilter) == Some(o)
  {
    var r := SelectedOption(options, o.id);
    var k :| 0 <= k < |options| && options[k] == o;
    assert OptionSelected(o.id, options[k]);
  }
}
