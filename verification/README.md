# Leases dashboard — a Dafny model

A model of the leases selection dashboard: a single page listing a guest's lease
bookings as cards, with a free-text search, a lease selector, a delete confirmation
dialog and transient alerts. The model covers:

- the booking store (`useBookings`): the two-stage filter behind the list, fetching and
  deleting;
- the alert queue (`useAlert`);
- the display formatters the cards use: dates, status labels, identifiers, e-mail
  masking, counts, addresses and payment progress;
- the logic of the lease card, the lease selector and the overview page.

Everything is a pure function over immutable values. React state updates become
functions from one state to the next. The page's asynchronous handlers are split at
their `await` points: the second half acts on the page as it stands when the wait ends,
so a cancel or a dismissed alert in between is taken into account. The store's fetch is
split the same way. The answers of the data source are parameters.

Modules, following the program's own files:

| module | file | models |
|---|---|---|
| `Options`, `Seqs`, `Text`, `Records` | `options.dfy`, `seqs.dfy`, `text.dfy`, `records.dfy` | the JavaScript building blocks the code relies on: `Array.prototype.filter`, `toLowerCase`, `trim`, `includes`, `split`/`join` on one character, number to text, and `table[key] \|\| fallback` over an object literal |
| `LeaseTypes` | `lease_types.dfy` | the entities: lease, booking, listing, photo, proposal, stay, lease option, API error |
| `Formatters` | `formatters.dfy` | `src/utils/formatters.ts` |
| `BookingStore` | `bookings.dfy` | `src/hooks/useBookings.ts` |
| `AlertQueue` | `alerts.dfy` | `src/hooks/useAlert.ts` |
| `LeaseCard` | `lease_card.dfy` | `src/components/LeaseCard.tsx` |
| `LeaseDropdown` | `lease_dropdown.dfy` | `src/components/LeaseDropdown.tsx` |
| `LeasesOverview` | `leases_overview.dfy` | `src/pages/LeasesOverviewPage.tsx` |

The model follows the code on these points:

- A failed delete stores `DELETE_ERROR` in the same `error` field a failed fetch uses.
  While that field is set, the page shows the error panel instead of the results and the
  cards. So after a failed delete the list disappears until "Try again" refetches
  (`LeasesOverview.FailedDeleteHidesCards`).
- The payment progress is capped at 100 but has no lower bound. A negative paid amount
  gives a negative percentage.
- The results line and the empty-state notice decide whether filters are active from the
  raw search text. A search of blanks therefore offers "Clear filters" although it
  filters nothing (`LeasesOverview.BlankSearchOffersClearWithoutFiltering`).
- The proposal badge reuses the lease class table. "accepted", "rejected" and "countered"
  get a label of their own but the default colour.

## Model

| member | source | states |
|---|---|---|
| Records.Lookup | src/utils/formatters.ts:49-57 | reading an object literal finds a value exactly when the key is one of the table's keys, and the value found is the one written last for that key |
| Records.ValueOr | src/utils/formatters.ts:57 | `table[key] \|\| fallback` gives the fallback for a key the table does not define or whose last-written value is empty, and that value otherwise |
| Records.ImageTableKeys | src/utils/formatters.ts:49-56 | a table built from a list of keys defines exactly those keys |
| Records.ValueOrImage | src/utils/formatters.ts:57 | such a table read with a fallback gives the key's image for a listed key and the fallback for any other text |
| Seqs.Filter | src/hooks/useBookings.ts:91-110 | `filter` keeps exactly the elements that pass, in their original order, and never lengthens the list |
| Seqs.FilterCounts | src/hooks/useBookings.ts:91-110 | `filter` keeps every copy of an element that passes and no copy of one that fails |
| Seqs.FilterKeepsAll | src/hooks/useAlert.ts:40 | filtering a list whose every element passes returns the list unchanged |
| Seqs.FilterIdempotent | src/hooks/useBookings.ts:91-110 | filtering twice with the same test is filtering once |
| Seqs.FilterCommutes | src/hooks/useBookings.ts:89-111 | two filters applied in either order give the same list |
| Seqs.FilterConjunction | src/hooks/useBookings.ts:89-111 | two filters in a row are one filter with the conjunction of the tests |
| Seqs.SubsequenceTransitive | src/hooks/useBookings.ts:86-113 | a subsequence of a subsequence of a list is a subsequence of that list |
| Text.ToLower | src/hooks/useBookings.ts:90 | lower-casing keeps the length, maps every character and leaves no upper-case ASCII letter |
| Text.ToLowerIdempotent | src/hooks/useBookings.ts:90-99 | lower-casing an already lower-cased text changes nothing |
| Text.CapitalizeChangesLower | src/utils/formatters.ts:50-55 | capitalising a text that starts with a lower-case letter changes it |
| Text.Trim | src/hooks/useBookings.ts:89-90 | the trimmed text is the input with only whitespace cut from its two ends, and it neither starts nor ends with whitespace; it is empty exactly when the input is all whitespace |
| Text.TrimUnique | src/hooks/useBookings.ts:89-90 | any cut of whitespace from the two ends of a text that leaves no whitespace at either end of the rest gives the trimmed text |
| Text.ContainsIffOccurrence | src/hooks/useBookings.ts:94-99 | `includes` holds exactly when the needle occurs at some position |
| Text.IndexOf | src/utils/formatters.ts:111 | the first position of a character, or the length when it does not occur; no earlier position holds it |
| Text.Split | src/utils/formatters.ts:111 | `split` on one character gives at least one part and no part contains the separator |
| Text.JoinSplit | src/utils/formatters.ts:111 | joining the parts of a split with the separator restores the text |
| Text.SplitJoin | src/components/LeaseCard.tsx:196 | splitting a join of separator-free parts gives the parts back |
| Text.JoinPadded | src/utils/formatters.ts:135 | a join with ", " is a join with "," of the same parts, each after the first with a space in front |
| Text.SplitThreeWords | src/pages/LeasesOverviewPage.tsx:151 | three space-free words joined by spaces split back into the three words |
| Text.NatToString | src/utils/formatters.ts:123 | a count's decimal text is non-empty, all digits, and starts with 0 only for zero |
| Text.ParseNatToString | src/utils/formatters.ts:123 | reading the decimal text of a count back gives the count |
| Text.IntToString | src/utils/formatters.ts:123 | the decimal text of an integer is non-empty, has no space, starts with a minus sign exactly for a negative integer, and after that sign is the decimal text of the magnitude |
| Text.ParseIntToString | src/utils/formatters.ts:123 | reading the decimal text of any integer back, a minus sign negating the digits after it, gives the integer |
| Formatters.RenderDate | src/utils/formatters.ts:8 | a valid date renders as a text that is neither "N/A" nor "Invalid Date" and has no hyphen |
| Formatters.FormatDate | src/utils/formatters.ts:4-9 | "N/A" exactly for a missing or empty value, "Invalid Date" exactly for a text the parser rejects or an invalid date, and never a hyphen |
| Formatters.FormatDateRange | src/utils/formatters.ts:18-25 | splitting a range at its hyphen gives back the two formatted ends |
| Formatters.DateRangeDeterminesSides | src/utils/formatters.ts:18-25 | two ranges render alike only if their starts and their ends render alike |
| Formatters.StatusLabel | src/utils/formatters.ts:57 | a listed status is shown capitalised and any other text verbatim |
| Formatters.FormatLeaseStatus | src/utils/formatters.ts:48-58 | the six lease statuses are capitalised; anything else is shown as it is |
| Formatters.FormatPaymentStatus | src/utils/formatters.ts:60-69 | the five payment statuses are capitalised; anything else is shown as it is |
| Formatters.FormatDocumentStatus | src/utils/formatters.ts:71-79 | the four document statuses are capitalised; anything else is shown as it is |
| Formatters.FormatProposalStatus | src/utils/formatters.ts:81-91 | the six proposal statuses are capitalised; anything else is shown as it is |
| Formatters.FormatBookingStatus | src/utils/formatters.ts:93-101 | the four booking statuses are capitalised; anything else is shown as it is |
| Formatters.StatusLabelIdempotent | src/utils/formatters.ts:48-58 | formatting a label a second time changes nothing, since no capitalised label is itself a key |
| Formatters.StatusLabelExamples | src/utils/formatters.ts:48-91 | "active" reads "Active", "countered" reads "Countered", and "on-hold" is shown as it is |
| Formatters.TruncateId | src/utils/formatters.ts:104-107 | a short id is unchanged; a longer one keeps its first `maxLength` characters (none for a negative length) followed by "..." |
| Formatters.TruncateIdDefault | src/utils/formatters.ts:104-107 | with the default length an id of up to twelve characters is unchanged and a longer one keeps its first twelve followed by "..." |
| Formatters.TruncateIdIdempotent | src/utils/formatters.ts:104-107 | truncating a truncated id again with the same length changes nothing |
| Formatters.MaskLocal | src/utils/formatters.ts:113-116 | a local part longer than two becomes first char, "***", last char; a shorter one becomes first char and "***"; an empty one reads "undefined***" |
| Formatters.MaskEmail | src/utils/formatters.ts:110-118 | an address without '@' or with an empty domain is returned as it is; otherwise the masked local part, '@', and the text up to any second '@' |
| Formatters.EmailPieces | src/utils/formatters.ts:111 | the first two pieces of `split('@')` are the text before the first '@' and the text from there to the next '@' |
| Formatters.MaskSimpleEmail | src/utils/formatters.ts:110-118 | an address with one '@' and a non-empty domain keeps its domain and masks its local part |
| Formatters.MaskedEmailHasOneAt | src/utils/formatters.ts:110-118 | a masked address contains '@', keeps the domain, and has no second '@' |
| Formatters.MaskEmailIdempotentForLongLocal | src/utils/formatters.ts:113-117 | masking twice is masking once when the local part is longer than two |
| Formatters.MaskEmailShortLocalGrows | src/utils/formatters.ts:113-117 | a local part of one or two characters masks to "x***", and masking again gives "x****" |
| Formatters.CountNoun | src/utils/formatters.ts:122-123 | the singular for exactly one, otherwise the given non-empty plural, else the singular with "s" |
| Formatters.FormatCount | src/utils/formatters.ts:121-124 | the first space-separated field is the count and everything after the first space is the noun |
| Formatters.CountFields | src/utils/formatters.ts:123 | a number and a space-free noun joined by a space split back into the two |
| Formatters.FormatAddress | src/utils/formatters.ts:127-136 | the address is the ", "-join of the non-empty fields among address, city, state and zip, in that order, an absent zip counting as empty; it is empty exactly when every field is |
| Formatters.AddressParts | src/utils/formatters.ts:133-135 | the parts joined are a subsequence of the four fields, none of them empty, holding every non-empty field as often as it occurs |
| Formatters.FormatAddressSplits | src/utils/formatters.ts:127-136 | when no field holds a comma, splitting the address at its commas gives back the non-empty fields in order, each after the first behind one space |
| Formatters.NoneKeptIffAllEmpty | src/utils/formatters.ts:135 | `filter(Boolean)` keeps nothing exactly when every part is empty |
| Formatters.JoinEmptyIff | src/utils/formatters.ts:135 | a join of non-empty parts is empty exactly when there are no parts |
| Formatters.FormatAddressComplete | src/utils/formatters.ts:127-136 | with every part present the address reads "address, city, state, zip" |
| Formatters.FormatAddressEmptyZip | src/utils/formatters.ts:134 | an absent zip and an empty zip format alike |
| Formatters.CalculatePaymentProgress | src/utils/formatters.ts:144-150 | 0 for a zero total, never above 100, for a positive total equal to the integer formula min(100, (200·paid + total) div (2·total)), and for a negative total the same formula with both amounts negated |
| Formatters.Round | src/utils/formatters.ts:149 | `Math.round` gives the integer nearest its argument, a half rounding up |
| Formatters.RoundedPercentage | src/utils/formatters.ts:149 | `Math.round` of the real percentage equals integer division, for a positive total directly and for a negative total after negating both amounts |
| Formatters.PaymentProgressBounds | src/utils/formatters.ts:144-150 | for a positive total and a non-negative paid amount the progress lies in 0..100, and a fully paid lease shows 100 |
| Formatters.PaymentProgressMonotonic | src/utils/formatters.ts:144-150 | paying more never lowers the progress |
| Formatters.PaymentProgressExamples | src/utils/formatters.ts:144-150 | 0 of 0 is 0, 50 of 100 is 50, 150 of 100 is 100, -50 of 100 is -50, 1 of 3 is 33, 1 of 200 is 1 |
| BookingStore.InitialStore | src/hooks/useBookings.ts:26-30 | nothing loaded, loading, no error, both filters empty |
| BookingStore.SearchOnly | src/hooks/useBookings.ts:89-102 | keeps, in order, exactly the bookings that pass the search, every copy of each |
| BookingStore.LeaseOnly | src/hooks/useBookings.ts:105-111 | keeps, in order, exactly the bookings that pass the lease selection, every copy of each |
| BookingStore.FilteredBookings | src/hooks/useBookings.ts:85-114 | a subsequence of the bookings holding every copy of those that pass both stages and none of the others; a blank search with no selection shows every booking |
| BookingStore.MatchesQueryIffSomeField | src/hooks/useBookings.ts:93-100 | the six-way test holds exactly when one of the six search fields, lower-cased, contains the query |
| BookingStore.FilteredIsIntersection | src/hooks/useBookings.ts:85-114 | running the stages in the other order gives the same list, the intersection of the two single-stage views |
| BookingStore.FilteredIdempotent | src/hooks/useBookings.ts:85-114 | filtering the filtered list again changes nothing |
| BookingStore.SearchIgnoresBookingId | src/hooks/useBookings.ts:91-100 | the booking's own id plays no part in the search |
| BookingStore.SearchIgnoresQueryCase | src/hooks/useBookings.ts:90 | two queries that lower-case alike select the same bookings |
| BookingStore.BlankIffLowerBlank | src/hooks/useBookings.ts:89-90 | lower-casing does not change whether a query is blank |
| BookingStore.SetSearchQuery | src/hooks/useBookings.ts:29 | only the search text changes |
| BookingStore.SetSelectedLeaseFilter | src/hooks/useBookings.ts:30 | only the lease selection changes |
| BookingStore.BeginFetch | src/hooks/useBookings.ts:33-35 | the store is loading with the previous error cleared, and the list and filters are kept |
| BookingStore.SettleFetch | src/hooks/useBookings.ts:37-56 | loading ends; the answer replaces the list, or a failure keeps the list and records FETCH_ERROR |
| BookingStore.FetchBookings | src/hooks/useBookings.ts:33-57 | after a fetch nothing is loading; a success shows exactly the data with no error, a failure keeps the list with FETCH_ERROR |
| BookingStore.FetchIdempotent | src/hooks/useBookings.ts:80-82 | refreshing twice with the same answer is refreshing once |
| BookingStore.OverlappingFetchesLastWins | src/hooks/useBookings.ts:33-57 | of two overlapping fetches the one settling last decides the list, and a late failure keeps what the earlier one loaded |
| BookingStore.DeleteBooking | src/hooks/useBookings.ts:65-77 | a success drops every booking with that id and keeps every copy of the rest in order; a failure keeps the list, records DELETE_ERROR and rejects to the caller |
| BookingStore.DeleteAbsentIdIsNoOp | src/hooks/useBookings.ts:69 | deleting an id no booking carries changes nothing |
| BookingStore.DeleteTwiceSameAsOnce | src/hooks/useBookings.ts:69 | deleting the same id twice is deleting it once |
| BookingStore.DeletedBookingNotVisible | src/hooks/useBookings.ts:65-114 | a deleted booking leaves the filtered view whatever the filters |
| AlertQueue.ShowAlert | src/hooks/useAlert.ts:22-37 | one alert is appended with the given id, type and message and the others are untouched; an omitted duration is 3000; a dismissal is scheduled exactly for a positive duration |
| AlertQueue.HideAlert | src/hooks/useAlert.ts:39-41 | keeps, in order, every copy of the alerts with another id and none with that id |
| AlertQueue.ClearAlerts | src/hooks/useAlert.ts:43-45 | no alert is left |
| AlertQueue.HideUnknownIdIsNoOp | src/hooks/useAlert.ts:39-41 | hiding an id nobody carries changes nothing |
| AlertQueue.HideIdempotent | src/hooks/useAlert.ts:39-41 | hiding the same id twice is hiding it once |
| AlertQueue.DismissUndoesShow | src/hooks/useAlert.ts:22-41 | when the auto-dismiss of an alert with a fresh id fires, the queue is back to what it was before |
| AlertQueue.HideAllCovering | src/hooks/useAlert.ts:39-41 | hiding a list of ids that covers every alert leaves nothing |
| AlertQueue.HideAllIdsClears | src/hooks/useAlert.ts:39-45 | hiding every present id one after another ends where clearing does |
| LeaseCard.FirstPublished | src/components/LeaseCard.tsx:35 | the position of the first published photo, or none when no photo is published |
| LeaseCard.ListingPhoto | src/components/LeaseCard.tsx:35-37 | for the index of the first published photo, its thumbnail when it has one; when no first published photo has one, the thumbnail of photo 0 if present, else the placeholder |
| LeaseCard.ListingPhotoIsThumbnailOrPlaceholder | src/components/LeaseCard.tsx:35-37 | the card's image is never empty and is either the placeholder or some photo's thumbnail |
| LeaseCard.PublishedWithoutThumbnailFallsBackToFirstPhoto | src/components/LeaseCard.tsx:35-37 | a published photo without a thumbnail falls back to the first photo's thumbnail, even an unpublished one |
| LeaseCard.StatusClass | src/components/LeaseCard.tsx:60 | a listed status gets the prefix and the status; anything else the prefix and "default" |
| LeaseCard.GetStatusClass | src/components/LeaseCard.tsx:51-61 | "status-" and the status for the six lease statuses, "status-default" otherwise |
| LeaseCard.GetPaymentStatusClass | src/components/LeaseCard.tsx:63-72 | "payment-" and the status for the five payment statuses, "payment-default" otherwise |
| LeaseCard.GetDocumentStatusClass | src/components/LeaseCard.tsx:74-82 | "doc-" and the status for the four document statuses, "doc-default" otherwise |
| LeaseCard.StatusClassAgreesWithLabel | src/components/LeaseCard.tsx:103-104 | the lease badge gets its own colour exactly when its label differs from the raw status |
| LeaseCard.ProposalOnlyStatusesUseDefault | src/components/LeaseCard.tsx:160 | "accepted" and "rejected" proposals get the default badge colour |
| LeaseCard.CounteredUsesDefault | src/components/LeaseCard.tsx:160-161 | a "countered" proposal gets a label of its own but the default colour |
| LeaseCard.SharedStatusesGetOwnClass | src/components/LeaseCard.tsx:160 | "pending", "expired" and "draft" proposals get their own colour |
| LeaseCard.CountLabel | src/components/LeaseCard.tsx:196 | the word after the count is the noun `formatCount` chose |
| LeaseCard.CountLabelOneWord | src/components/LeaseCard.tsx:195-201 | for one-word nouns with a plural given ("Stay"/"Stays", "Draft"/"Drafts"), the label is the singular for a count of exactly one and the plural for any other count |
| LeaseCard.RenderProposal | src/components/LeaseCard.tsx:157-202 | the proposal block's badge class and label come from the proposal status, the draft count is the number of drafts, and its label is "Draft" for exactly one and "Drafts" otherwise |
| LeaseCard.DisplayedLeaseId | src/components/LeaseCard.tsx:118 | an id of up to 18 characters is shown unchanged; a longer one as its first 18 characters followed by "...", so never more than 21 characters |
| LeaseCard.ProgressBarBounds | src/components/LeaseCard.tsx:48 | the bar width is a percentage for a positive total and a non-negative paid amount |
| LeaseCard.RenderCard | src/components/LeaseCard.tsx:35-229 | each field comes from the lease through the formatter the card applies (photo, title, status class and label, shortened id, agreement number, period, payment and document class and label, progress, usability, weekly pattern, proposal label and draft count); the proposal block exactly when there is a proposal, the weekly pattern exactly when it is non-empty, the labels agreeing with the counts, delete wired to the booking id and details to the lease id |
| LeaseDropdown.SelectedOption | src/components/LeaseDropdown.tsx:22 | none exactly when no option answers to the value; otherwise the first option whose id or unique id is the value |
| LeaseDropdown.OptionSelected | src/components/LeaseDropdown.tsx:101-104 | for a non-empty value, an option is highlighted exactly when the bookings of its lease pass the store's lease stage |
| LeaseDropdown.ShowAllSelected | src/components/LeaseDropdown.tsx:89-94 | when the "show all" entry is highlighted the lease stage keeps every booking |
| LeaseDropdown.ShowClear | src/components/LeaseDropdown.tsx:60 | the clear button shows exactly when the "show all" entry is not highlighted |
| LeaseDropdown.HighlightedOptions | src/components/LeaseDropdown.tsx:98-104 | the highlighted entries are exactly the options answering to the value, in menu order, each as often as it is listed |
| LeaseDropdown.SelectedIsFirstHighlighted | src/components/LeaseDropdown.tsx:22-101 | the option named on the trigger is the first highlighted entry of the menu |
| LeaseDropdown.DisplayValue | src/components/LeaseDropdown.tsx:16-23 | the first option answering to the value supplies the text when its label is non-empty; when there is none, or its label is empty, the placeholder ("Choose Lease" by default) shows |
| LeaseDropdown.EmptyLabelShowsPlaceholderText | src/components/LeaseDropdown.tsx:23-56 | a selected option with an empty label shows the placeholder text without the placeholder style |
| LeaseDropdown.ChooseOption | src/components/LeaseDropdown.tsx:37-40 | choosing an entry stores exactly its id (never its unique id) as the lease selection, which it then answers to, and nothing else changes |
| LeaseDropdown.ClearSelection | src/components/LeaseDropdown.tsx:42-45 | clearing empties the selection, so every booking passes the lease stage, and nothing else changes |
| LeaseDropdown.ChosenLeasePasses | src/components/LeaseDropdown.tsx:102 | after choosing the option of a booking's lease, that booking passes the lease stage |
| LeaseDropdown.HighlightAgreesWithFilter | src/components/LeaseDropdown.tsx:101 | for a non-empty value, the lease's option is highlighted exactly when its booking passes the lease stage |
| LeaseDropdown.ChooseThenSelected | src/components/LeaseDropdown.tsx:22-40 | choosing an option and reading the selection back finds that option when no other answers to its id |
| LeasesOverview.InitialPage | src/pages/LeasesOverviewPage.tsx:33-35 | the store loading, no alerts, the dialog closed with no target |
| LeasesOverview.DeleteClick | src/pages/LeasesOverviewPage.tsx:52-55 | the dialog opens on that booking; store and alerts unchanged |
| LeasesOverview.StartConfirm | src/pages/LeasesOverviewPage.tsx:58-61 | without a non-empty target nothing changes; otherwise only the progress flag is raised |
| LeasesOverview.SettleConfirm | src/pages/LeasesOverviewPage.tsx:62-71 | on the page as it stands when the request settles: the captured booking is deleted or DELETE_ERROR recorded, one alert is appended after whatever alerts are there, progress stops, a success closes the dialog and forgets the target, a failure leaves the dialog as it finds it |
| LeasesOverview.ConfirmDelete | src/pages/LeasesOverviewPage.tsx:58-72 | run through without interruption: nothing happens without a target; otherwise the dialog shows progress, a success removes the booking, closes the dialog and raises a success alert, and a failure keeps the dialog open on the same booking and raises an error alert |
| LeasesOverview.ConfirmNeedsTarget | src/pages/LeasesOverviewPage.tsx:59 | confirming changes the page exactly when a non-empty booking id is remembered |
| LeasesOverview.CancelDelete | src/pages/LeasesOverviewPage.tsx:75-78 | the dialog closes and forgets the target; store and alerts unchanged |
| LeasesOverview.ConfirmAfterCancelIsNoOp | src/pages/LeasesOverviewPage.tsx:58-78 | confirming after cancelling changes nothing |
| LeasesOverview.CancelDuringFailedDelete | src/components/shared/ConfirmDialog.tsx:30 | a cancel through the overlay while the delete is out, followed by a failure, leaves the dialog closed with no target, nothing deleted and the error alert raised |
| LeasesOverview.ClickConfirmRemovesBooking | src/pages/LeasesOverviewPage.tsx:52-72 | clicking delete on a booking and confirming with success removes it from the list and closes the dialog |
| LeasesOverview.ClearFilters | src/pages/LeasesOverviewPage.tsx:99-102 | no filter stays active, every loaded booking is visible, everything else kept |
| LeasesOverview.FiltersActive | src/pages/LeasesOverviewPage.tsx:153 | when neither filter text is set, every loaded booking is visible |
| LeasesOverview.BlankSearchOffersClearWithoutFiltering | src/pages/LeasesOverviewPage.tsx:153 | a search of blanks alone counts as an active filter although every booking stays visible |
| LeasesOverview.ResultsLabel | src/pages/LeasesOverviewPage.tsx:151 | the words are the count, "lease" for one and "leases" otherwise, and "found" |
| LeasesOverview.ResultsLabelCount | src/pages/LeasesOverviewPage.tsx:151 | the number on the results line reads back as the count |
| LeasesOverview.NoLeasesNotice | src/pages/LeasesOverviewPage.tsx:177-189 | the notice offers "Clear filters" exactly when a filter is active |
| LeasesOverview.RenderPage | src/pages/LeasesOverviewPage.tsx:148-201 | spinner exactly while loading, error panel with the error's message exactly when there is an error, results and cards only when neither, the empty notice exactly for an empty list, cards in store order |
| LeasesOverview.FailedDeleteHidesCards | src/pages/LeasesOverviewPage.tsx:167-201 | after a failed delete the error panel replaces the results and the cards |
| LeasesOverview.RetryAfterErrorShowsCards | src/pages/LeasesOverviewPage.tsx:167-175 | a successful "Try again" removes the error panel and shows the filtered data |
| LeasesOverview.InitialPageShowsSpinnerOnly | src/pages/LeasesOverviewPage.tsx:163-165 | while the first fetch is out only the spinner shows |
| LeasesOverview.CopyIdAlert | src/pages/LeasesOverviewPage.tsx:38-43 | one success alert naming the copied id is appended, and its removal after the default 3000 ms is returned; nothing else changes |
| LeasesOverview.StartChecks | src/pages/LeasesOverviewPage.tsx:82 | an info alert saying the checks run is appended, and its removal after the default 3000 ms is returned; store and dialog unchanged |
| LeasesOverview.FinishChecks | src/pages/LeasesOverviewPage.tsx:84-85 | after the pause, a success alert is appended to whatever alerts are showing then, and its removal after the default 3000 ms is returned; store and dialog unchanged |
| LeasesOverview.RunChecks | src/pages/LeasesOverviewPage.tsx:81-86 | run through without interruption: an info alert when the checks start, then a success alert after the pause, each with its own removal after the default 3000 ms returned; store and dialog unchanged |

## Left out

- The date library: `parseISO` together with `isValid` is a parameter of the date functions. Time zones, locales and the formatting of years below 1 are not modelled.
- `formatDateTime`, `formatRelativeTime`, `formatCurrency` and `formatPercentage` are not modelled. They wrap the clock, `Intl` or floating-point `toFixed`. The amounts on the card are therefore not part of `RenderCard`.
- Floating point: the payment percentage is computed exactly on rationals, which can differ from IEEE rounding for amounts whose quotient is not exact.
- Case folding covers the ASCII letters only. `toLowerCase` on other scripts is not modelled.
- The status tables are written as key lists, each entry's value derived by capitalising the key or prefixing it. This gives the same entries as the source's object literals. Inherited object keys such as `constructor` are not modelled.
- Timers and the network: the 500 ms and 300 ms delays, the 1.5 s pause of "Run checks" and the alert's auto-dismiss are not run. The dismissal is returned as a `Dismissal` value, and answers from the data source are parameters. The mock data set is not modelled.
- Alert identifiers come from the clock and `Math.random`, so they are parameters.
- The clipboard copy, the "Copied!" indicator and its 2-second reset are not modelled. Navigation (`handleViewDetails`, the pricing and manage-leases links) and the image `onError` fallback URL are presentation effects with no state in the model.
- The selector's `isOpen` flag and its outside-click listener are not modelled. The menu's sublabels and the "No leases available" text are not modelled either.
- `src/services/api.ts` and the lease-option mock list are not part of this model.
- Counts are integers. `formatCount` takes a JavaScript number, and fractional, infinite and NaN counts are not modelled.
- Text.IntToString: writes every decimal digit of the integer. JavaScript's number-to-text conversion writes the shortest digits that read back to the same double above 2^53, so `String(2**64)` is "18446744073709552000". From 10^21 on it uses exponent form, such as "1e+21". Both ranges are printed differently here.
- Formatters.FormatCount: the count is written by `Text.IntToString`, so it differs from the source above 2^53 and from 10^21 on, as described there.
- LeaseCard.CountLabel: the contract names the word only when the noun has no space. For a noun with a space, the body still computes the source's first-word result, but the contract does not describe it.
- Formatters.MaskEmailIdempotentForLongLocal: idempotence is stated only for local parts longer than two. Shorter ones are not idempotent (`Formatters.MaskEmailShortLocalGrows`).
- Formatters.StatusLabelIdempotent: stated for tables whose keys all start with a lower-case letter, which all five tables do.
- Formatters.TruncateId: lengths and cut positions count Unicode scalar values, while JavaScript's `length` and `substring` count UTF-16 code units. Ids with characters outside the Basic Multilingual Plane are cut at a different place.
- Formatters.TruncateIdDefault: counts characters as `TruncateId` does, not UTF-16 code units.
- Formatters.MaskLocal: the first and last character and the length test count Unicode scalar values, not UTF-16 code units. A local part starting or ending with a character outside the Basic Multilingual Plane keeps the whole character, where JavaScript keeps half of a surrogate pair.
- Formatters.MaskEmail: inherits the character counting of `MaskLocal`.
