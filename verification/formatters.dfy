/** The display formatting library: dates, status labels, identifiers, e-mail masking,
    counts, addresses and the payment-progress percentage. Every function is total and
    falls back to a fixed text or to its input instead of failing. */
module Formatters {
  import opened Options
  import opened Text
  import opened Seqs
  import opened LeaseTypes
  import opened Records

  // ---------------------------------------------------------------------------
  // Dates
  // ---------------------------------------------------------------------------

  const NotAvailable := "N/A"
  const InvalidDate := "Invalid Date"

  /** date-fns `MMM`: the English three-letter month abbreviation. */
  function MonthAbbrev(m: Month): (r: string)
    ensures |r| == 3 && IsAsciiUpper(r[0]) && r[0] != 'I'
    ensures forall i :: 0 <= i < |r| ==> r[i] != '-'
  {
    ["Jan", "Feb", "Mar", "Apr", "May", "Jun", "Jul", "Aug", "Sep", "Oct", "Nov", "Dec"][m - 1]
  }

  /** A valid date in the fixed pattern `MMM d, yyyy`, e.g. "Jan 5, 2024": no padding of
      the day, the year padded to at least four digits. */
  function RenderDate(c: CalendarDate): (r: string)
    ensures r != NotAvailable && r != InvalidDate
    ensures '-' !in r
  {
    var r := MonthAbbrev(c.month) + " " + NatToString(c.day) + ", " + PadLeft(NatToString(c.year), 4, '0');
    assert r[0] == MonthAbbrev(c.month)[0];
    assert |r| >= 11;
    r
  }

  /** `formatDate`: "N/A" for a missing value (undefined or the empty string),
      "Invalid Date" for a text `parseIso` rejects or an invalid `Date`, the rendered
      date otherwise. `parseIso` stands for date-fns `parseISO` followed by `isValid`. */
  function FormatDate(d: DateInput, parseIso: string -> Option<CalendarDate>): (r: string)
    ensures r == NotAvailable <==> d == Absent || d == Text("")
    ensures r == InvalidDate <==>
      (d.Text? && d.raw != "" && parseIso(d.raw).None?) || d == Instant(None)
    ensures '-' !in r
  {
    match d
    case Absent => NotAvailable
    case Text(raw) =>
      if raw == "" then NotAvailable
      else (match parseIso(raw)
            case None => InvalidDate
            case Some(c) => RenderDate(c))
    case Instant(valid) =>
      match valid
      case None => InvalidDate
      case Some(c) => RenderDate(c)
  }

  /** `formatDateRange`: both ends formatted independently and joined by " - ". Since a
      formatted date never contains a hyphen, splitting the range at hyphens gives back
      exactly the two sides. */
  function FormatDateRange(start: DateInput, end: DateInput, parseIso: string -> Option<CalendarDate>): (r: string)
    ensures Split(r, '-') == [FormatDate(start, parseIso) + " ", " " + FormatDate(end, parseIso)]
  {
    var left := FormatDate(start, parseIso) + " ";
    var right := " " + FormatDate(end, parseIso);
    SplitNoSeparator(right, '-');
    SplitAtFirst(left, '-', right);
    left + "-" + right
  }

  /** Two ranges render the same only if their starts and their ends render the same. */
  lemma DateRangeDeterminesSides(s1: DateInput, e1: DateInput, s2: DateInput, e2: DateInput,
                                 parseIso: string -> Option<CalendarDate>)
    requires FormatDateRange(s1, e1, parseIso) == FormatDateRange(s2, e2, parseIso)
    ensures FormatDate(s1, parseIso) == FormatDate(s2, parseIso)
    ensures FormatDate(e1, parseIso) == FormatDate(e2, parseIso)
  {
    var p1 := Split(FormatDateRange(s1, e1, parseIso), '-');
    var p2 := Split(FormatDateRange(s2, e2, parseIso), '-');
    assert p1 == p2;
    assert FormatDate(s1, parseIso) == p1[0][..|p1[0]| - 1];
    assert FormatDate(e1, parseIso) == p1[1][1..];
  }

  // ---------------------------------------------------------------------------
  // Status labels
  // ---------------------------------------------------------------------------

  /** The statuses a lease, a payment, a document, a proposal and a booking may have, in
      the order their label tables list them. */
  const LeaseStatuses: seq<string> := ["active", "pending", "completed", "terminated", "expired", "draft"]
  const PaymentStatuses: seq<string> := ["paid", "partial", "pending", "overdue", "refunded"]
  const DocumentStatuses: seq<string> := ["complete", "pending", "missing", "expired"]
  const ProposalStatuses: seq<string> := ["pending", "accepted", "rejected", "expired", "countered", "draft"]
  const BookingStatuses: seq<string> := ["confirmed", "pending", "cancelled", "completed"]

  /** A label table: every entry's label is its key with the first letter upper-cased
      ("active" to "Active", "countered" to "Countered"), which is what each of the five
      tables holds. */
  function LabelTable(statuses: seq<string>): Table {
    ImageTable(statuses, Capitalize)
  }

  /** `labels[status] || status`: a listed status capitalised, any other text verbatim. */
  function StatusLabel(statuses: seq<string>, status: string): (shown: string)
    ensures status in statuses ==> shown == Capitalize(status)
    ensures status !in statuses ==> shown == status
  {
    ValueOrImage(statuses, Capitalize, status, status);
    ValueOr(LabelTable(statuses), status, status)
  }

  /** `formatLeaseStatus`. */
  function FormatLeaseStatus(status: string): (shown: string)
    ensures status in LeaseStatuses ==> shown == Capitalize(status)
    ensures status !in LeaseStatuses ==> shown == status
  {
    StatusLabel(LeaseStatuses, status)
  }

  /** `formatPaymentStatus`. */
  function FormatPaymentStatus(status: string): (shown: string)
    ensures status in PaymentStatuses ==> shown == Capitalize(status)
    ensures status !in PaymentStatuses ==> shown == status
  {
    StatusLabel(PaymentStatuses, status)
  }

  /** `formatDocumentStatus`. */
  function FormatDocumentStatus(status: string): (shown: string)
    ensures status in DocumentStatuses ==> shown == Capitalize(status)
    ensures status !in DocumentStatuses ==> shown == status
  {
    StatusLabel(DocumentStatuses, status)
  }

  /** `formatProposalStatus`. */
  function FormatProposalStatus(status: string): (shown: string)
    ensures status in ProposalStatuses ==> shown == Capitalize(status)
    ensures status !in ProposalStatuses ==> shown == status
  {
    StatusLabel(ProposalStatuses, status)
  }

  /** `formatBookingStatus`. */
  function FormatBookingStatus(status: string): (shown: string)
    ensures status in BookingStatuses ==> shown == Capitalize(status)
    ensures status !in BookingStatuses ==> shown == status
  {
    StatusLabel(BookingStatuses, status)
  }

  /** Formatting a label a second time changes nothing: a capitalised status is not itself
      a status, since every status is lower-case. */
  lemma StatusLabelIdempotent(statuses: seq<string>, status: string)
    requires forall i :: 0 <= i < |statuses| ==> |statuses[i]| > 0 && IsAsciiLower(statuses[i][0])
    ensures StatusLabel(statuses, StatusLabel(statuses, status)) == StatusLabel(statuses, status)
  {
    if status in statuses {
      assert !IsAsciiLower(Capitalize(status)[0]);
    }
  }

  /** Two labels seen on screen. */
  lemma StatusLabelExamples()
    ensures FormatLeaseStatus("active") == "Active"
    ensures FormatProposalStatus("countered") == "Countered"
    ensures FormatLeaseStatus("on-hold") == "on-hold"
  {
    assert LeaseStatuses[0] == "active";
    CapitalizeIs("active", "Active");
    CounteredIsProposalStatus();
    CapitalizeIs("countered", "Countered");
    forall i | 0 <= i < |LeaseStatuses| ensures LeaseStatuses[i] != "on-hold" {
      assert LeaseStatuses[i][0] != 'o';
    }
  }

  lemma CounteredIsProposalStatus()
    ensures "countered" in ProposalStatuses
  {
    assert ProposalStatuses[4] == "countered";
  }

  // ---------------------------------------------------------------------------
  // Identifiers
  // ---------------------------------------------------------------------------

  const DefaultIdLength := 12
  const Ellipsis := "..."

  /** `truncateId`: short identifiers unchanged, longer ones cut to `maxLength`
      characters and marked with "...". A negative length keeps nothing, as
      `substring` clamps it to zero. */
  function TruncateId(id: string, maxLength: int): (r: string)
    ensures |id| <= maxLength ==> r == id
    ensures |id| > maxLength ==>
      var keep := if maxLength < 0 then 0 else maxLength;
      |r| == keep + 3 && r[..keep] == id[..keep] && r[keep..] == Ellipsis
  {
    if |id| <= maxLength then id
    else
      var keep := if maxLength < 0 then 0 else maxLength;
      id[..keep] + Ellipsis
  }

  /** `truncateId(id)` with the default length: identifiers of up to twelve characters
      unchanged, longer ones cut to their first twelve and marked with "...". */
  function TruncateIdDefault(id: string): (r: string)
    ensures |id| <= 12 ==> r == id
    ensures |id| > 12 ==> |r| == 15 && r[..12] == id[..12] && r[12..] == Ellipsis
  {
    TruncateId(id, DefaultIdLength)
  }

  /** Truncating a truncated identifier again with the same length changes nothing. */
  lemma TruncateIdIdempotent(id: string, maxLength: int)
    ensures TruncateId(TruncateId(id, maxLength), maxLength) == TruncateId(id, maxLength)
  {
    var r := TruncateId(id, maxLength);
    if |id| > maxLength {
      var keep := if maxLength < 0 then 0 else maxLength;
      assert r[..keep] + Ellipsis == r;
    }
  }

  // ---------------------------------------------------------------------------
  // E-mail masking
  // ---------------------------------------------------------------------------

  /** `s[0]` interpolated into a template: the first character, or the text
      "undefined" when `s` is empty. */
  function FirstCharText(s: string): string {
    if |s| == 0 then "undefined" else [s[0]]
  }

  /** The masked local part: first character, "***", and the last character when the
      local part is longer than two characters. */
  function MaskLocal(local: string): (r: string)
    ensures |local| > 2 ==> |r| == 5 && r[0] == local[0] && r[1..4] == "***" && r[4] == local[|local| - 1]
    ensures 1 <= |local| <= 2 ==> r == [local[0]] + "***"
    ensures |local| == 0 ==> r == "undefined***"
  {
    if |local| > 2 then [local[0]] + "***" + [local[|local| - 1]]
    else FirstCharText(local) + "***"
  }

  /** The text before the first '@'. */
  function LocalPart(email: string): string {
    email[..IndexOf(email, '@')]
  }

  /** The text between the first '@' and the next '@' (or the end); empty without '@'. */
  function DomainPart(email: string): string {
    if '@' !in email then ""
    else
      var rest := email[IndexOf(email, '@') + 1..];
      rest[..IndexOf(rest, '@')]
  }

  /** `maskEmail`, written over `split('@')`: the local part is the first piece and the
      domain the second; a missing or empty domain leaves the address as it is. Anything
      after a second '@' is dropped. */
  function MaskEmail(email: string): (r: string)
    ensures '@' !in email ==> r == email
    ensures '@' in email && DomainPart(email) == "" ==> r == email
    ensures '@' in email && DomainPart(email) != "" ==>
      r == MaskLocal(LocalPart(email)) + "@" + DomainPart(email)
  {
    var parts := Split(email, '@');
    EmailPieces(email);
    if |parts| < 2 || parts[1] == "" then email
    else MaskLocal(parts[0]) + "@" + parts[1]
  }

  /** The pieces of `split('@')` located by position: the local part ends at the first
      '@', and the domain runs from there to the next '@' or the end. */
  lemma EmailPieces(email: string)
    ensures Split(email, '@')[0] == email[..IndexOf(email, '@')]
    ensures '@' !in email <==> |Split(email, '@')| == 1
    ensures '@' in email ==>
      var rest := email[IndexOf(email, '@') + 1..];
      Split(email, '@')[1] == rest[..IndexOf(rest, '@')]
  {
    SplitHeadTail(email, '@');
    if '@' in email {
      var rest := email[IndexOf(email, '@') + 1..];
      SplitHeadTail(rest, '@');
    }
  }

  /** An address with exactly one '@' and a non-empty domain masks its local part and
      keeps the domain. */
  lemma MaskSimpleEmail(local: string, domain: string)
    requires '@' !in local && '@' !in domain && domain != ""
    ensures LocalPart(local + "@" + domain) == local
    ensures DomainPart(local + "@" + domain) == domain
    ensures MaskEmail(local + "@" + domain) == MaskLocal(local) + "@" + domain
  {
    var e := local + "@" + domain;
    assert e[|local|] == '@';
    assert e[..|local|] == local;
    assert IndexOf(e, '@') == |local|;
    assert e[|local| + 1..] == domain;
    assert IndexOf(domain, '@') == |domain|;
    assert domain[..|domain|] == domain;
  }

  /** A masked address has exactly one '@', and what follows it is the domain. */
  lemma MaskedEmailHasOneAt(email: string)
    requires '@' in email && DomainPart(email) != ""
    ensures '@' in MaskEmail(email)
    ensures DomainPart(MaskEmail(email)) == DomainPart(email)
    ensures var r := MaskEmail(email); '@' !in r[IndexOf(r, '@') + 1..]
  {
    var local := MaskLocal(LocalPart(email));
    var domain := DomainPart(email);
    MaskLocalAvoidsAt(LocalPart(email));
    assert '@' !in domain;
    MaskSimpleEmail(local, domain);
    AfterFirstAt(local, domain);
  }

  /** Masking a local part without '@' introduces none. */
  lemma MaskLocalAvoidsAt(local: string)
    requires '@' !in local
    ensures '@' !in MaskLocal(local)
  {
    if |local| > 2 {
      assert MaskLocal(local) == [local[0]] + "***" + [local[|local| - 1]];
    }
  }

  /** In `local@domain` with no '@' in `local`, the text after the first '@' is `domain`. */
  lemma AfterFirstAt(local: string, domain: string)
    requires '@' !in local
    ensures var r := local + "@" + domain; '@' in r && r[IndexOf(r, '@') + 1..] == domain
  {
    var r := local + "@" + domain;
    assert r[|local|] == '@';
    assert r[..|local|] == local;
    assert IndexOf(r, '@') == |local|;
    assert r[|local| + 1..] == domain;
  }

  /** Masking an address whose local part is longer than two characters a second time
      changes nothing: the masked local part "x***y" is itself longer than two. */
  lemma MaskEmailIdempotentForLongLocal(email: string)
    requires |LocalPart(email)| > 2
    ensures MaskEmail(MaskEmail(email)) == MaskEmail(email)
  {
    if '@' in email && DomainPart(email) != "" {
      var local := MaskLocal(LocalPart(email));
      MaskSimpleEmail(local, DomainPart(email));
      assert MaskLocal(local) == local;
    }
  }

  /** A local part of one or two characters is not stable under masking: "ab@x.com"
      masks to "a***@x.com", and that masks again to "a****@x.com". */
  lemma MaskEmailShortLocalGrows(email: string)
    requires '@' in email && 1 <= |LocalPart(email)| <= 2 && DomainPart(email) != ""
    ensures MaskEmail(email) == [email[0]] + "***" + "@" + DomainPart(email)
    ensures MaskEmail(MaskEmail(email)) == [email[0]] + "****" + "@" + DomainPart(email)
  {
    var c := email[0];
    var domain := DomainPart(email);
    var local := [c] + "***";
    assert LocalPart(email)[0] == c;
    assert c != '@' by {
      assert c in LocalPart(email);
    }
    assert MaskEmail(email) == local + "@" + domain;
    MaskSimpleEmail(local, domain);
    MaskShortMasked(c);
  }

  /** A masked short local part, masked again, gains one more '*'. */
  lemma MaskShortMasked(c: char)
    ensures MaskLocal([c] + "***") == [c] + "****"
  {
  }

  // ---------------------------------------------------------------------------
  // Counts and addresses
  // ---------------------------------------------------------------------------

  /** The noun `formatCount` attaches: the singular for exactly one, otherwise the plural
      form when one is given (and non-empty), else the singular with an "s". */
  function CountNoun(count: int, singular: string, plural: Option<string>): (noun: string)
    ensures count == 1 ==> noun == singular
    ensures count != 1 && plural.Some? && plural.value != "" ==> noun == plural.value
    ensures count != 1 && (plural.None? || plural.value == "") ==> noun == singular + "s"
  {
    var pluralForm := if plural.Some? && plural.value != "" then plural.value else singular + "s";
    if count == 1 then singular else pluralForm
  }

  /** `formatCount`: the count, one space, the noun. The first space-separated field is
      the count's decimal text and everything after the first space is the noun. */
  function FormatCount(count: int, singular: string, plural: Option<string>): (r: string)
    ensures Split(r, ' ')[0] == IntToString(count)
    ensures |r| > |IntToString(count)| && r[|IntToString(count)| + 1..] == CountNoun(count, singular, plural)
    ensures ' ' !in CountNoun(count, singular, plural) ==>
      Split(r, ' ') == [IntToString(count), CountNoun(count, singular, plural)]
  {
    var n := IntToString(count);
    var noun := CountNoun(count, singular, plural);
    CountFields(n, noun);
    n + " " + noun
  }

  /** A number text and a noun joined by one space split back into the two at the first
      space. */
  lemma CountFields(n: string, noun: string)
    requires ' ' !in n
    ensures Split(n + " " + noun, ' ')[0] == n
    ensures ' ' !in noun ==> Split(n + " " + noun, ' ') == [n, noun]
  {
    SplitAtFirst(n, ' ', noun);
    assert n + " " + noun == n + [' '] + noun;
    if ' ' !in noun {
      SplitNoSeparator(noun, ' ');
    }
  }

  predicate NonEmpty(s: string) { s != "" }

  /** `formatAddress`: the non-empty ones among address, city, state and (when given)
      zip code, in that order, joined by ", ". */
  function FormatAddress(address: string, city: string, state: string, zipCode: Option<string>): (r: string)
    ensures r == Join(AddressParts(address, city, state, zipCode), ", ")
    ensures r == "" <==> address == "" && city == "" && state == "" && zipCode.GetOr("") == ""
  {
    SourcePartsKept(address, city, state, zipCode);
    AddressEmptyIff(address, city, state, zipCode);
    Join(Filter(SourceParts(address, city, state, zipCode), NonEmpty), ", ")
  }

  /** The `parts` list before filtering: the zip code is pushed only when it is non-empty. */
  function SourceParts(address: string, city: string, state: string, zipCode: Option<string>): seq<string> {
    [address, city, state] + (if zipCode.Some? && zipCode.value != "" then [zipCode.value] else [])
  }

  lemma SourcePartsKept(address: string, city: string, state: string, zipCode: Option<string>)
    ensures Filter(SourceParts(address, city, state, zipCode), NonEmpty) == AddressParts(address, city, state, zipCode)
  {
    if !(zipCode.Some? && zipCode.value != "") {
      assert SourceParts(address, city, state, zipCode) == [address, city, state];
      FilterAppend([address, city, state], zipCode.GetOr(""), NonEmpty);
      assert [address, city, state] + [zipCode.GetOr("")] == [address, city, state, zipCode.GetOr("")];
    } else {
      assert SourceParts(address, city, state, zipCode) == [address, city, state, zipCode.GetOr("")];
    }
  }

  lemma AddressEmptyIff(address: string, city: string, state: string, zipCode: Option<string>)
    ensures Join(AddressParts(address, city, state, zipCode), ", ") == "" <==>
      address == "" && city == "" && state == "" && zipCode.GetOr("") == ""
  {
    var fields := [address, city, state, zipCode.GetOr("")];
    JoinEmptyIff(AddressParts(address, city, state, zipCode), ", ");
    NoneKeptIffAllEmpty(fields);
    assert fields[0] == address && fields[1] == city && fields[2] == state && fields[3] == zipCode.GetOr("");
  }

  /** The four address fields, an absent zip code counting as empty, with the empty ones
      left out and the order kept. */
  function AddressParts(address: string, city: string, state: string, zipCode: Option<string>): (r: seq<string>)
    ensures IsSubsequence(r, [address, city, state, zipCode.GetOr("")])
    ensures forall i :: 0 <= i < |r| ==> r[i] != ""
    ensures forall x :: x != "" ==> multiset(r)[x] == multiset([address, city, state, zipCode.GetOr("")])[x]
  {
    FilterCounts([address, city, state, zipCode.GetOr("")], NonEmpty);
    Filter([address, city, state, zipCode.GetOr("")], NonEmpty)
  }

  /** When no field holds a comma, splitting the formatted address at its commas gives the
      non-empty fields back in order, each after the first behind the one space the
      separator adds. */
  lemma FormatAddressSplits(address: string, city: string, state: string, zipCode: Option<string>)
    requires ',' !in address && ',' !in city && ',' !in state && ',' !in zipCode.GetOr("")
    ensures var kept := AddressParts(address, city, state, zipCode);
      |kept| > 0 ==> Split(FormatAddress(address, city, state, zipCode), ',') == [kept[0]] + Prefixed(" ", kept[1..])
  {
    var kept := AddressParts(address, city, state, zipCode);
    if |kept| > 0 {
      var fields := [address, city, state, zipCode.GetOr("")];
      assert forall i :: 0 <= i < |kept| ==> ',' !in kept[i] by {
        forall i | 0 <= i < |kept| ensures ',' !in kept[i] {
          assert kept[i] in fields;
        }
      }
      JoinPadded(kept, ',', " ");
      assert [','] + " " == ", ";
      var spaced := [kept[0]] + Prefixed(" ", kept[1..]);
      assert forall i :: 0 <= i < |spaced| ==> ',' !in spaced[i] by {
        forall i | 0 <= i < |spaced| ensures ',' !in spaced[i] {
          if i > 0 { assert spaced[i] == " " + kept[i]; }
        }
      }
      SplitJoin(spaced, ',');
    }
  }

  lemma NoneKeptIffAllEmpty(parts: seq<string>)
    ensures Filter(parts, NonEmpty) == [] <==> forall i :: 0 <= i < |parts| ==> parts[i] == ""
  {
    var kept := Filter(parts, NonEmpty);
    if kept == [] {
      forall i | 0 <= i < |parts|
      ensures parts[i] == ""
    {
        assert parts[i] in parts;
      }
    } else {
      assert kept[0] in parts;
    }
  }

  /** A join of non-empty parts is empty exactly when there are no parts. */
  lemma JoinEmptyIff(parts: seq<string>, sep: string)
    requires forall i :: 0 <= i < |parts| ==> parts[i] != ""
    ensures Join(parts, sep) == "" <==> |parts| == 0
  {
    if |parts| >= 2 {
      assert |Join(parts, sep)| >= |parts[0]|;
    }
  }

  /** With every field present the address reads "address, city, state, zip". */
  lemma FormatAddressComplete(address: string, city: string, state: string, zip: string)
    requires address != "" && city != "" && state != "" && zip != ""
    ensures FormatAddress(address, city, state, Some(zip)) == address + ", " + city + ", " + state + ", " + zip
  {
    var parts := [address, city, state, zip];
    assert [address, city, state] + [zip] == parts;
    FilterKeepsAll(parts, NonEmpty);
    var kept := Filter(parts, NonEmpty);
    assert kept == parts;
    JoinFour(address, city, state, zip, ", ");
    calc {
      FormatAddress(address, city, state, Some(zip));
      Join(kept, ", ");
      Join(parts, ", ");
    }
  }

  lemma JoinFour(a: string, b: string, c: string, d: string, sep: string)
    ensures Join([a, b, c, d], sep) == a + sep + b + sep + c + sep + d
  {
    assert [a, b, c, d][1..] == [b, c, d];
    assert [b, c, d][1..] == [c, d];
    assert [c, d][1..] == [d];
    assert Join([c, d], sep) == c + sep + d;
    assert Join([b, c, d], sep) == b + sep + (c + sep + d);
    assert a + sep + (b + sep + (c + sep + d)) == a + sep + b + sep + c + sep + d;
  }

  /** An absent zip code and an empty one format alike. */
  lemma FormatAddressEmptyZip(address: string, city: string, state: string)
    ensures FormatAddress(address, city, state, None) == FormatAddress(address, city, state, Some(""))
  {
  }

  // ---------------------------------------------------------------------------
  // Payment progress
  // ---------------------------------------------------------------------------

  function Min(a: int, b: int): int { if a <= b then a else b }

  /** `Math.round(x)`: the nearest integer, a half rounding up. */
  function Round(x: real): (n: int)
    ensures x - 0.5 < n as real <= x + 0.5
  {
    (x + 0.5).Floor
  }

  /** `calculatePaymentProgress`: the paid share of the total as a rounded percentage,
      capped at 100 (there is no lower cap), and 0 for a zero total. For any other
      total it equals an integer-only formula; a negative total reads as both amounts
      negated. */
  function CalculatePaymentProgress(paidAmount: int, totalAmount: int): (r: int)
    ensures totalAmount == 0 ==> r == 0
    ensures r <= 100
    ensures totalAmount > 0 ==> r == Min(100, (200 * paidAmount + totalAmount) / (2 * totalAmount))
    ensures totalAmount < 0 ==> r == Min(100, (-200 * paidAmount - totalAmount) / (-2 * totalAmount))
  {
    if totalAmount == 0 then 0
    else
      var pct := Round((paidAmount as real / totalAmount as real) * 100.0);
      RoundedPercentage(paidAmount, totalAmount);
      Min(100, pct)
  }

  /** For a positive total, rounding the real percentage equals integer division; a
      negative total gives the same share as both amounts negated. */
  lemma RoundedPercentage(paid: int, total: int)
    requires total != 0
    ensures total > 0 ==> Round((paid as real / total as real) * 100.0) == (200 * paid + total) / (2 * total)
    ensures total < 0 ==> Round((paid as real / total as real) * 100.0) == (-200 * paid - total) / (-2 * total)
  {
    if total > 0 {
      RoundedPositive(paid, total);
    } else {
      NegatedShare(paid, total);
      RoundedPositive(-paid, -total);
    }
  }

  lemma NegatedShare(paid: int, total: int)
    requires total != 0
    ensures paid as real / total as real == (-paid) as real / (-total) as real
  {
  }

  lemma RoundedPositive(paid: int, total: int)
    requires total > 0
    ensures Round((paid as real / total as real) * 100.0) == (200 * paid + total) / (2 * total)
  {
    var num := 200 * paid + total;
    var den := 2 * total;
    var q := num / den;
    var x := (paid as real / total as real) * 100.0 + 0.5;
    assert x == num as real / den as real;
    assert num == q * den + num % den;
    assert q as real <= x < (q + 1) as real by {
      assert x * den as real == num as real;
      assert (q as real) * (den as real) <= num as real;
      assert num as real < ((q + 1) as real) * (den as real);
    }
  }

  /** For a positive total and a non-negative paid amount the progress is a percentage. */
  lemma PaymentProgressBounds(paid: int, total: int)
    requires total > 0 && paid >= 0
    ensures 0 <= CalculatePaymentProgress(paid, total) <= 100
    ensures paid >= total ==> CalculatePaymentProgress(paid, total) == 100
  {
    var num := 200 * paid + total;
    var den := 2 * total;
    assert num >= 0;
    if paid >= total {
      assert num >= 200 * den / 2;
      DivLowerBound(num, den, 100);
    }
  }

  lemma DivLowerBound(num: int, den: int, k: int)
    requires den > 0 && num >= k * den
    ensures num / den >= k
  {
    var q := num / den;
    assert num == q * den + num % den;
    if q < k {
      MulMonotonic(q, k - 1, den);
    }
  }

  lemma MulMonotonic(a: int, b: int, c: int)
    requires a <= b && c >= 0
    ensures a * c <= b * c
  {
  }

  /** Paying more never lowers the progress. */
  lemma PaymentProgressMonotonic(paid1: int, paid2: int, total: int)
    requires total > 0 && paid1 <= paid2
    ensures CalculatePaymentProgress(paid1, total) <= CalculatePaymentProgress(paid2, total)
  {
    var den := 2 * total;
    var a := 200 * paid1 + total;
    var b := 200 * paid2 + total;
    DivMonotonic(a, b, den);
  }

  lemma DivMonotonic(a: int, b: int, den: int)
    requires den > 0 && a <= b
    ensures a / den <= b / den
  {
    var qa := a / den;
    var qb := b / den;
    assert a == qa * den + a % den;
    assert b == qb * den + b % den;
    if qa > qb {
      MulMonotonic(qb + 1, qa, den);
    }
  }

  /** The examples the progress bar relies on, including the absent lower cap. */
  lemma PaymentProgressExamples()
    ensures CalculatePaymentProgress(0, 0) == 0
    ensures CalculatePaymentProgress(50, 100) == 50
    ensures CalculatePaymentProgress(150, 100) == 100
    ensures CalculatePaymentProgress(-50, 100) == -50
    ensures CalculatePaymentProgress(1, 3) == 33
    ensures CalculatePaymentProgress(1, 200) == 1
  {
  }
}
