/** The values a lease card derives from its booking before rendering: the photo, the
    status badge classes, the shortened lease id, the count labels, and what its
    buttons report. */
module LeaseCard {
  import opened Options
  import opened Text
  import opened LeaseTypes
  import opened Formatters
  import opened Records

  const PlaceholderPhoto := "/placeholder-listing.jpg"
  const DisplayedIdLength := 18

  /** A JavaScript truthy optional string: present and non-empty. */
  predicate Truthy(s: Option<string>) {
    s.Some? && s.value != ""
  }

  /** `photos.find(p => p.isPublished)`, as the index of the first published photo. */
  function FirstPublished(photos: seq<Photo>): (r: Option<nat>)
    ensures r.Some? ==> r.value < |photos| && photos[r.value].isPublished
    ensures r.Some? ==> forall j :: 0 <= j < r.value ==> !photos[j].isPublished
    ensures r.None? ==> forall j :: 0 <= j < |photos| ==> !photos[j].isPublished
    decreases |photos|
  {
    if |photos| == 0 then None
    else if photos[0].isPublished then Some(0)
    else
      match FirstPublished(photos[1..])
      case None => None
      case Some(i) => Some(i + 1)
  }

  /** Photo `i` is published and no photo before it is. */
  predicate FirstPublishedAt(photos: seq<Photo>, i: int) {
    0 <= i < |photos| && photos[i].isPublished && forall j :: 0 <= j < i ==> !photos[j].isPublished
  }

  /** Some photo is the first published one and has a thumbnail. */
  ghost predicate PublishedThumbnail(photos: seq<Photo>) {
    exists i :: FirstPublishedAt(photos, i) && Truthy(photos[i].thumbnailUrl)
  }

  /** `listingPhoto`: the first published photo's thumbnail if it has one, else the first
      photo's thumbnail if it has one, else the placeholder. A first published photo
      without a thumbnail does not make the search move on to later published photos. */
  function ListingPhoto(photos: seq<Photo>): (url: string)
    ensures forall i :: FirstPublishedAt(photos, i) && Truthy(photos[i].thumbnailUrl) ==>
      url == photos[i].thumbnailUrl.value
    ensures !PublishedThumbnail(photos) && |photos| > 0 && Truthy(photos[0].thumbnailUrl) ==>
      url == photos[0].thumbnailUrl.value
    ensures !PublishedThumbnail(photos) && !(|photos| > 0 && Truthy(photos[0].thumbnailUrl)) ==>
      url == PlaceholderPhoto
  {
    var published := FirstPublished(photos);
    if published.Some? && Truthy(photos[published.value].thumbnailUrl) then
      photos[published.value].thumbnailUrl.value
    else if |photos| > 0 && Truthy(photos[0].thumbnailUrl) then
      photos[0].thumbnailUrl.value
    else
      PlaceholderPhoto
  }

  /** The picture shown is never empty: it is some photo's thumbnail or the placeholder. */
  lemma ListingPhotoIsThumbnailOrPlaceholder(photos: seq<Photo>)
    ensures ListingPhoto(photos) != ""
    ensures ListingPhoto(photos) == PlaceholderPhoto ||
      exists i :: 0 <= i < |photos| && photos[i].thumbnailUrl == Some(ListingPhoto(photos))
  {
    var p := FirstPublished(photos);
    if p.Some? && Truthy(photos[p.value].thumbnailUrl) {
      assert photos[p.value].thumbnailUrl == Some(ListingPhoto(photos));
    } else if |photos| > 0 && Truthy(photos[0].thumbnailUrl) {
      assert photos[0].thumbnailUrl == Some(ListingPhoto(photos));
    }
  }

  function SamplePhoto(id: string, thumbnail: Option<string>, published: bool): Photo {
    Photo(id, "/full/" + id, thumbnail, None, published, 0, Absent)
  }

  /** When the first published photo has no thumbnail, a later published photo with one is
      passed over in favour of the first photo in the list. */
  lemma PublishedWithoutThumbnailFallsBackToFirstPhoto()
    ensures ListingPhoto([
      SamplePhoto("a", Some("/a.jpg"), false),
      SamplePhoto("b", None, true),
      SamplePhoto("c", Some("/c.jpg"), true)]) == "/a.jpg"
  {
    var photos := [
      SamplePhoto("a", Some("/a.jpg"), false),
      SamplePhoto("b", None, true),
      SamplePhoto("c", Some("/c.jpg"), true)];
    assert photos[1..][0].isPublished;
    assert FirstPublished(photos[1..]) == Some(0);
    assert FirstPublished(photos) == Some(1);
  }

  // ---------------------------------------------------------------------------
  // Badge classes
  // ---------------------------------------------------------------------------

  /** The three class tables store, for each listed status, the status behind a fixed
      prefix ("active" to "status-active", "overdue" to "payment-overdue"). */
  function ClassFor(prefix: string): string -> string {
    (k: string) => prefix + k
  }

  function ClassTable(prefix: string, statuses: seq<string>): Table {
    ImageTable(statuses, ClassFor(prefix))
  }

  /** `classes[status] || prefix + "default"` over such a table. */
  function StatusClass(prefix: string, statuses: seq<string>, status: string): (cls: string)
    requires prefix != ""
    ensures status in statuses ==> cls == prefix + status
    ensures status !in statuses ==> cls == prefix + DefaultSuffix
  {
    ValueOrImage(statuses, ClassFor(prefix), status, prefix + DefaultSuffix);
    ValueOr(ClassTable(prefix, statuses), status, prefix + DefaultSuffix)
  }

  const DefaultSuffix := "default"
  const LeaseClassPrefix := "status-"
  const PaymentClassPrefix := "payment-"
  const DocumentClassPrefix := "doc-"

  /** `getStatusClass`: "status-" and the status for the six lease statuses,
      "status-default" for anything else. */
  function GetStatusClass(status: string): (cls: string)
    ensures status in LeaseStatuses ==> cls == LeaseClassPrefix + status
    ensures status !in LeaseStatuses ==> cls == LeaseClassPrefix + DefaultSuffix
  {
    StatusClass(LeaseClassPrefix, LeaseStatuses, status)
  }

  /** `getPaymentStatusClass`: "payment-" and the status for the five payment statuses,
      "payment-default" for anything else. */
  function GetPaymentStatusClass(status: string): (cls: string)
    ensures status in PaymentStatuses ==> cls == PaymentClassPrefix + status
    ensures status !in PaymentStatuses ==> cls == PaymentClassPrefix + DefaultSuffix
  {
    StatusClass(PaymentClassPrefix, PaymentStatuses, status)
  }

  /** `getDocumentStatusClass`: "doc-" and the status for the four document statuses,
      "doc-default" for anything else. */
  function GetDocumentStatusClass(status: string): (cls: string)
    ensures status in DocumentStatuses ==> cls == DocumentClassPrefix + status
    ensures status !in DocumentStatuses ==> cls == DocumentClassPrefix + DefaultSuffix
  {
    StatusClass(DocumentClassPrefix, DocumentStatuses, status)
  }

  /** A lease badge gets its own colour exactly when its label is a recognised one. */
  lemma StatusClassAgreesWithLabel(status: string)
    ensures GetStatusClass(status) != LeaseClassPrefix + DefaultSuffix
            <==> FormatLeaseStatus(status) != status
  {
    if status in LeaseStatuses {
      LeaseStatusesLowerCase();
      CapitalizeChangesLower(status);
      if LeaseClassPrefix + status == LeaseClassPrefix + DefaultSuffix {
        PrefixCancels(LeaseClassPrefix, status, DefaultSuffix);
        DefaultNotLeaseStatus();
        assert false;
      }
    }
  }

  lemma LeaseStatusesLowerCase()
    ensures forall k :: k in LeaseStatuses ==> |k| > 0 && IsAsciiLower(k[0])
  {
  }

  lemma DefaultNotLeaseStatus()
    ensures DefaultSuffix !in LeaseStatuses
  {
  }

  lemma PrefixCancels(prefix: string, a: string, b: string)
    requires prefix + a == prefix + b
    ensures a == b
  {
    assert a == (prefix + a)[|prefix|..];
    assert b == (prefix + b)[|prefix|..];
  }

  /** The proposal badge reuses the lease table, so the three statuses only a proposal can
      have fall back to the default colour ... */
  lemma ProposalOnlyStatusesUseDefault()
    ensures GetStatusClass("accepted") == LeaseClassPrefix + DefaultSuffix
    ensures GetStatusClass("rejected") == LeaseClassPrefix + DefaultSuffix
  {
    forall i | 0 <= i < |LeaseStatuses|
      ensures LeaseStatuses[i] != "accepted" && LeaseStatuses[i] != "rejected"
    {
      assert |LeaseStatuses[i]| != 8;
    }
  }

  /** "countered" has a label of its own but no class of its own. */
  lemma CounteredUsesDefault()
    ensures FormatProposalStatus("countered") != "countered"
    ensures GetStatusClass("countered") == LeaseClassPrefix + DefaultSuffix
  {
    CounteredIsProposalStatus();
    CapitalizeChangesLower("countered");
    CounteredNotLeaseStatus();
  }

  lemma CounteredNotLeaseStatus()
    ensures "countered" !in LeaseStatuses
  {
    forall i | 0 <= i < |LeaseStatuses| ensures LeaseStatuses[i] != "countered" {
      if i == 2 {
        assert LeaseStatuses[2][2] != "countered"[2];
      } else {
        assert |LeaseStatuses[i]| != |"countered"|;
      }
    }
  }

  /** ... while the three it shares with a lease get their own. */
  lemma SharedStatusesGetOwnClass()
    ensures GetStatusClass("pending") == LeaseClassPrefix + "pending"
    ensures GetStatusClass("expired") == LeaseClassPrefix + "expired"
    ensures GetStatusClass("draft") == LeaseClassPrefix + "draft"
  {
    assert LeaseStatuses[1] == "pending";
    assert LeaseStatuses[4] == "expired";
    assert LeaseStatuses[5] == "draft";
  }

  // ---------------------------------------------------------------------------
  // Counts and identifiers
  // ---------------------------------------------------------------------------

  /** `formatCount(n, singular, plural).split(' ')[1]`: the word after the count. */
  function CountLabel(count: nat, singular: string, plural: string): (word: string)
    ensures ' ' !in CountNoun(count, singular, Some(plural)) ==> word == CountNoun(count, singular, Some(plural))
  {
    var n := IntToString(count);
    var noun := CountNoun(count, singular, Some(plural));
    SplitAtFirst(n, ' ', noun);
    assert FormatCount(count, singular, Some(plural)) == n + [' '] + noun;
    Split(FormatCount(count, singular, Some(plural)), ' ')[1]
  }

  /** For one-word nouns with a plural given, as the card's "Stay"/"Stays" and
      "Draft"/"Drafts" are, the label is the singular for exactly one and the plural for
      any other count. */
  lemma CountLabelOneWord(count: nat, singular: string, plural: string)
    requires ' ' !in singular && ' ' !in plural && plural != ""
    ensures CountLabel(count, singular, plural) == if count == 1 then singular else plural
  {
  }

  /** The lease id as shown: at most 18 characters of it, then "..." when cut. */
  function DisplayedLeaseId(lease: Lease): (shown: string)
    ensures |shown| <= DisplayedIdLength + 3
    ensures |lease.uniqueId| <= DisplayedIdLength ==> shown == lease.uniqueId
    ensures lease.uniqueId[..if |lease.uniqueId| <= DisplayedIdLength then |lease.uniqueId| else DisplayedIdLength] <= shown
    ensures |lease.uniqueId| > DisplayedIdLength ==> shown == lease.uniqueId[..DisplayedIdLength] + Ellipsis
  {
    TruncateId(lease.uniqueId, DisplayedIdLength)
  }

  // ---------------------------------------------------------------------------
  // The whole card
  // ---------------------------------------------------------------------------

  /** The proposal part of a card, shown only for leases with a proposal. */
  datatype ProposalView = ProposalView(
    statusClass: string,
    statusLabel: string,
    draftCount: nat,
    draftsLabel: string)

  datatype CardView = CardView(
    photo: string,
    title: string,
    statusClass: string,
    statusLabel: string,
    leaseId: string,
    agreementNumber: string,
    period: string,
    weeklyPattern: Option<string>,
    proposal: Option<ProposalView>,
    paymentClass: string,
    paymentLabel: string,
    paymentProgress: int,
    documentClass: string,
    documentLabel: string,
    stayCount: nat,
    staysLabel: string,
    usability: bool,
    deleteTarget: string,
    detailsTarget: string)

  lemma ProgressBarBounds(paid: int, total: int)
    ensures 0 <= paid && total > 0 ==> 0 <= CalculatePaymentProgress(paid, total) <= 100
  {
    if 0 <= paid && total > 0 {
      PaymentProgressBounds(paid, total);
    }
  }

  /** The proposal part of a card: its badge, and the number of drafts with its label. */
  function RenderProposal(p: Proposal): (v: ProposalView)
    ensures v.statusClass == GetStatusClass(p.status) && v.statusLabel == FormatProposalStatus(p.status)
    ensures v.draftCount == |p.draftsList|
    ensures v.draftsLabel == if |p.draftsList| == 1 then "Draft" else "Drafts"
  {
    CountLabelOneWord(|p.draftsList|, "Draft", "Drafts");
    ProposalView(GetStatusClass(p.status), FormatProposalStatus(p.status),
      |p.draftsList|, CountLabel(|p.draftsList|, "Draft", "Drafts"))
  }

  /** Everything a card shows and reports for one booking: each field comes from the
      lease through the formatter the card applies to it. The delete button reports the
      booking's id, the details button the lease's id. */
  function RenderCard(booking: Booking, parseIso: string -> Option<CalendarDate>): (v: CardView)
    ensures v.proposal.Some? <==> booking.lease.proposal.Some?
    ensures v.weeklyPattern.Some? <==>
      booking.lease.proposal.Some? && booking.lease.proposal.value.hcWeeksSchedule != ""
    ensures v.photo == ListingPhoto(booking.lease.listing.photos) && v.title == booking.lease.listing.name
    ensures v.statusClass == GetStatusClass(booking.lease.status)
    ensures v.statusLabel == FormatLeaseStatus(booking.lease.status)
    ensures v.leaseId == DisplayedLeaseId(booking.lease) && v.agreementNumber == booking.lease.agreementNumber
    ensures v.period == FormatDateRange(booking.lease.startDate, booking.lease.endDate, parseIso)
    ensures v.paymentClass == GetPaymentStatusClass(booking.lease.paymentStatus)
    ensures v.paymentLabel == FormatPaymentStatus(booking.lease.paymentStatus)
    ensures v.paymentProgress == CalculatePaymentProgress(booking.lease.paidAmount, booking.lease.totalAmount)
    ensures v.documentClass == GetDocumentStatusClass(booking.lease.documentStatus)
    ensures v.documentLabel == FormatDocumentStatus(booking.lease.documentStatus)
    ensures v.usability == booking.lease.isUsability
    ensures v.weeklyPattern.Some? ==> v.weeklyPattern.value == booking.lease.proposal.value.hcWeeksSchedule
    ensures v.proposal.Some? ==>
      && v.proposal.value.statusLabel == FormatProposalStatus(booking.lease.proposal.value.status)
      && v.proposal.value.draftCount == |booking.lease.proposal.value.draftsList|
    ensures v.proposal.Some? ==>
      v.proposal.value.statusClass == GetStatusClass(booking.lease.proposal.value.status) &&
      v.proposal.value.draftsLabel == (if v.proposal.value.draftCount == 1 then "Draft" else "Drafts")
    ensures v.staysLabel == (if v.stayCount == 1 then "Stay" else "Stays")
    ensures v.stayCount == |booking.lease.stays|
    ensures |v.leaseId| <= DisplayedIdLength + 3
    ensures 0 <= booking.lease.paidAmount && booking.lease.totalAmount > 0 ==> 0 <= v.paymentProgress <= 100
    ensures v.deleteTarget == booking.id && v.detailsTarget == booking.lease.id
  {
    var lease := booking.lease;
    ProgressBarBounds(lease.paidAmount, lease.totalAmount);
    CountLabelOneWord(|lease.stays|, "Stay", "Stays");
    CardView(
      ListingPhoto(lease.listing.photos),
      lease.listing.name,
      GetStatusClass(lease.status),
      FormatLeaseStatus(lease.status),
      DisplayedLeaseId(lease),
      lease.agreementNumber,
      FormatDateRange(lease.startDate, lease.endDate, parseIso),
      if lease.proposal.Some? && lease.proposal.value.hcWeeksSchedule != ""
        then Some(lease.proposal.value.hcWeeksSchedule) else None,
      match lease.proposal
        case None => None
        case Some(p) => Some(RenderProposal(p)),
      GetPaymentStatusClass(lease.paymentStatus),
      FormatPaymentStatus(lease.paymentStatus),
      CalculatePaymentProgress(lease.paidAmount, lease.totalAmount),
      GetDocumentStatusClass(lease.documentStatus),
      FormatDocumentStatus(lease.documentStatus),
      |lease.stays|,
      CountLabel(|lease.stays|, "Stay", "Stays"),
      lease.isUsability,
      booking.id,
      lease.id)
  }
}
