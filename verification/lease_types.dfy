/** The record shapes of the lease dashboard: bookings, leases, listings, photos,
    proposals and stays. Statuses stay plain strings so that unknown values, which the
    display code must tolerate, can be written down. Amounts are whole numbers of the
    smallest currency unit. */
module LeaseTypes {
  import opened Options

  type Month = m: int | 1 <= m <= 12 witness 1
  type DayOfMonth = d: int | 1 <= d <= 31 witness 1

  /** A calendar day as date-fns sees it once a value has been parsed and validated. */
  datatype CalendarDate = CalendarDate(year: nat, month: Month, day: DayOfMonth)

  /** The `Date | string | undefined` the date formatters accept: nothing, an ISO text
      still to be parsed, or a `Date` object, which may hold an invalid time. */
  datatype DateInput =
    | Absent
    | Text(raw: string)
    | Instant(valid: Option<CalendarDate>)

  datatype Photo = Photo(
    id: string,
    url: string,
    thumbnailUrl: Option<string>,
    caption: Option<string>,
    isPublished: bool,
    order: int,
    createdAt: DateInput)

  datatype Feature = Feature(id: string, name: string, category: string, icon: Option<string>)

  datatype Amenity = Amenity(id: string, name: string, category: string, icon: Option<string>)

  datatype ListingPricing = ListingPricing(
    baseNightlyRate: int,
    weeklyDiscount: Option<int>,
    monthlyDiscount: Option<int>,
    cleaningFee: Option<int>,
    serviceFee: Option<int>,
    currency: string)

  datatype Listing = Listing(
    id: string,
    uniqueId: string,
    name: string,
    address: string,
    city: string,
    state: string,
    zipCode: string,
    description: Option<string>,
    photos: seq<Photo>,
    features: seq<Feature>,
    amenities: seq<Amenity>,
    pricing: ListingPricing,
    isActive: bool,
    createdAt: DateInput,
    updatedAt: DateInput)

  datatype WeekSchedule = WeekSchedule(dayOfWeek: int, isAvailable: bool)

  datatype ProposalDraft = ProposalDraft(
    id: string,
    version: int,
    changes: string,
    createdAt: DateInput,
    createdBy: string)

  datatype Proposal = Proposal(
    id: string,
    uniqueId: string,
    status: string,
    hcWeeksSchedule: string,
    weekSchedules: seq<WeekSchedule>,
    draftsList: seq<ProposalDraft>,
    totalPrice: Option<int>,
    createdAt: DateInput,
    updatedAt: DateInput,
    expiresAt: Option<DateInput>)

  datatype Stay = Stay(
    id: string,
    uniqueId: string,
    checkInDate: DateInput,
    checkOutDate: DateInput,
    guestCount: int,
    status: string,
    totalAmount: int,
    createdAt: DateInput)

  datatype Lease = Lease(
    id: string,
    uniqueId: string,
    agreementNumber: string,
    status: string,
    startDate: DateInput,
    endDate: DateInput,
    listing: Listing,
    proposal: Option<Proposal>,
    stays: seq<Stay>,
    guestEmail: string,
    hostEmail: string,
    totalAmount: int,
    paidAmount: int,
    paymentStatus: string,
    documentStatus: string,
    isUsability: bool,
    createdAt: DateInput,
    updatedAt: DateInput)

  datatype Booking = Booking(
    id: string,
    uniqueId: string,
    lease: Lease,
    status: string,
    createdAt: DateInput,
    updatedAt: DateInput)

  /** The structured error the store records. */
  datatype ApiError = ApiError(code: string, message: string, details: Option<map<string, string>>)

  /** One entry of the lease selector. */
  datatype LeaseOption = LeaseOption(
    id: string,
    uniqueId: string,
    agreementNumber: string,
    listingName: string,
    displayLabel: string)
}
