# Booking modal and trip card: a Dafny model

This project models the core of a bus-trip booking front end. It covers two
parts.

The booking modal (`BookModal`) covers:

- how it decides what a trip costs, from per-seat prices, the trip record and
  the free-text price label;
- how it charges the selected seats and the infants, and which total it
  displays;
- how it corrects the chosen trip type (one way or round trip) when only the
  other one has a price;
- how it normalises a freshly loaded seat map and keeps the seat selection
  consistent when a seat is clicked, the adult count changes or the seats are
  reloaded;
- how it rebuilds the passenger list when the adult and infant counts change;
- how it validates the booking form before payment;
- when it renders at all.

The trip card (`TripCard`) covers:

- how it lays out the trip's seat map as columns of seats grouped by row
  letters;
- when its "Book Now" button is enabled.

Every operation is a pure function over immutable data. React state and
effects become functions from the old state to the new one.

Modules:

- `Common`: `Option`, money as `real`, the `??` chain as "first defined entry
  of a list", trimming, lower-casing and digit strings.
- `Uuid`: the seat-id format check `isValidUUID`.
- `Seats`: seat records, the per-seat price choice `pickSeatPrice` and the
  normalisation of a loaded seat map.
- `LabelPrice`: the prices read out of the free-text label.
- `Pricing`: trip prices, the fallback seat price, seat and infant totals, the
  total-sync effect and the trip-type auto-switch. The price label enters it already read, as
  the pair `LabelPrice.LabelPrices` makes of the trip's price text.
- `Selection`: the selected-seat list and the three events that change it.
- `Passengers`: the passenger-sync effect.
- `Validation`: `validateBookingForm` and `isFormValid`.
- `TripCard`: seat-label parsing, row grouping, sorting, the seat-map grid, the
  book button and the modal's render gate.

Money is modelled as an unbounded `real`. A missing price (`undefined` in the
source) is `None` and never zero. Counts are `nat`.

Two details of the code differ from the obvious reading of its comments:

- Reloading the seats keeps every selected id that still names a seat, even a
  seat that is now unavailable. Only the id is checked (`SeatsReloaded`).
- Normalising a seat folds `effectivePrice` and `seatPrice` into its one-way
  price and drops them. So a normalised seat with no round-trip price resolves
  its round-trip price to the one-way price, where the raw seat would have
  used `effectivePrice` (`NormalizedRoundTripDiverges`).

## Model

| member | source | states |
|---|---|---|
| Common.Coalesce | src/components/BookModal.tsx:117-123 | A chain of `??` yields the first defined operand, or undefined when none is defined |
| Common.CoalesceChain4 | src/components/BookModal.tsx:117-123 | Coalescing four sources gives the same value as the `??` chain written out over them |
| Common.Utf16Length | src/components/BookModal.tsx:939 | JavaScript's `length` counts at least one and at most two code units per character |
| Common.Utf16LengthBmp | src/components/BookModal.tsx:939 | `length` equals the number of characters exactly when no character lies beyond the Basic Multilingual Plane |
| Common.FirstDefinedUnique | src/components/BookModal.tsx:117-123 | A `??` chain has exactly one outcome |
| Common.FirstDefinedIsListed | src/components/BookModal.tsx:240-247 | A defined `??` result is one of the operands |
| Common.TrimSpec | src/components/BookModal.tsx:939 | `trim()` leaves an empty string exactly when the input is all white space, and otherwise neither end is white space |
| Common.TrimStartSpec | src/components/BookModal.tsx:939 | Stripping leading white space gives a suffix of the input that starts with a non-space, preceded only by white space |
| Common.TrimEndSpec | src/components/BookModal.tsx:939 | Stripping trailing white space gives a prefix of the input that ends with a non-space, followed only by white space |
| Common.BlankIffAllSpace | src/components/BookModal.tsx:1089 | A field counts as blank (`trim().length === 0`) exactly when every character is white space |
| Common.ToLower | src/components/BookModal.tsx:540-543 | Lower-casing keeps the length and maps each character on its own, as the `i` flag compares |
| Uuid.IsValidUuid | src/components/BookModal.tsx:540-543 | An accepted id is 36 characters long, with dashes exactly at positions 8, 13, 18 and 23 and hex digits everywhere else |
| Uuid.ValidUuidIffGroups | src/components/BookModal.tsx:540-543 | An id is accepted exactly when it is 36 characters: 8-4-4-4-12 hex groups split by dashes, version digit 1-5, variant 8, 9, a or b |
| Uuid.ValidUuidIgnoresCase | src/components/BookModal.tsx:541 | The case-insensitive check accepts an id exactly when its lower-case form matches the lower-case pattern |
| Uuid.ValidUuidStableUnderLower | src/components/BookModal.tsx:541 | Lower-casing an accepted id keeps it accepted |
| Seats.PickSeatPrice | src/components/BookModal.tsx:102-127 | No seat has no price. Otherwise the price is the first defined of: the typed price, `effectivePrice`, `seatPrice`, then the other trip type's price |
| Seats.PickSeatPriceChain | src/components/BookModal.tsx:117-123 | For a present seat, the price is the `??` chain of the typed price, `effectivePrice`, `seatPrice` and the other type's price, as the source writes it |
| Seats.TypedPriceWins | src/components/BookModal.tsx:119-120 | A seat's own price for the trip type always wins |
| Seats.GenericBeforeCrossType | src/components/BookModal.tsx:119-123 | With no typed price, the generic prices are used before the other trip type's price |
| Seats.FindSeat | src/components/BookModal.tsx:310 | `seats.find` by id yields nothing exactly when no seat has the id, and otherwise the first seat with it |
| Seats.NormalizeSeat | src/components/BookModal.tsx:843-853 | A normalised seat keeps its id and label. It is unavailable exactly when the entry says `false`. Its one-way price is the first defined of the entry's one-way, effective and seat price, and its round-trip price is unchanged. The generic prices are dropped |
| Seats.NormalizeSeats | src/components/BookModal.tsx:841-862 | Normalisation keeps exactly the seats whose id is present and a UUID, in normalised form, and yields an empty map exactly when none qualifies |
| Seats.NormalizeSeatsIndexed | src/components/BookModal.tsx:841-854 | The accepted entries are listed at increasing positions and none is skipped. The normalised list has one seat per accepted entry, and its j-th seat is the normalisation of the j-th accepted entry, so order and repetitions are kept |
| Seats.NormalizeSeatsAtIndices | src/components/BookModal.tsx:841-854 | The j-th loaded seat is the normalisation of the entry at the j-th accepted position |
| Seats.IndicesAccepted | src/components/BookModal.tsx:854 | Every listed position holds an entry with a UUID-shaped id |
| Seats.IndicesIncreasing | src/components/BookModal.tsx:841-854 | The accepted positions are listed in seat-map order |
| Seats.IndicesComplete | src/components/BookModal.tsx:854 | Every entry with a UUID-shaped id has its position listed |
| Seats.NormalizeKeepsOneWayPrice | src/components/BookModal.tsx:847-850 | Normalising a seat does not change its resolved one-way price |
| Seats.NormalizedRoundTripOrder | src/components/BookModal.tsx:847-851 | After normalisation, the round-trip price resolves to the round-trip price, else the one-way, else `effectivePrice`, else `seatPrice` |
| Seats.NormalizedRoundTripDiverges | src/components/BookModal.tsx:847-851 | With no round-trip price but both a one-way and an effective price, normalisation changes the resolved round-trip price from the effective to the one-way price |
| LabelPrice.StripCommas | src/components/BookModal.tsx:194 | Removing commas keeps every other character with its count and leaves no comma |
| LabelPrice.StripCommasKeeps | src/components/BookModal.tsx:194 | A non-comma character occurs in the text exactly when it occurs after the commas are removed |
| LabelPrice.StripCommasDigitsAndBlanks | src/components/BookModal.tsx:190-194 | Removing commas neither adds nor removes digits, and keeps a blank label blank |
| LabelPrice.NumeralEnd | src/components/BookModal.tsx:207 | A number starting at a digit runs over digits and at most one dot that has a digit on each side, and stops before a character that is not a digit |
| LabelPrice.ReadNumeral | src/components/BookModal.tsx:207 | A number read at a digit is nonnegative and ends after that digit |
| LabelPrice.FractionValue | src/components/BookModal.tsx:52-58 | The digits after the decimal point add a value of at least zero and below one |
| LabelPrice.NumeralFrom | src/components/BookModal.tsx:207 | The next number is found exactly when a digit follows, and is the one read from the first such digit |
| LabelPrice.MarkerPrice | src/components/BookModal.tsx:196-204 | A marker price is only found when a digit follows, and is nonnegative |
| LabelPrice.MarkerPriceMisses | src/components/BookModal.tsx:196-204 | A marker search captures nothing exactly when no marker from the start position on has a digit somewhere after it |
| LabelPrice.MarkerPriceFirstHit | src/components/BookModal.tsx:196-204 | Otherwise it captures the number at the first digit after the leftmost marker that has a digit after it |
| LabelPrice.MarkerHitCaptures | src/components/BookModal.tsx:203-204 | A marker with a digit after it captures the number at the first digit after the marker |
| LabelPrice.MarkerSkipTo | src/components/BookModal.tsx:196-204 | The search passes over positions whose marker has no digit after it |
| LabelPrice.NumbersFrom | src/components/BookModal.tsx:207-210 | The numbers in the label are all nonnegative, and there are none exactly when the text has no digit |
| LabelPrice.Starts | src/components/BookModal.tsx:207 | The global scan starts each number at a digit at or after its start position |
| LabelPrice.StartsTile | src/components/BookModal.tsx:207 | The scan's numbers are in order and do not overlap, and every digit of the label lies inside one of them |
| LabelPrice.TiledNumbers | src/components/BookModal.tsx:207-210 | Any in-order, non-overlapping numbers that start at digits and cover every digit give exactly the values the global match returns, in order |
| LabelPrice.NumbersAreTiledNumerals | src/components/BookModal.tsx:207-210 | The label's numbers are the values of the numbers that tile it, in order |
| LabelPrice.TilingStartsAtFirstDigit | src/components/BookModal.tsx:207 | Any such tiling begins at the label's first digit |
| LabelPrice.LabelPrices | src/components/BookModal.tsx:189-221 | A blank label yields no prices. Otherwise each price is defined exactly when the label contains a digit, and is nonnegative |
| LabelPrice.PositionalFallback | src/components/BookModal.tsx:207-217 | Without a marker capture, the one-way price is the label's first number, and the round-trip price is its second number, or its first when there is only one |
| LabelPrice.MarkerWins | src/components/BookModal.tsx:203-206 | A price after a "one way" or "round trip" marker decides that trip type's label price |
| LabelPrice.SingleNumberServesBoth | src/components/BookModal.tsx:212-217 | A label with one number and no markers gives that number as both the one-way and the round-trip price |
| LabelPrice.LabelIgnoresCommas | src/components/BookModal.tsx:194 | Thousands separators do not change the label prices |
| LabelPrice.NumeralStartIsListed | src/components/BookModal.tsx:207 | Every number that starts at or after a position is among the numbers found from that position |
| LabelPrice.NumbersHoldNumerals | src/components/BookModal.tsx:207-210 | Every number written anywhere in the label is among the label's numbers |
| LabelPrice.MarkerSearchListed | src/components/BookModal.tsx:196-204 | The marker search from any position captures, if anything, one of the label's numbers |
| LabelPrice.MarkerPriceIsListed | src/components/BookModal.tsx:196-200 | A marker's price is one of the numbers in the label |
| LabelPrice.LabelPricesAreListed | src/components/BookModal.tsx:189-221 | Every label price is one of the numbers written in the label |
| Pricing.FirstPricedSeat | src/components/BookModal.tsx:159-187 | The first seat that has a price for the trip type gives the price, and there is none exactly when no seat has one |
| Pricing.TripSeatMap | src/components/BookModal.tsx:84-92 | The trip's own seat map always wins, even when it is empty, and a nonempty result is one of the two seat maps |
| Pricing.TripPrice | src/components/BookModal.tsx:240-272 | A trip-type price is the first defined of: loaded seats, trip seat map, trip record, label, base price |
| Pricing.FallbackSeatPrice | src/components/BookModal.tsx:283-297 | The fallback seat price equals the selected price, or zero when none resolves. Its seat and base fallbacks are already in the selected price |
| Pricing.SeatDisplayPrices | src/components/BookModal.tsx:138-145 | A seat's shown prices are its own price, else the trip's typed price, else the base price |
| Pricing.PricingSummary | src/components/BookModal.tsx:305-327 | No seat is counted as missing exactly when every selected seat is found and priced, and all are missing exactly when none is |
| Pricing.SelectedPrices | src/components/BookModal.tsx:309-318 | Each selected seat in turn yields the price of the loaded seat with that id, or nothing |
| Pricing.Summarize | src/components/BookModal.tsx:305-327 | No price is counted as missing exactly when all are present, and all are missing exactly when none is |
| Pricing.SummarizeCharges | src/components/BookModal.tsx:305-346 | The summary total plus one fallback per missing price is the sum of the prices with the fallback for each absent one |
| Pricing.UnitPricesAreSums | src/components/BookModal.tsx:309-324 | Charging each selected seat its own price or the fallback sums the prices the selection yields |
| Pricing.SummaryMatchesUnitPrices | src/components/BookModal.tsx:305-346 | The summary total plus missing seats at the fallback price equals charging each selected seat its own price or the fallback |
| Pricing.ChargedAddSeat | src/components/BookModal.tsx:309-324 | Each selected seat adds its own price or one fallback to the charge |
| Pricing.TimesIsProduct | src/components/BookModal.tsx:344 | Charging the fallback for each missing seat is the count times the price |
| Pricing.ChargedIsProduct | src/components/BookModal.tsx:344 | A summary charges its total plus the missing count times the fallback price |
| Pricing.SeatTotal | src/components/BookModal.tsx:341-355 | With seats selected, the seat total is the sum of their unit prices. Without seats, it is the fallback price times the adults, at least one |
| Pricing.SelectedSeatsTotal | src/components/BookModal.tsx:342-346 | The selected-seat total charges each seat its price or the fallback |
| Pricing.InfantsTotal | src/components/BookModal.tsx:360-365 | The infant total is the infant price times the infant count, or zero when there is no infant price |
| Pricing.ComputedTotal | src/components/BookModal.tsx:385-388 | With seats selected, the booking total is the sum of the selected seats' unit prices plus the infant total |
| Pricing.TotalWithSelection | src/components/BookModal.tsx:385-388 | With seats selected, the total is the sum of the seats' unit prices plus the infant total |
| Pricing.TotalWithoutSelection | src/components/BookModal.tsx:341-388 | With nothing selected, the total is the selected price (or zero) per adult, at least one, plus the infants |
| Pricing.SelectingAddsUnitPrice | src/components/BookModal.tsx:305-346 | Selecting one more seat raises the seat total by exactly that seat's unit price |
| Pricing.UnpricedSelectionCost | src/components/BookModal.tsx:342-346 | When no selected seat has a price, each costs the fallback price |
| Pricing.EstimateMatchesUnpricedSelection | src/components/BookModal.tsx:341-349 | The estimate shown before selecting equals the cost of selecting that many unpriced seats |
| Pricing.SyncTotal | src/components/BookModal.tsx:396-400 | The displayed total becomes the computed total, unless seats are selected while no seat data is loaded |
| Pricing.SyncTotalSettles | src/components/BookModal.tsx:396-400 | Running the total sync twice gives the same as once |
| Pricing.AutoSwitch | src/components/BookModal.tsx:517-531 | The trip type flips exactly when its own price is missing and the other one's is present. Afterwards the selected type has a price iff either type does |
| Pricing.AutoSwitchSettles | src/components/BookModal.tsx:517-531 | The auto-switch effect does not flip the trip type back |
| Pricing.CorrectTripType | src/components/BookModal.tsx:517-531 | The correction changes only the trip type. Afterwards a price resolves exactly when the trip has a price for either type |
| Pricing.CorrectTripTypeSettles | src/components/BookModal.tsx:517-531 | Correcting a corrected quote changes nothing |
| Pricing.SeatPricedForBothTypes | src/components/BookModal.tsx:117-123 | A seat has a price for one trip type exactly when it has one for the other |
| Pricing.PricedSeatKeepsTripType | src/components/BookModal.tsx:240-272 | When any loaded seat is priced, both trip types are priced and the trip type is never switched |
| Pricing.TotalNonnegative | src/components/BookModal.tsx:385-388 | With nonnegative prices everywhere, the booking total is nonnegative |
| Pricing.TripPriceNonneg | src/components/BookModal.tsx:240-272 | With nonnegative prices everywhere, a resolved trip price is nonnegative |
| Pricing.SeatTotalNonneg | src/components/BookModal.tsx:341-355 | With nonnegative prices everywhere, the seat total is nonnegative |
| Pricing.SeatTotalNonnegWith | src/components/BookModal.tsx:341-355 | With nonnegative seat prices and fallback, the seat total is nonnegative for any selection and adult count |
| Pricing.SumOfUnitPricesNonneg | src/components/BookModal.tsx:342-346 | With nonnegative seat prices and fallback, charging the selected seats costs nothing negative |
| Pricing.SourcesNonneg | src/components/BookModal.tsx:240-272 | With nonnegative prices everywhere, each source of a trip price is nonnegative |
| Pricing.FirstPricedSeatNonneg | src/components/BookModal.tsx:159-187 | The first seat price found among nonnegative seats is nonnegative |
| Pricing.FallbackNonneg | src/components/BookModal.tsx:283-297 | With nonnegative prices everywhere, the fallback seat price is nonnegative |
| Selection.Click | src/components/BookModal.tsx:1167-1190 | Other ids keep their membership. A selectable seat toggles: it is added only while fewer seats than adults are selected, and then at the end. Any other id is left alone |
| Selection.ClickPreserves | src/components/BookModal.tsx:1167-1190 | A click keeps the selection duplicate-free, made of loaded seat ids and no longer than the adult count |
| Selection.ClickTwiceRestores | src/components/BookModal.tsx:1181-1189 | Selecting a seat and then clicking it again restores the previous selection |
| Selection.AdultsChanged | src/components/BookModal.tsx:1011-1039 | A selection longer than the new adult count is cut to its first seats. A shorter non-empty one is cleared. Otherwise it is kept |
| Selection.AdultsChangedPreserves | src/components/BookModal.tsx:1011-1039 | After the adult count changes, the selection is valid for the new count |
| Selection.SeatsReloaded | src/components/BookModal.tsx:879-888 | After a reload, an id stays selected exactly when it was selected and still names a loaded seat |
| Selection.ReloadIsFilter | src/components/BookModal.tsx:885-887 | Reload pruning is an order-keeping filter of the selection |
| Selection.Keep | src/components/BookModal.tsx:885-887 | Filtering keeps exactly the selected ids the test accepts and never lengthens the selection |
| Selection.SeatsReloadedPreserves | src/components/BookModal.tsx:879-888 | Pruning after a reload keeps the selection valid for the new seats |
| Selection.KeepNoDuplicates | src/components/BookModal.tsx:886 | Filtering a duplicate-free selection keeps it duplicate-free |
| Selection.KeepDropsAppended | src/components/BookModal.tsx:1184 | Deselecting the seat just added gives back the earlier selection |
| Selection.Step | src/components/BookModal.tsx:841-1190 | One modal input: a seat-map load (841-888) installs the normalised seats, an adult-count change (1010-1038) sets the count and leaves the state untouched when the count is unchanged, since the pruning effect depends on the count alone, and a click (1167-1190) keeps the seats and the count |
| Selection.StepPreserves | src/components/BookModal.tsx:841-1190 | Each click, adult change or seat load keeps the selection valid and all seat ids UUIDs |
| Selection.RunPreserves | src/components/BookModal.tsx:841-1190 | The selection stays valid through any sequence of those events |
| Selection.SelectedIdsAreUuids | src/components/BookModal.tsx:1115-1118 | In a valid state every selected id is a UUID, so the invalid-seat message cannot appear |
| Selection.InitialStateValid | src/components/BookModal.tsx:841-888 | The empty start state is valid |
| Passengers.OfKindKinds | src/components/BookModal.tsx:969-970 | Filtering by kind keeps only passengers of that kind |
| Passengers.OfKindAppend | src/components/BookModal.tsx:969-970 | Filtering a joined list is joining the filtered parts |
| Passengers.KindsPartition | src/components/bookModal/types.ts:3-4 | Every passenger is an adult or an infant, so the two filters add up to the list |
| Passengers.NthOfKind | src/components/BookModal.tsx:983-987 | The search by rank finds the passenger at that position of the kind-filtered list, and nothing when the rank is past its end |
| Passengers.FindNthIsFilterIndex | src/components/BookModal.tsx:983-987 | The search from any index finds the passenger of that rank |
| Passengers.Reused | src/components/BookModal.tsx:982-1004 | Each position of a kind reuses the previous passenger of that kind and rank, or a blank one of that kind |
| Passengers.Sync | src/components/BookModal.tsx:958-1008 | The list has one entry per passenger, the adults and infants are the previous ones reused in order, and it is either unchanged or all adults then all infants |
| Passengers.AdultsThenInfants | src/components/BookModal.tsx:978-1006 | The adults followed by the infants filter back into the two runs |
| Passengers.SyncSettles | src/components/BookModal.tsx:965-977 | Running the passenger sync twice gives the same list as once |
| Passengers.SyncKeepsMatchingList | src/components/BookModal.tsx:967-976 | A list whose counts already match is kept as it is, in any order |
| Validation.IsFormValid | src/components/BookModal.tsx:1041-1082 | The form passes exactly when name, email and phone are filled in, there is no phone error and the phone has at least ten code units, the seat map is up and a price resolves, there is one selected seat per adult and every selected id is a UUID, and every passenger is complete |
| Validation.OneAdultForm | src/components/BookModal.tsx:1041-1082 | The sample booking has one adult, one selected seat and one passenger |
| Validation.OneAdultFormValid | src/components/BookModal.tsx:1041-1082 | The sample booking passes `isFormValid` whenever its name and email are not empty |
| Validation.FormValidDrawsContactErrors | src/components/BookModal.tsx:1041-1102 | A booking with a blank name and email, and one with a malformed email, both pass `isFormValid` and still draw the blank-name, blank-email and email-format messages |
| Validation.AllPassengersComplete | src/components/BookModal.tsx:1052-1078 | The passenger check passes exactly when every passenger is complete |
| Validation.ValidEmailShape | src/components/BookModal.tsx:1093 | An accepted email has no white space and exactly one `@`, which is not first |
| Validation.ContactErrors | src/components/BookModal.tsx:1088-1102 | Each contact message is reported exactly when its condition holds |
| Validation.ContactMessages | src/components/BookModal.tsx:1088-1102 | Given the outcome of each field test, a name, email or phone message is pushed exactly when its test fails, and a missing value hides the format message |
| Validation.SeatErrors | src/components/BookModal.tsx:1105-1118 | At most one seat message is reported, the first condition that holds |
| Validation.PriceErrors | src/components/BookModal.tsx:1121-1123 | The price message is reported exactly when no price resolves |
| Validation.PassengerErrorsAt | src/components/BookModal.tsx:1131-1157 | A passenger's messages are exactly those whose conditions hold for that passenger |
| Validation.PassengerErrors | src/components/BookModal.tsx:1126-1159 | The passenger messages are exactly those whose conditions hold for some passenger |
| Validation.AllErrorsSpec | src/components/BookModal.tsx:1085-1159 | A message is reported exactly when its condition holds |
| Validation.ContactErrorSpec | src/components/BookModal.tsx:1088-1102 | A message is among the contact messages exactly when it is a contact message whose condition holds |
| Validation.ValidateBookingForm | src/components/BookModal.tsx:1085-1165 | The reported messages are exactly those that apply, and the form is valid exactly when none applies |
| Validation.PassengerCompleteIffNoMessage | src/components/BookModal.tsx:1041-1159 | A passenger passes the form check exactly when it draws no passenger message |
| Validation.ValidatedFormIsValid | src/components/BookModal.tsx:1041-1165 | A form that validates also passes `isFormValid` when there is no phone error and the selection is not longer than the adults |
| Validation.ValidatedContactAndSeats | src/components/BookModal.tsx:1088-1123 | A form with no messages has contact data, a loaded seat map, a price, and exactly one UUID seat per adult |
| Validation.FormValidLeavesContactErrors | src/components/BookModal.tsx:1041-1165 | A form passing `isFormValid` can still draw blank-name, email and (with no adults) no-seat messages |
| Validation.FormValidMessage | src/components/BookModal.tsx:1041-1165 | Any message that applies to a form passing `isFormValid` is a blank-name, email or (with no adults) no-seat message |
| Validation.OverlongSelectionSlipsThrough | src/components/BookModal.tsx:1105-1118 | Selecting more seats than adults draws no seat message, though `isFormValid` rejects it |
| TripCard.UpperRunEnd | src/components/TripCard.tsx:140-141 | The run of capital letters from a position ends at the first non-capital |
| TripCard.SplitIsUnique | src/components/TripCard.tsx:127 | A seat label splits into letters and digits in at most one way |
| TripCard.ParseLabelSpec | src/components/TripCard.tsx:127-128 | A seat label matches exactly when it is capitals then digits, and then yields that row and number |
| TripCard.LabelRoundTrip | src/components/TripCard.tsx:127-130 | Parsing a row of capitals followed by digits gives back that row and number |
| TripCard.MatchingSound | src/components/TripCard.tsx:125-132 | Every kept seat is a seat of the map whose label matches |
| TripCard.MatchingIncreasing | src/components/TripCard.tsx:125-132 | Kept seats stay in map order |
| TripCard.MatchingComplete | src/components/TripCard.tsx:125-132 | Every seat whose label matches is kept |
| TripCard.InRowMembers | src/components/TripCard.tsx:130-132 | A row bucket holds exactly the kept seats with that row letters |
| TripCard.InRowIncreasing | src/components/TripCard.tsx:131-132 | A row bucket keeps the seats in map order |
| TripCard.RowKeys | src/components/TripCard.tsx:134 | The row keys are distinct |
| TripCard.RowKeysSpec | src/components/TripCard.tsx:131-134 | A row key exists exactly when some kept seat has that row |
| TripCard.EntryRowIsKey | src/components/TripCard.tsx:131-134 | Every kept seat's row is a row key |
| TripCard.LexLessIsStringLess | src/components/TripCard.tsx:134 | The recursive order is the code-unit order of the default sort |
| TripCard.StringLessAtHead | src/components/TripCard.tsx:134 | Strings whose first code units differ compare by those units |
| TripCard.StringLessTail | src/components/TripCard.tsx:134 | Strings sharing their first code unit compare as their tails |
| TripCard.LexTransitive | src/components/TripCard.tsx:134 | The key order is transitive |
| TripCard.LexTotal | src/components/TripCard.tsx:134 | Any two distinct keys are ordered |
| TripCard.LexIrreflexive | src/components/TripCard.tsx:134 | No key sorts before itself |
| TripCard.InsertKey | src/components/TripCard.tsx:134 | Inserting a new key into sorted keys keeps them sorted and adds exactly that key |
| TripCard.SortKeys | src/components/TripCard.tsx:134 | The row keys are sorted and are the same keys |
| TripCard.SortedKeysDistinct | src/components/TripCard.tsx:134 | Sorted keys have no repeats |
| TripCard.InsertEntry | src/components/TripCard.tsx:137-146 | Inserting a later seat into a sorted row keeps it sorted and adds exactly that seat |
| TripCard.SortRow | src/components/TripCard.tsx:137-146 | A row is sorted by seat number, ties in map order, and holds the same seats |
| TripCard.RowSortIsUnique | src/components/TripCard.tsx:137-146 | Only one arrangement of a row is sorted by number with ties in map order, so any stable sort gives this one |
| TripCard.SortedHeadsAgree | src/components/TripCard.tsx:137-146 | Two sorted arrangements of the same seats start with the same seat |
| TripCard.Keys | src/components/TripCard.tsx:135 | The column keys are the rows' keys in order |
| TripCard.Columns | src/components/TripCard.tsx:135-147 | Each column has its key, is sorted, and holds exactly that row's seats |
| TripCard.Layout | src/components/TripCard.tsx:134-135 | The columns appear in key order |
| TripCard.LayoutRowShows | src/components/TripCard.tsx:135-147 | Each column shows exactly its row's seats, sorted |
| TripCard.LayoutCovers | src/components/TripCard.tsx:131-135 | Every kept seat's row has a column |
| TripCard.ColumnMembers | src/components/TripCard.tsx:125-147 | A seat is in a column exactly when it is kept and its row is the column's key |
| TripCard.EachMatchingSeatInOneRow | src/components/TripCard.tsx:125-147 | Every kept seat appears in its own row's column and in no other |
| TripCard.UnmatchedSeatDropped | src/components/TripCard.tsx:128 | A seat whose label does not match is shown in no column |
| TripCard.RenderSeatMap | src/components/TripCard.tsx:118-162 | No seat map shows nothing. A seat without a label makes the render fail. Otherwise the grid is shown |
| TripCard.BookButtonFor | src/components/TripCard.tsx:104-113 | The button is disabled exactly when no seats are left, and then reads "Full", otherwise "Book Now" |
| TripCard.PressBook | src/components/TripCard.tsx:105 | A press opens the modal exactly when seats are available, and leaves an open modal open |
| TripCard.ModalShown | src/components/BookModal.tsx:1469-1472 | The modal renders only when open, and then exactly when the seat count is not zero |
| TripCard.PressShowsModal | src/components/TripCard.tsx:105 | Pressing the button shows the modal exactly when seats are available |
| TripCard.NegativeCountInertButton | src/components/TripCard.tsx:105-113 | A negative seat count leaves the button enabled and reading "Book Now", but pressing it does nothing |

## Left out

- Fetching the seat map over the network, and its error messages (src/components/BookModal.tsx:823-839, 865-873). The loaded seats enter the model as input to `Selection.Step`.
- Saving and restoring a pending booking through `localStorage`. A restored selection is not re-checked, so it can break the selection invariant, and the model does not cover it.
- Toasts, timers, the router, payment redirection, PDF output and document upload: side effects with no bearing on the state modelled.
- The `skipPassengerSyncRef` flag that skips one passenger sync after a restore: it only matters together with the restore.
- `parsePriceValue` (src/components/BookModal.tsx:52-58). It converts any value with `Number()`, so `null` and `""` become 0 and `NaN` becomes undefined. The model takes prices as already-parsed optional numbers.
- `NaN` and infinity in totals, and the `(seatTotal || 0)` guard (src/components/BookModal.tsx:386): money is an exact real.
- Pricing.PricingSummary: the `Number.isFinite` test on a seat price is always true for the model's reals.
- Number and currency formatting (`toLocaleString`, `DISPLAY_CURRENCY`): presentation only. Seats also drop the constant `currency` field.
- Common.Trim: white space is the ASCII set plus the no-break space. The model omits the rest of the Unicode space class used by `trim()` and `\s`.
- Counts of adults and infants as non-integer or negative numbers: the model uses `nat`. The trip card's `availableSeats` is an `int`, since its negative case is observable.
- Seat-map entries that are `null` or not objects, and a `seatNumber` that is not a string: the model's seats are records, and a missing label is `None`.
- TripCard.ParseLabelSpec: `parseInt` on a very long digit string loses precision. The model reads digits as an exact natural number.
- React `key` attributes, CSS classes and colours in the seat grid: presentation only. `isAvailable` is carried through but only colours a seat.
- LabelPrice.MarkerPrice: its own contract states only that a capture needs a following digit and is nonnegative. Which number is captured is stated by `LabelPrice.MarkerPriceMisses` and `LabelPrice.MarkerPriceFirstHit`.
- LabelPrice.NumbersFrom: its own contract states only nonnegativity and when the list is empty. The full list is stated by `LabelPrice.NumbersAreTiledNumerals` and `LabelPrice.TiledNumbers`.
- Uuid.IsValidUuid: its own contract states only the length, the dash positions and the hex digits, in one direction. The full pattern, version and variant digits included, is the iff in `Uuid.ValidUuidIffGroups`.
- Pricing.ComputedTotal: its own contract covers a nonempty selection. The empty case is stated by `Pricing.TotalWithoutSelection`.
- Validation.ValidEmail: the email regular expression is stated declaratively. The model does not spell out the regex engine.

## Notes

`isFormValid` (src/components/BookModal.tsx:1041-1082) is modelled as
`Validation.IsFormValid` and related to `validateBookingForm` by lemmas.
Nothing in the modal calls it, and booking goes through
`validateBookingForm` alone. The two checks disagree on a few forms, and
those forms are stated as lemmas above.
