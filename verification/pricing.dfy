/** The booking modal's price reconciliation: the trip-level one-way and
    round-trip prices, the per-seat display prices, the seat and infant
    totals, the grand total and the automatic correction of the trip type. */
module Pricing {
  import opened Common
  import opened Seats
  import opened LabelPrice

  /** The pricing-relevant part of the trip record. `seatMap` and
      `dataSeatMap` stand for `tripData.seatMap` and `tripData.data.seatMap`,
      present when they are arrays. */
  datatype Trip = Trip(
    basePrice: Option<Money>,
    oneWayBasePrice: Option<Money>,
    roundTripBasePrice: Option<Money>,
    infantPrice: Option<Money>,
    seatMap: Option<seq<RawSeat>>,
    dataSeatMap: Option<seq<RawSeat>>)

  /** `tripSeatMap`: the trip's own seat map, else the nested one, else none. */
  function TripSeatMap(trip: Trip): (r: seq<RawSeat>)
    ensures trip.seatMap.Some? ==> r == trip.seatMap.value
    ensures r != [] ==> Some(r) == trip.seatMap || Some(r) == trip.dataSeatMap
  {
    if trip.seatMap.Some? then trip.seatMap.value
    else if trip.dataSeatMap.Some? then trip.dataSeatMap.value
    else []
  }

  /** The trip record's explicit price for trip type `t`. */
  function TripTypedPrice(trip: Trip, t: TripType): Option<Money> {
    if t.RoundTrip? then trip.roundTripBasePrice else trip.oneWayBasePrice
  }

  /** The fallback the free-text label yields for trip type `t`; `labelPrices` is
      `labelPriceFallbacks`, that is `LabelPrices` of the trip's price text. */
  function LabelPriceFor(labelPrices: LabelFallbacks, t: TripType): Option<Money> {
    if t.RoundTrip? then labelPrices.roundTrip else labelPrices.oneWay
  }

  function SeatPrices(seats: seq<Seat>): (ps: seq<Prices>)
    ensures |ps| == |seats| && forall i | 0 <= i < |seats| :: ps[i] == seats[i].prices
  {
    seq(|seats|, i requires 0 <= i < |seats| => seats[i].prices)
  }

  function RawPrices(raws: seq<RawSeat>): (ps: seq<Prices>)
    ensures |ps| == |raws| && forall i | 0 <= i < |raws| :: ps[i] == raws[i].prices
  {
    seq(|raws|, i requires 0 <= i < |raws| => raws[i].prices)
  }

  /** The price of the first seat that yields one (`seats.find(...)` in
      `seatOneWayFallback`, the loop in `tripSeatFallbacks`). */
  function FirstPricedSeat(ps: seq<Prices>, t: TripType): (r: Option<Money>)
    ensures r.None? <==> forall i | 0 <= i < |ps| :: PickSeatPrice(Some(ps[i]), t).None?
    ensures r.Some? ==> exists i | 0 <= i < |ps| ::
      r == PickSeatPrice(Some(ps[i]), t) && forall j | 0 <= j < i :: PickSeatPrice(Some(ps[j]), t).None?
  {
    if |ps| == 0 then None
    else
      var first := PickSeatPrice(Some(ps[0]), t);
      if first.Some? then first
      else
        var r := FirstPricedSeat(ps[1..], t);
        assert forall i | 1 <= i < |ps| :: ps[i] == ps[1..][i - 1];
        if r.Some? then
          var i :| 0 <= i < |ps[1..]| && r == PickSeatPrice(Some(ps[1..][i]), t)
                   && forall j | 0 <= j < i :: PickSeatPrice(Some(ps[1..][j]), t).None?;
          assert r == PickSeatPrice(Some(ps[i + 1]), t);
          r
        else r
  }

  /** The five sources of a trip-level price, in priority order: the loaded
      seats, the trip's own seat map, the trip's explicit price, the label,
      and the flat base price. */
  function TripPriceSources(trip: Trip, labelPrices: LabelFallbacks, seats: seq<Seat>, t: TripType): seq<Option<Money>> {
    [ FirstPricedSeat(SeatPrices(seats), t),
      FirstPricedSeat(RawPrices(TripSeatMap(trip)), t),
      TripTypedPrice(trip, t),
      LabelPriceFor(labelPrices, t),
      trip.basePrice ]
  }

  /** `oneWayPrice` (t = OneWay) and `roundTripPrice` (t = RoundTrip). */
  function TripPrice(trip: Trip, labelPrices: LabelFallbacks, seats: seq<Seat>, t: TripType): (r: Option<Money>)
    ensures IsFirstDefined(TripPriceSources(trip, labelPrices, seats, t), r)
  {
    Coalesce(TripPriceSources(trip, labelPrices, seats, t))
  }

  /** `selectedPriceValue`. */
  function SelectedPrice(trip: Trip, labelPrices: LabelFallbacks, seats: seq<Seat>, t: TripType): Option<Money> {
    TripPrice(trip, labelPrices, seats, t)
  }

  /** `fallbackSeatPrice`: the selected price, else the seat-map and loaded-seat
      fallbacks, else the base price, else zero. The later steps repeat sources
      the selected price already tried, so the result is simply the selected
      price, or zero when there is none. */
  function FallbackSeatPrice(trip: Trip, labelPrices: LabelFallbacks, seats: seq<Seat>, t: TripType): (f: Money)
    ensures f == SelectedPrice(trip, labelPrices, seats, t).GetOr(0.0)
  {
    var xs := TripPriceSources(trip, labelPrices, seats, t);
    var selected := SelectedPrice(trip, labelPrices, seats, t);
    var seatType := xs[1].OrElse(xs[0]);
    assert selected.None? ==> xs[0].None? && xs[1].None? && xs[4].None? by {
      if selected.None? {
        assert forall i | 0 <= i < |xs| :: xs[i].None?;
      }
    }
    selected.OrElse(seatType).OrElse(trip.basePrice).GetOr(0.0)
  }

  /** The display pair `formatSeatPrice` shows for one seat, before
      formatting: the seat's own price for each trip type, else the trip's
      explicit price for that type, else the trip's base price. */
  datatype SeatDisplay = SeatDisplay(oneWay: Option<Money>, roundTrip: Option<Money>)

  function SeatDisplayPrices(trip: Trip, seat: Option<Prices>): (d: SeatDisplay)
    ensures IsFirstDefined([PickSeatPrice(seat, OneWay), trip.oneWayBasePrice, trip.basePrice], d.oneWay)
    ensures IsFirstDefined([PickSeatPrice(seat, RoundTrip), trip.roundTripBasePrice, trip.basePrice], d.roundTrip)
  {
    var a := PickSeatPrice(seat, OneWay);
    var b := PickSeatPrice(seat, RoundTrip);
    var xs := [a, trip.oneWayBasePrice, trip.basePrice];
    var ys := [b, trip.roundTripBasePrice, trip.basePrice];
    assert xs[0] == a && xs[1] == trip.oneWayBasePrice && xs[2] == trip.basePrice;
    assert ys[0] == b && ys[1] == trip.roundTripBasePrice && ys[2] == trip.basePrice;
    SeatDisplay(a.OrElse(trip.oneWayBasePrice).OrElse(trip.basePrice),
                b.OrElse(trip.roundTripBasePrice).OrElse(trip.basePrice))
  }

  /** The price of the selected seat with id `id`: none when the seat is not
      loaded or yields no price. */
  function LookupPrice(seats: seq<Seat>, id: string, t: TripType): Option<Money> {
    match FindSeat(seats, id)
    case None => None
    case Some(s) => PickSeatPrice(Some(s.prices), t)
  }

  /** `seatPricingSummary`: the sum of the prices the selected seats yield,
      and how many selected seats yield none. */
  datatype Summary = Summary(total: Money, missing: nat)

  /** The selected seat `id` is loaded and yields a price. */
  predicate Priced(seats: seq<Seat>, id: string, t: TripType) {
    LookupPrice(seats, id, t).Some?
  }

  /** The price each selected seat yields, in selection order. */
  function SelectedPrices(selected: seq<string>, seats: seq<Seat>, t: TripType): (ps: seq<Option<Money>>)
    ensures |ps| == |selected|
    ensures forall i | 0 <= i < |selected| :: ps[i] == LookupPrice(seats, selected[i], t)
  {
    seq(|selected|, i requires 0 <= i < |selected| => LookupPrice(seats, selected[i], t))
  }

  /** The summary loop over a list of optional prices. */
  function Summarize(ps: seq<Option<Money>>): (s: Summary)
    ensures s.missing <= |ps|
    ensures s.missing == 0 <==> forall i | 0 <= i < |ps| :: ps[i].Some?
    ensures s.missing == |ps| <==> forall i | 0 <= i < |ps| :: ps[i].None?
  {
    if |ps| == 0 then Summary(0.0, 0)
    else
      var n := |ps| - 1;
      assert forall i | 0 <= i < n :: ps[..n][i] == ps[i];
      AddSeat(Summarize(ps[..n]), ps[n])
  }

  function PricingSummary(selected: seq<string>, seats: seq<Seat>, t: TripType): (s: Summary)
    ensures s.missing <= |selected|
    ensures s.missing == 0 <==> forall i | 0 <= i < |selected| :: Priced(seats, selected[i], t)
    ensures s.missing == |selected| <==> forall i | 0 <= i < |selected| :: !Priced(seats, selected[i], t)
  {
    Summarize(SelectedPrices(selected, seats, t))
  }

  /** One step of the summary loop: a priced seat adds its price, an
      unpriced one is counted as missing. */
  function AddSeat(b: Summary, price: Option<Money>): Summary {
    match price
    case Some(p) => Summary(b.total + p, b.missing)
    case None => Summary(b.total, b.missing + 1)
  }

  /** `count * price`, written as repeated addition so that the summation
      proofs stay linear; `TimesIsProduct` relates it to the product. */
  function Times(count: nat, price: Money): Money {
    if count == 0 then 0.0 else Times(count - 1, price) + price
  }

  lemma {:induction false} TimesIsProduct(count: nat, price: Money)
    ensures Times(count, price) == count as real * price
  {
    if count > 0 {
      TimesIsProduct(count - 1, price);
    }
  }

  /** What a summary charges: the summed prices plus the fallback price for
      every seat that yields none. */
  function Charged(s: Summary, fallback: Money): Money {
    s.total + Times(s.missing, fallback)
  }

  /** What one selected seat costs: its own price, or the fallback price when
      it is not loaded or yields none. */
  function UnitPrice(seats: seq<Seat>, id: string, t: TripType, fallback: Money): Money {
    LookupPrice(seats, id, t).GetOr(fallback)
  }

  /** The reference definition of a seat total: the sum of the unit prices of
      the selected seats. */
  function SumOfUnitPrices(selected: seq<string>, seats: seq<Seat>, t: TripType, fallback: Money): Money {
    if |selected| == 0 then 0.0
    else
      var n := |selected| - 1;
      SumOfUnitPrices(selected[..n], seats, t, fallback) + UnitPrice(seats, selected[n], t, fallback)
  }

  /** `seatTotal`: with seats selected, the summed prices plus the fallback
      price for every seat that yields none; with nothing selected, a
      provisional fallback price per adult, counting at least one adult. */
  function SeatTotal(selected: seq<string>, seats: seq<Seat>, t: TripType, fallback: Money, adults: nat): (r: Money)
    ensures |selected| > 0 ==> r == SumOfUnitPrices(selected, seats, t, fallback)
    ensures |selected| == 0 ==> r == fallback * (if adults > 1 then adults else 1) as real
  {
    if |selected| > 0 then SelectedSeatsTotal(selected, seats, t, fallback)
    else fallback * (if adults > 1 then adults else 1) as real
  }

  /** `pricingSummary.total + missingCount * fallbackSeatPrice`. */
  function SelectedSeatsTotal(selected: seq<string>, seats: seq<Seat>, t: TripType, fallback: Money): (r: Money)
    ensures r == SumOfUnitPrices(selected, seats, t, fallback)
  {
    var s := PricingSummary(selected, seats, t);
    SummaryMatchesUnitPrices(selected, seats, t, fallback);
    ChargedIsProduct(s, fallback);
    s.total + (s.missing as real) * fallback
  }

  /** A summary charges its total plus the fallback price times the number
      of missing seats. */
  lemma ChargedIsProduct(s: Summary, fallback: Money)
    ensures Charged(s, fallback) == s.total + (s.missing as real) * fallback
  {
    TimesIsProduct(s.missing, fallback);
  }

  /** The summary-based total and the unit-price sum agree. */
  lemma SummaryMatchesUnitPrices(selected: seq<string>, seats: seq<Seat>, t: TripType, fallback: Money)
    ensures Charged(PricingSummary(selected, seats, t), fallback) == SumOfUnitPrices(selected, seats, t, fallback)
  {
    var ps := SelectedPrices(selected, seats, t);
    SummarizeCharges(ps, fallback);
    UnitPricesAreSums(selected, seats, t, fallback);
  }

  /** The sum of a list of optional prices, the fallback standing in for
      each absent one. */
  function SumOr(ps: seq<Option<Money>>, fallback: Money): Money {
    if |ps| == 0 then 0.0
    else
      var n := |ps| - 1;
      SumOr(ps[..n], fallback) + ps[n].GetOr(fallback)
  }

  /** The summary loop charges the fallback for exactly the absent prices. */
  lemma {:induction false} SummarizeCharges(ps: seq<Option<Money>>, fallback: Money)
    ensures Charged(Summarize(ps), fallback) == SumOr(ps, fallback)
  {
    if |ps| > 0 {
      var n := |ps| - 1;
      SummarizeCharges(ps[..n], fallback);
      ChargedAddSeat(Summarize(ps[..n]), ps[n], fallback);
    }
  }

  /** The unit-price sum is the sum of the prices the selection yields. */
  lemma {:induction false} UnitPricesAreSums(selected: seq<string>, seats: seq<Seat>, t: TripType, fallback: Money)
    ensures SumOfUnitPrices(selected, seats, t, fallback) == SumOr(SelectedPrices(selected, seats, t), fallback)
  {
    var ps := SelectedPrices(selected, seats, t);
    if |selected| > 0 {
      var n := |selected| - 1;
      UnitPricesAreSums(selected[..n], seats, t, fallback);
      assert ps[..n] == SelectedPrices(selected[..n], seats, t);
    } else {
      assert ps == [];
    }
  }

  /** A summary step charges exactly the unit price of the added seat. */
  lemma ChargedAddSeat(b: Summary, price: Option<Money>, fallback: Money)
    ensures Charged(AddSeat(b, price), fallback) == Charged(b, fallback) + price.GetOr(fallback)
  {
  }

  /** `infantsTotal`: a flat charge per infant, zero when the trip has no
      infant price. */
  function InfantsTotal(infantPrice: Option<Money>, infants: nat): (r: Money)
    ensures r == infantPrice.GetOr(0.0) * infants as real
  {
    if infantPrice.None? || infantPrice.value == 0.0 || infants == 0 then 0.0
    else infantPrice.value * infants as real
  }

  /** `selectedTripType === "ROUND_TRIP" ? roundTripPrice : oneWayPrice`, given
      both prices. */
  function PriceForType(t: TripType, oneWay: Option<Money>, roundTrip: Option<Money>): Option<Money> {
    if t.RoundTrip? then roundTrip else oneWay
  }

  /** The trip-type correction effect: switch to the other trip type exactly
      when the current one has no price and the other has one. */
  function AutoSwitch(t: TripType, oneWay: Option<Money>, roundTrip: Option<Money>): (r: TripType)
    ensures r == t || r == t.Other()
    ensures r != t <==> PriceForType(t, oneWay, roundTrip).None? && PriceForType(t.Other(), oneWay, roundTrip).Some?
    ensures PriceForType(r, oneWay, roundTrip).Some? <==> oneWay.Some? || roundTrip.Some?
  {
    if t == OneWay && oneWay.None? && roundTrip.Some? then RoundTrip
    else if t == RoundTrip && roundTrip.None? && oneWay.Some? then OneWay
    else t
  }

  /** The correction settles after one step: re-running it changes nothing. */
  lemma AutoSwitchSettles(t: TripType, oneWay: Option<Money>, roundTrip: Option<Money>)
    ensures AutoSwitch(AutoSwitch(t, oneWay, roundTrip), oneWay, roundTrip) == AutoSwitch(t, oneWay, roundTrip)
  {
  }

  /** A seat yields a one-way price exactly when it yields a round-trip
      price: each trip type falls back to the other's field. */
  lemma SeatPricedForBothTypes(p: Prices)
    ensures PickSeatPrice(Some(p), OneWay).Some? <==> PickSeatPrice(Some(p), RoundTrip).Some?
  {
    FirstDefinedChain4(p.oneWayBasePrice, p.effectivePrice, p.seatPrice, p.roundTripBasePrice);
    FirstDefinedChain4(p.roundTripBasePrice, p.effectivePrice, p.seatPrice, p.oneWayBasePrice);
  }

  /** Once any loaded seat yields a price, both trip-level prices are defined
      and the trip type is never switched. */
  lemma {:induction false} PricedSeatKeepsTripType(trip: Trip, labelPrices: LabelFallbacks, seats: seq<Seat>, i: nat, t: TripType)
    requires i < |seats| && PickSeatPrice(Some(seats[i].prices), t).Some?
    ensures TripPrice(trip, labelPrices, seats, OneWay).Some? && TripPrice(trip, labelPrices, seats, RoundTrip).Some?
    ensures AutoSwitch(t, TripPrice(trip, labelPrices, seats, OneWay), TripPrice(trip, labelPrices, seats, RoundTrip)) == t
  {
    SeatPricedForBothTypes(seats[i].prices);
    var ps := SeatPrices(seats);
    assert ps[i] == seats[i].prices;
    var ow := FirstPricedSeat(ps, OneWay);
    var rt := FirstPricedSeat(ps, RoundTrip);
    assert ow.Some? && rt.Some?;
    assert TripPriceSources(trip, labelPrices, seats, OneWay)[0] == ow;
    assert TripPriceSources(trip, labelPrices, seats, RoundTrip)[0] == rt;
  }

  /** The inputs of the booking total: the trip, the prices read from its
      label, the loaded seats, the selection, the trip type and the passenger
      counts. */
  datatype Quote = Quote(
    trip: Trip,
    labelPrices: LabelFallbacks,
    seats: seq<Seat>,
    selected: seq<string>,
    tripType: TripType,
    adults: nat,
    infants: nat)

  /** The fallback seat price of a quote. */
  function QuoteFallback(q: Quote): Money {
    FallbackSeatPrice(q.trip, q.labelPrices, q.seats, q.tripType)
  }

  /** `computedTotalAmount`: the seat total plus the infant total. */
  function ComputedTotal(q: Quote): (r: Money)
    ensures |q.selected| > 0 ==> r == SumOfUnitPrices(q.selected, q.seats, q.tripType, QuoteFallback(q))
                                     + InfantsTotal(q.trip.infantPrice, q.infants)
  {
    var fallback := QuoteFallback(q);
    var seatTotal := SeatTotal(q.selected, q.seats, q.tripType, fallback, q.adults);
    seatTotal + InfantsTotal(q.trip.infantPrice, q.infants)
  }

  /** With seats selected, the total charges each selected seat its own price
      (or the fallback price) and each infant the infant price. */
  lemma TotalWithSelection(q: Quote)
    requires |q.selected| > 0
    ensures ComputedTotal(q)
      == SumOfUnitPrices(q.selected, q.seats, q.tripType, QuoteFallback(q))
         + InfantsTotal(q.trip.infantPrice, q.infants)
  {
  }

  /** With nothing selected, the total is the provisional estimate: the
      selected price (zero when none resolves) once per adult, at least once,
      plus the infants. */
  lemma TotalWithoutSelection(q: Quote)
    requires |q.selected| == 0
    ensures ComputedTotal(q)
      == SelectedPrice(q.trip, q.labelPrices, q.seats, q.tripType).GetOr(0.0) * (if q.adults > 1 then q.adults else 1) as real
         + InfantsTotal(q.trip.infantPrice, q.infants)
  {
  }

  /** Selecting one more seat raises the seat total by exactly that seat's
      unit price. */
  lemma SelectingAddsUnitPrice(selected: seq<string>, id: string, seats: seq<Seat>, t: TripType, fallback: Money, adults: nat)
    requires |selected| > 0
    ensures SeatTotal(selected + [id], seats, t, fallback, adults)
      == SeatTotal(selected, seats, t, fallback, adults) + UnitPrice(seats, id, t, fallback)
  {
    assert (selected + [id])[..|selected|] == selected;
  }

  /** When no selected seat yields a price, every seat is charged the
      fallback price. */
  lemma {:induction false} UnpricedSelectionCost(selected: seq<string>, seats: seq<Seat>, t: TripType, fallback: Money)
    requires forall i | 0 <= i < |selected| :: !Priced(seats, selected[i], t)
    ensures SumOfUnitPrices(selected, seats, t, fallback) == Times(|selected|, fallback)
  {
    if |selected| > 0 {
      var n := |selected| - 1;
      assert forall i | 0 <= i < n :: selected[..n][i] == selected[i];
      UnpricedSelectionCost(selected[..n], seats, t, fallback);
    }
  }

  /** The provisional estimate is what the same number of unpriced seats
      would cost once selected. */
  lemma EstimateMatchesUnpricedSelection(selected: seq<string>, seats: seq<Seat>, t: TripType, fallback: Money, adults: nat)
    requires |selected| == (if adults > 1 then adults else 1)
    requires forall i | 0 <= i < |selected| :: !Priced(seats, selected[i], t)
    ensures SeatTotal(selected, seats, t, fallback, adults) == SeatTotal([], seats, t, fallback, adults)
  {
    UnpricedSelectionCost(selected, seats, t, fallback);
    TimesIsProduct(|selected|, fallback);
  }

  /** The effect that copies the computed total into the displayed total: it
      is skipped while seats are selected but no seat data is loaded. */
  function SyncTotal(displayed: Money, q: Quote): (r: Money)
    ensures r == displayed || r == ComputedTotal(q)
    ensures r != ComputedTotal(q) ==> |q.selected| > 0 && |q.seats| == 0
  {
    if |q.selected| > 0 && |q.seats| == 0 then displayed else ComputedTotal(q)
  }

  /** Running the effect twice is the same as running it once. */
  lemma SyncTotalSettles(displayed: Money, q: Quote)
    ensures SyncTotal(SyncTotal(displayed, q), q) == SyncTotal(displayed, q)
  {
  }

  /** The trip-type correction applied to a quote, with the two trip-level
      prices as inputs. */
  function CorrectTripType(q: Quote): (r: Quote)
    ensures r == q.(tripType := r.tripType)
    ensures SelectedPrice(q.trip, q.labelPrices, q.seats, r.tripType).Some?
      <==> TripPrice(q.trip, q.labelPrices, q.seats, OneWay).Some? || TripPrice(q.trip, q.labelPrices, q.seats, RoundTrip).Some?
  {
    var ow := TripPrice(q.trip, q.labelPrices, q.seats, OneWay);
    var rt := TripPrice(q.trip, q.labelPrices, q.seats, RoundTrip);
    var t := AutoSwitch(q.tripType, ow, rt);
    assert PriceForType(t, ow, rt) == SelectedPrice(q.trip, q.labelPrices, q.seats, t);
    q.(tripType := t)
  }

  /** Once corrected, a quote is not corrected again. */
  lemma CorrectTripTypeSettles(q: Quote)
    ensures CorrectTripType(CorrectTripType(q)) == CorrectTripType(q)
  {
    var ow := TripPrice(q.trip, q.labelPrices, q.seats, OneWay);
    var rt := TripPrice(q.trip, q.labelPrices, q.seats, RoundTrip);
    AutoSwitchSettles(q.tripType, ow, rt);
  }

  /** No price field anywhere is negative. */
  predicate NonnegOption(x: Option<Money>) {
    x.Some? ==> x.value >= 0.0
  }

  predicate NonnegPrices(p: Prices) {
    NonnegOption(p.oneWayBasePrice) && NonnegOption(p.roundTripBasePrice)
    && NonnegOption(p.effectivePrice) && NonnegOption(p.seatPrice)
  }

  predicate NonnegQuote(q: Quote) {
    && NonnegOption(q.trip.basePrice) && NonnegOption(q.trip.oneWayBasePrice)
    && NonnegOption(q.trip.roundTripBasePrice) && NonnegOption(q.trip.infantPrice)
    && NonnegOption(q.labelPrices.oneWay) && NonnegOption(q.labelPrices.roundTrip)
    && (forall r | r in TripSeatMap(q.trip) :: NonnegPrices(r.prices))
    && NonnegSeats(q.seats)
  }

  lemma PickSeatPriceNonneg(p: Prices, t: TripType)
    requires NonnegPrices(p)
    ensures NonnegOption(PickSeatPrice(Some(p), t))
  {
    var r := PickSeatPrice(Some(p), t);
    if r.Some? {
      FirstDefinedIsListed(SeatPriceSources(p, t), r);
    }
  }

  lemma FirstPricedSeatNonneg(ps: seq<Prices>, t: TripType)
    requires forall i | 0 <= i < |ps| :: NonnegPrices(ps[i])
    ensures NonnegOption(FirstPricedSeat(ps, t))
  {
    var r := FirstPricedSeat(ps, t);
    if r.Some? {
      var i :| 0 <= i < |ps| && r == PickSeatPrice(Some(ps[i]), t)
               && forall j | 0 <= j < i :: PickSeatPrice(Some(ps[j]), t).None?;
      PickSeatPriceNonneg(ps[i], t);
    }
  }

  lemma TripPriceNonneg(q: Quote, t: TripType)
    requires NonnegQuote(q)
    ensures NonnegOption(TripPrice(q.trip, q.labelPrices, q.seats, t))
  {
    var xs := TripPriceSources(q.trip, q.labelPrices, q.seats, t);
    SourcesNonneg(q, t);
    FirstDefinedNonneg(xs, TripPrice(q.trip, q.labelPrices, q.seats, t));
  }

  /** Each source of a trip-level price is nonnegative when the quote is. */
  lemma SourcesNonneg(q: Quote, t: TripType)
    requires NonnegQuote(q)
    ensures forall x | x in TripPriceSources(q.trip, q.labelPrices, q.seats, t) :: NonnegOption(x)
  {
    var ps := SeatPrices(q.seats);
    var raws := TripSeatMap(q.trip);
    var rs := RawPrices(raws);
    assert forall i | 0 <= i < |ps| :: NonnegPrices(ps[i]) by {
      forall i | 0 <= i < |ps| ensures NonnegPrices(ps[i]) { assert q.seats[i] in q.seats; }
    }
    assert forall i | 0 <= i < |rs| :: NonnegPrices(rs[i]) by {
      forall i | 0 <= i < |rs| ensures NonnegPrices(rs[i]) { assert raws[i] in raws; }
    }
    FirstPricedSeatNonneg(ps, t);
    FirstPricedSeatNonneg(rs, t);
  }

  /** The first defined entry of a chain of nonnegative prices is nonnegative. */
  lemma FirstDefinedNonneg(xs: seq<Option<Money>>, r: Option<Money>)
    requires IsFirstDefined(xs, r)
    requires forall x | x in xs :: NonnegOption(x)
    ensures NonnegOption(r)
  {
    if r.Some? {
      FirstDefinedIsListed(xs, r);
    }
  }

  /** Every loaded seat has nonnegative prices. */
  predicate NonnegSeats(seats: seq<Seat>) {
    forall s | s in seats :: NonnegPrices(s.prices)
  }

  lemma {:induction false} SumOfUnitPricesNonneg(selected: seq<string>, seats: seq<Seat>, t: TripType, fallback: Money)
    requires NonnegSeats(seats) && fallback >= 0.0
    ensures SumOfUnitPrices(selected, seats, t, fallback) >= 0.0
  {
    if |selected| > 0 {
      var n := |selected| - 1;
      SumOfUnitPricesNonneg(selected[..n], seats, t, fallback);
      var f := FindSeat(seats, selected[n]);
      if f.Some? {
        PickSeatPriceNonneg(f.value.prices, t);
      }
    }
  }

  lemma ProductNonneg(a: real, b: real)
    requires a >= 0.0 && b >= 0.0
    ensures a * b >= 0.0
  {
  }

  lemma FallbackNonneg(q: Quote)
    requires NonnegQuote(q)
    ensures QuoteFallback(q) >= 0.0
  {
    TripPriceNonneg(q, q.tripType);
  }

  /** With nonnegative seat prices and a nonnegative fallback price, the seat
      total is nonnegative. */
  lemma SeatTotalNonnegWith(selected: seq<string>, seats: seq<Seat>, t: TripType, fallback: Money, adults: nat)
    requires NonnegSeats(seats) && fallback >= 0.0
    ensures SeatTotal(selected, seats, t, fallback, adults) >= 0.0
  {
    if |selected| > 0 {
      SumOfUnitPricesNonneg(selected, seats, t, fallback);
    } else {
      ProductNonneg(fallback, (if adults > 1 then adults else 1) as real);
    }
  }

  lemma SeatTotalNonneg(q: Quote)
    requires NonnegQuote(q)
    ensures SeatTotal(q.selected, q.seats, q.tripType, QuoteFallback(q), q.adults) >= 0.0
  {
    FallbackNonneg(q);
    SeatTotalNonnegWith(q.selected, q.seats, q.tripType, QuoteFallback(q), q.adults);
  }

  /** With no negative price anywhere, the booking total is never negative. */
  lemma TotalNonnegative(q: Quote)
    requires NonnegQuote(q)
    ensures ComputedTotal(q) >= 0.0
  {
    SeatTotalNonneg(q);
    ProductNonneg(q.trip.infantPrice.GetOr(0.0), q.infants as real);
  }
}
