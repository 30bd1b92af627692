/** Seats as the booking modal sees them: the raw seat-map entries a trip
    carries, the normalised seats the modal loads from them, and the per-seat
    price resolution `pickSeatPrice`. */
module Seats {
  import opened Common
  import opened Uuid

  /** The trip type the user books. */
  datatype TripType = OneWay | RoundTrip {
    function Other(): (o: TripType)
      ensures o != this
    {
      if OneWay? then RoundTrip else OneWay
    }
  }

  /** The optional price fields a seat record may carry. */
  datatype Prices = Prices(
    oneWayBasePrice: Option<Money>,
    roundTripBasePrice: Option<Money>,
    effectivePrice: Option<Money>,
    seatPrice: Option<Money>)

  /** A seat-map entry as the caller or the backend supplies it: the id may be
      missing and the availability flag may not be a boolean. */
  datatype RawSeat = RawSeat(
    id: Option<string>,
    seatNumber: Option<string>,
    isAvailable: Option<bool>,
    prices: Prices)

  /** A loaded seat, the `SeatInfo` shape. */
  datatype Seat = Seat(
    id: string,
    seatNumber: Option<string>,
    isAvailable: bool,
    prices: Prices)

  /** The seat's explicit price for trip type `t`. */
  function TypedPrice(p: Prices, t: TripType): Option<Money> {
    if t.RoundTrip? then p.roundTripBasePrice else p.oneWayBasePrice
  }

  /** The resolvers `pickSeatPrice` tries, in order: the trip-type price, the
      generic `effectivePrice` and `seatPrice`, and last the other trip type's
      price. */
  function SeatPriceSources(p: Prices, t: TripType): seq<Option<Money>> {
    [TypedPrice(p, t), p.effectivePrice, p.seatPrice, TypedPrice(p, t.Other())]
  }

  /** `pickSeatPrice(seat, tripType)`; a missing seat has no price. */
  function PickSeatPrice(seat: Option<Prices>, t: TripType): (r: Option<Money>)
    ensures seat.None? ==> r.None?
    ensures seat.Some? ==> IsFirstDefined(SeatPriceSources(seat.value, t), r)
  {
    match seat
    case None => None
    case Some(p) => Coalesce(SeatPriceSources(p, t))
  }

  /** `pickSeatPrice` as the source writes it: the typed price, then
      `effectivePrice`, then `seatPrice`, then the other type's price. */
  lemma PickSeatPriceChain(p: Prices, t: TripType)
    ensures PickSeatPrice(Some(p), t)
      == TypedPrice(p, t).OrElse(p.effectivePrice).OrElse(p.seatPrice).OrElse(TypedPrice(p, t.Other()))
  {
    CoalesceChain4(TypedPrice(p, t), p.effectivePrice, p.seatPrice, TypedPrice(p, t.Other()));
  }

  /** A seat-specific price for the requested trip type always wins. */
  lemma TypedPriceWins(p: Prices, t: TripType)
    requires TypedPrice(p, t).Some?
    ensures PickSeatPrice(Some(p), t) == TypedPrice(p, t)
  {
    FirstDefinedUnique(SeatPriceSources(p, t), PickSeatPrice(Some(p), t), TypedPrice(p, t));
  }

  /** The generic fields are preferred over the other trip type's price:
      when the seat has no price of the requested type but a generic one, the
      generic one is used, `effectivePrice` first. */
  lemma GenericBeforeCrossType(p: Prices, t: TripType)
    requires TypedPrice(p, t).None?
    requires p.effectivePrice.Some? || p.seatPrice.Some?
    ensures PickSeatPrice(Some(p), t) == if p.effectivePrice.Some? then p.effectivePrice else p.seatPrice
  {
    PickSeatPriceChain(p, t);
  }

  /** The ids of a seat list. */
  function Ids(seats: seq<Seat>): set<string> {
    set s | s in seats :: s.id
  }

  /** `seats.find((s) => s.id === id)`: the first seat with that id. */
  function FindSeat(seats: seq<Seat>, id: string): (r: Option<Seat>)
    ensures r.None? <==> id !in Ids(seats)
    ensures r.Some? ==> exists i | 0 <= i < |seats| ::
      seats[i] == r.value && r.value.id == id && forall j | 0 <= j < i :: seats[j].id != id
  {
    if |seats| == 0 then None
    else if seats[0].id == id then Some(seats[0])
    else
      var r := FindSeat(seats[1..], id);
      assert Ids(seats) == {seats[0].id} + Ids(seats[1..]) by {
        assert seats == [seats[0]] + seats[1..];
      }
      if r.Some? then
        var i :| 0 <= i < |seats[1..]| && seats[1..][i] == r.value && r.value.id == id
                 && forall j | 0 <= j < i :: seats[1..][j].id != id;
        assert seats[i + 1] == r.value;
        assert forall j | 0 <= j < i + 1 :: seats[j].id != id by {
          forall j | 0 <= j < i + 1 ensures seats[j].id != id {
            if j > 0 { assert seats[j] == seats[1..][j - 1]; }
          }
        }
        r
      else r
  }

  /** The normalisation of one seat-map entry: availability defaults to true
      unless it is a boolean, the one-way price is filled from
      `effectivePrice` and then `seatPrice`, and the generic fields are not
      carried over. */
  function NormalizeSeat(raw: RawSeat): (s: Seat)
    requires raw.id.Some?
    ensures s.id == raw.id.value && s.seatNumber == raw.seatNumber
    ensures !s.isAvailable <==> raw.isAvailable == Some(false)
    ensures IsFirstDefined([raw.prices.oneWayBasePrice, raw.prices.effectivePrice, raw.prices.seatPrice],
                           s.prices.oneWayBasePrice)
    ensures s.prices.roundTripBasePrice == raw.prices.roundTripBasePrice
    ensures s.prices.effectivePrice.None? && s.prices.seatPrice.None?
  {
    var p := raw.prices;
    var oneWay := p.oneWayBasePrice.OrElse(p.effectivePrice).OrElse(p.seatPrice);
    assert IsFirstDefined([p.oneWayBasePrice, p.effectivePrice, p.seatPrice], oneWay) by {
      var xs := [p.oneWayBasePrice, p.effectivePrice, p.seatPrice];
      assert xs[0] == p.oneWayBasePrice && xs[1] == p.effectivePrice && xs[2] == p.seatPrice;
    }
    Seat(raw.id.value, raw.seatNumber, raw.isAvailable.GetOr(true),
         Prices(oneWay, p.roundTripBasePrice, None, None))
  }

  /** An entry survives normalisation when it has a UUID-shaped id. */
  predicate Accepted(raw: RawSeat) {
    raw.id.Some? && IsValidUuid(raw.id.value)
  }

  /** The seat list loaded from a seat map: normalised entries whose id is
      UUID-shaped, in seat-map order. */
  function NormalizeSeats(raws: seq<RawSeat>): (seats: seq<Seat>)
    ensures |seats| <= |raws|
    ensures forall s | s in seats :: IsValidUuid(s.id)
    ensures forall r | r in raws && Accepted(r) :: NormalizeSeat(r) in seats
    ensures forall s | s in seats :: exists r | r in raws && Accepted(r) :: s == NormalizeSeat(r)
    ensures |seats| == 0 <==> forall r | r in raws :: !Accepted(r)
  {
    if |raws| == 0 then []
    else
      var rest := NormalizeSeats(raws[1..]);
      assert forall r | r in raws[1..] :: r in raws;
      assert forall r | r in raws :: r == raws[0] || r in raws[1..];
      if Accepted(raws[0]) then [NormalizeSeat(raws[0])] + rest else rest
  }

  /** Every index moved one place to the right. */
  function Shift(idx: seq<nat>): (r: seq<nat>)
    ensures |r| == |idx| && forall j | 0 <= j < |idx| :: r[j] == idx[j] + 1
  {
    if |idx| == 0 then [] else [idx[0] + 1] + Shift(idx[1..])
  }

  /** The positions of the accepted entries of a seat map, front to back. */
  function AcceptedIndices(raws: seq<RawSeat>): (idx: seq<nat>)
    ensures |idx| <= |raws|
  {
    if |raws| == 0 then []
    else
      var rest := Shift(AcceptedIndices(raws[1..]));
      if Accepted(raws[0]) then [0] + rest else rest
  }

  /** Every listed position holds an accepted entry. */
  lemma {:induction false} IndicesAccepted(raws: seq<RawSeat>)
    ensures forall j | 0 <= j < |AcceptedIndices(raws)| ::
      AcceptedIndices(raws)[j] < |raws| && Accepted(raws[AcceptedIndices(raws)[j]])
  {
    if |raws| > 0 {
      var tail := raws[1..];
      IndicesAccepted(tail);
      var ti := AcceptedIndices(tail);
      assert forall j | 0 <= j < |ti| :: raws[ti[j] + 1] == tail[ti[j]];
    }
  }

  /** The positions are listed in increasing order. */
  lemma {:induction false} IndicesIncreasing(raws: seq<RawSeat>)
    ensures forall j, k | 0 <= j < k < |AcceptedIndices(raws)| ::
      AcceptedIndices(raws)[j] < AcceptedIndices(raws)[k]
  {
    if |raws| > 0 {
      IndicesIncreasing(raws[1..]);
    }
  }

  /** Every accepted entry's position is listed. */
  lemma {:induction false} IndicesComplete(raws: seq<RawSeat>)
    ensures forall i | 0 <= i < |raws| && Accepted(raws[i]) :: i in AcceptedIndices(raws)
  {
    if |raws| > 0 {
      var tail := raws[1..];
      IndicesComplete(tail);
      var ti := AcceptedIndices(tail);
      var rest := Shift(ti);
      forall i | 1 <= i < |raws| && Accepted(raws[i]) ensures i in rest {
        assert tail[i - 1] == raws[i];
        var j :| 0 <= j < |ti| && ti[j] == i - 1;
        assert rest[j] == i;
      }
    }
  }

  /** Normalisation keeps seat-map order and multiplicity: the `j`-th loaded
      seat is the normalisation of the `j`-th accepted entry, where the
      accepted entries are listed at increasing positions and none is
      skipped. */
  lemma NormalizeSeatsIndexed(raws: seq<RawSeat>)
    ensures forall j | 0 <= j < |AcceptedIndices(raws)| ::
      AcceptedIndices(raws)[j] < |raws| && Accepted(raws[AcceptedIndices(raws)[j]])
    ensures forall j, k | 0 <= j < k < |AcceptedIndices(raws)| ::
      AcceptedIndices(raws)[j] < AcceptedIndices(raws)[k]
    ensures forall i | 0 <= i < |raws| && Accepted(raws[i]) :: i in AcceptedIndices(raws)
    ensures Matches(raws, NormalizeSeats(raws), AcceptedIndices(raws))
  {
    IndicesAccepted(raws);
    IndicesIncreasing(raws);
    IndicesComplete(raws);
    NormalizeSeatsAtIndices(raws);
  }

  /** The `j`-th of `seats` is the normalisation of the entry at `idx[j]`. */
  predicate Matches(raws: seq<RawSeat>, seats: seq<Seat>, idx: seq<nat>) {
    && |seats| == |idx|
    && forall j | 0 <= j < |idx| ::
         idx[j] < |raws| && raws[idx[j]].id.Some? && seats[j] == NormalizeSeat(raws[idx[j]])
  }

  /** The correspondence itself, by induction on the seat map. */
  lemma {:induction false} NormalizeSeatsAtIndices(raws: seq<RawSeat>)
    ensures Matches(raws, NormalizeSeats(raws), AcceptedIndices(raws))
  {
    if |raws| > 0 {
      var tail := raws[1..];
      NormalizeSeatsAtIndices(tail);
      if Accepted(raws[0]) {
        MatchesCons(raws, NormalizeSeats(tail), AcceptedIndices(tail));
      } else {
        MatchesSkip(raws, NormalizeSeats(tail), AcceptedIndices(tail));
      }
    }
  }

  /** An accepted first entry becomes the first seat; the rest shift by one. */
  lemma MatchesCons(raws: seq<RawSeat>, st: seq<Seat>, ti: seq<nat>)
    requires |raws| > 0 && Accepted(raws[0]) && Matches(raws[1..], st, ti)
    ensures Matches(raws, [NormalizeSeat(raws[0])] + st, [0] + Shift(ti))
  {
    var seats := [NormalizeSeat(raws[0])] + st;
    var idx := [0] + Shift(ti);
    forall j | 1 <= j < |idx|
      ensures idx[j] < |raws| && raws[idx[j]].id.Some? && seats[j] == NormalizeSeat(raws[idx[j]])
    {
      assert idx[j] == ti[j - 1] + 1;
      assert raws[idx[j]] == raws[1..][ti[j - 1]];
    }
  }

  /** A rejected first entry leaves no seat; the rest shift by one. */
  lemma MatchesSkip(raws: seq<RawSeat>, st: seq<Seat>, ti: seq<nat>)
    requires |raws| > 0 && Matches(raws[1..], st, ti)
    ensures Matches(raws, st, Shift(ti))
  {
    var idx := Shift(ti);
    forall j | 0 <= j < |idx|
      ensures idx[j] < |raws| && raws[idx[j]].id.Some? && st[j] == NormalizeSeat(raws[idx[j]])
    {
      assert raws[idx[j]] == raws[1..][ti[j]];
    }
  }

  /** Normalisation keeps the one-way price of every accepted seat. */
  lemma NormalizeKeepsOneWayPrice(raw: RawSeat)
    requires raw.id.Some?
    ensures PickSeatPrice(Some(NormalizeSeat(raw).prices), OneWay) == PickSeatPrice(Some(raw.prices), OneWay)
  {
    PickSeatPriceChain(NormalizeSeat(raw).prices, OneWay);
    PickSeatPriceChain(raw.prices, OneWay);
  }

  /** For a loaded seat the round-trip price resolves in the order
      `roundTripBasePrice`, `oneWayBasePrice`, `effectivePrice`, `seatPrice`:
      normalisation moves the generic fields behind the one-way price. */
  lemma NormalizedRoundTripOrder(raw: RawSeat)
    requires raw.id.Some?
    ensures var p := raw.prices;
      IsFirstDefined([p.roundTripBasePrice, p.oneWayBasePrice, p.effectivePrice, p.seatPrice],
                     PickSeatPrice(Some(NormalizeSeat(raw).prices), RoundTrip))
  {
    var p := raw.prices;
    PickSeatPriceChain(NormalizeSeat(raw).prices, RoundTrip);
    FirstDefinedChain4(p.roundTripBasePrice, p.oneWayBasePrice, p.effectivePrice, p.seatPrice);
  }

  /** The consequence: a loaded seat with a one-way and an effective price but
      no round-trip price is charged its one-way price for a round trip, while
      the same seat-map entry resolves to its effective price. */
  lemma NormalizedRoundTripDiverges(raw: RawSeat)
    requires raw.id.Some?
    requires raw.prices.roundTripBasePrice.None?
    requires raw.prices.oneWayBasePrice.Some? && raw.prices.effectivePrice.Some?
    ensures PickSeatPrice(Some(NormalizeSeat(raw).prices), RoundTrip) == raw.prices.oneWayBasePrice
    ensures PickSeatPrice(Some(raw.prices), RoundTrip) == raw.prices.effectivePrice
  {
    PickSeatPriceChain(NormalizeSeat(raw).prices, RoundTrip);
    PickSeatPriceChain(raw.prices, RoundTrip);
  }
}
