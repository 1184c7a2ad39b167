/**
  The checks the inventory and booking handlers make before they write:
  `bookTickets` (four refusals, then the bus row to book against) and
  `modifyAvailability` (three refusals, then the bus row to resize), and what
  the writes that follow them do to the capacity invariant.
 */
module Inventory {
  import opened Tables

  /**
    `bookTickets` before it writes: refuses a falsy bus id or seat count, an
    unknown bus, a bus that is exactly full, and a request that would fill
    more seats than the bus has; otherwise yields the bus row to book against.
    A negative seat count is not refused.
   */
  function CheckBooking(buses: seq<Bus>, busId: Option<int>, seats: Option<int>): (r: Result<Bus>)
    ensures r.Ok? ==> Truthy(busId) && Truthy(seats) && BusById(buses, busId.value) == Some(r.value)
    ensures r.Ok? ==> r.value.seatsFilled != r.value.seatsAvailable
    ensures r.Ok? ==> r.value.seatsFilled + seats.value <= r.value.seatsAvailable
    ensures r.Err? ==> r.error in {MissingFields, BusNotFound, SeatsAlreadyFilled, NotEnoughSeats}
  {
    if !Truthy(busId) || !Truthy(seats) then Err(MissingFields)
    else match BusById(buses, busId.value)
      case None => Err(BusNotFound)
      case Some(bus) =>
        if bus.seatsAvailable == bus.seatsFilled then Err(SeatsAlreadyFilled)
        else if bus.seatsFilled + seats.value > bus.seatsAvailable then Err(NotEnoughSeats)
        else Ok(bus)
  }

  /** The four ways a booking is refused, each exactly when its condition holds. */
  lemma BookingRefusals(buses: seq<Bus>, busId: Option<int>, seats: Option<int>)
    ensures CheckBooking(buses, busId, seats) == Err(MissingFields) <==> !Truthy(busId) || !Truthy(seats)
    ensures CheckBooking(buses, busId, seats) == Err(BusNotFound)
        <==> Truthy(busId) && Truthy(seats) && BusById(buses, busId.value).None?
    ensures CheckBooking(buses, busId, seats) == Err(SeatsAlreadyFilled)
        <==> && Truthy(busId) && Truthy(seats) && BusById(buses, busId.value).Some?
             && BusById(buses, busId.value).value.seatsFilled == BusById(buses, busId.value).value.seatsAvailable
    ensures CheckBooking(buses, busId, seats) == Err(NotEnoughSeats)
        <==> && Truthy(busId) && Truthy(seats) && BusById(buses, busId.value).Some?
             && var bus := BusById(buses, busId.value).value;
                bus.seatsFilled != bus.seatsAvailable && bus.seatsFilled + seats.value > bus.seatsAvailable
  {
  }

  /**
    The write a successful booking makes raises the booked bus's
    `seats_filled` by exactly the seat count, leaves every other bus as it
    was, and keeps the capacity invariant.
   */
  lemma BookingKeepsCapacity(buses: seq<Bus>, busId: Option<int>, seats: Option<int>)
    requires IncreasingBy(buses, BusKey)
    requires CheckBooking(buses, busId, seats).Ok?
    ensures var bus := CheckBooking(buses, busId, seats).value;
      var after := SetSeatsFilled(buses, bus.id, bus.seatsFilled + seats.value);
      && (forall i :: 0 <= i < |buses| ==>
            after[i] == if buses[i] == bus then bus.(seatsFilled := bus.seatsFilled + seats.value) else buses[i])
      && (WithinCapacity(buses) ==> WithinCapacity(after))
  {
    var bus := CheckBooking(buses, busId, seats).value;
    forall i | 0 <= i < |buses| && buses[i].id == bus.id
      ensures buses[i] == bus
    {
      BusByIdUnique(buses, i);
    }
  }

  /**
    Nothing bounds the seat count from below: on a bus that is not full a
    negative count is booked, and lowers `seats_filled`; only an exactly full
    bus refuses it.
   */
  lemma NegativeSeatsBooked(buses: seq<Bus>, busId: int, seats: int)
    requires busId != 0 && seats < 0
    requires WithinCapacity(buses) && BusById(buses, busId).Some?
    ensures var bus := BusById(buses, busId).value;
      CheckBooking(buses, Some(busId), Some(seats))
        == if bus.seatsFilled == bus.seatsAvailable then Err(SeatsAlreadyFilled) else Ok(bus)
  {
  }

  /**
    `modifyAvailability` before it writes: refuses a falsy id or capacity
    (so a capacity of 0 is refused), an unknown bus, and a capacity below the
    seats already filled; equality is allowed. Yields the bus row to resize.
   */
  function CheckCapacityChange(buses: seq<Bus>, id: Option<int>, available: Option<int>): (r: Result<Bus>)
    ensures !Truthy(id) || !Truthy(available) ==> r == Err(MissingFields)
    ensures r.Ok? ==> Truthy(id) && Truthy(available) && BusById(buses, id.value) == Some(r.value)
    ensures r.Ok? ==> r.value.seatsFilled <= available.value
    ensures r.Ok? <==>
      && Truthy(id) && Truthy(available) && BusById(buses, id.value).Some?
      && BusById(buses, id.value).value.seatsFilled <= available.value
    ensures r == Err(BusNotFound) <==> Truthy(id) && Truthy(available) && BusById(buses, id.value).None?
    ensures r == Err(BelowSeatsFilled) <==>
      Truthy(id) && Truthy(available) && BusById(buses, id.value).Some?
      && BusById(buses, id.value).value.seatsFilled > available.value
    ensures r.Err? ==> r.error in {MissingFields, BusNotFound, BelowSeatsFilled}
  {
    if !Truthy(id) || !Truthy(available) then Err(MissingFields)
    else match BusById(buses, id.value)
      case None => Err(BusNotFound)
      case Some(bus) =>
        if bus.seatsFilled > available.value then Err(BelowSeatsFilled) else Ok(bus)
  }

  /**
    The write a successful capacity change makes changes only
    `seats_available` of that one bus, and keeps the capacity invariant.
   */
  lemma CapacityChangeKeepsCapacity(buses: seq<Bus>, id: Option<int>, available: Option<int>)
    requires IncreasingBy(buses, BusKey)
    requires CheckCapacityChange(buses, id, available).Ok?
    ensures var bus := CheckCapacityChange(buses, id, available).value;
      var after := SetSeatsAvailable(buses, bus.id, available.value);
      && (forall i :: 0 <= i < |buses| ==>
            after[i] == if buses[i] == bus then bus.(seatsAvailable := available.value) else buses[i])
      && (WithinCapacity(buses) ==> WithinCapacity(after))
  {
    var bus := CheckCapacityChange(buses, id, available).value;
    forall i | 0 <= i < |buses| && buses[i].id == bus.id
      ensures buses[i] == bus
    {
      BusByIdUnique(buses, i);
    }
  }

  /**
    Appending a new bus with no seats filled keeps the capacity invariant
    exactly when its capacity is not negative.
   */
  lemma NewBusKeepsCapacity(buses: seq<Bus>, bus: Bus)
    requires WithinCapacity(buses) && bus.seatsFilled == 0
    ensures WithinCapacity(buses + [bus]) <==> bus.seatsAvailable >= 0
  {
    assert (buses + [bus])[|buses|] == bus;
  }
}
