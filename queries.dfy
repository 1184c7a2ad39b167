/**
  The read-only rider routes: `checkBuses`, `checkSeatsAvailability`,
  `getBookingDetails` and `myBookings`. Each filters a table; none writes.
 */
module Queries {
  import opened Tables
  import opened Access
  import Inventory

  /** The buses running from `start` to `end`, in table order. */
  function BusesBetween(buses: seq<Bus>, start: string, end: string): (r: seq<Bus>)
    ensures forall b :: b in r <==> b in buses && b.startStation == start && b.endStation == end
    ensures |r| <= |buses|
    ensures multiset(r) <= multiset(buses)
    ensures forall b: Bus :: b.startStation == start && b.endStation == end ==> multiset(r)[b] == multiset(buses)[b]
  {
    if buses == [] then []
    else
      var rest := BusesBetween(buses[1..], start, end);
      assert buses == [buses[0]] + buses[1..];
      if buses[0].startStation == start && buses[0].endStation == end then [buses[0]] + rest else rest
  }

  /**
    `checkBuses`: both stations are required; otherwise every bus on that
    route, and an empty answer is a success.
   */
  function CheckBuses(buses: seq<Bus>, start: Option<string>, end: Option<string>): (r: Result<seq<Bus>>)
    ensures r.Err? <==> !Given(start) || !Given(end)
    ensures r.Err? ==> r.error == MissingFields
    ensures r.Ok? ==> forall b :: b in r.value <==> b in buses && b.startStation == start.value && b.endStation == end.value
    ensures r.Ok? ==> multiset(r.value) <= multiset(buses)
  {
    if !Given(start) || !Given(end) then Err(MissingFields)
    else Ok(BusesBetween(buses, start.value, end.value))
  }

  datatype Seats = Seats(available: int, filled: int)

  /** `checkSeatsAvailability`: the two seat counters of the bus with that id. */
  function CheckSeatsAvailability(buses: seq<Bus>, busId: Option<int>): (r: Result<Seats>)
    ensures !Truthy(busId) ==> r == Err(MissingFields)
    ensures Truthy(busId) && (forall i :: 0 <= i < |buses| ==> buses[i].id != busId.value) ==> r == Err(BusNotFound)
    ensures r.Ok? <==> Truthy(busId) && exists i :: 0 <= i < |buses| && buses[i].id == busId.value
    ensures r.Ok? ==> exists i :: 0 <= i < |buses| && buses[i].id == busId.value
                        && r.value == Seats(buses[i].seatsAvailable, buses[i].seatsFilled)
    ensures r.Err? ==> r.error in {MissingFields, BusNotFound}
  {
    if !Truthy(busId) then Err(MissingFields)
    else match BusById(buses, busId.value)
      case None => Err(BusNotFound)
      case Some(bus) => Ok(Seats(bus.seatsAvailable, bus.seatsFilled))
  }

  /**
    `getBookingDetails`: a booking id is required, and the answer is a row
    carrying it; no row carrying it is an error.
   */
  function GetBookingDetails(bookings: seq<Booking>, bookingId: Option<string>): (r: Result<Booking>)
    ensures !Given(bookingId) ==> r == Err(MissingFields)
    ensures r == Err(BookingNotFound) <==>
      Given(bookingId) && forall i :: 0 <= i < |bookings| ==> bookings[i].bookingId != bookingId.value
    ensures r.Ok? <==> Given(bookingId) && exists i :: 0 <= i < |bookings| && bookings[i].bookingId == bookingId.value
    ensures r.Ok? ==> r.value in bookings && r.value.bookingId == bookingId.value
  {
    if !Given(bookingId) then Err(MissingFields)
    else match FirstWhere(bookings, (b: Booking) => b.bookingId == bookingId.value)
      case None => Err(BookingNotFound)
      case Some(k) => Ok(bookings[k])
  }

  /**
    The bookings made under `email`, newest first. Over a table whose ids
    increase with insertion order (as SERIAL ids do) this is the order
    `ORDER BY id DESC` gives.
   */
  function NewestFirst(bookings: seq<Booking>, email: string): (r: seq<Booking>)
    ensures forall b :: b in r <==> b in bookings && b.userEmail == email
    ensures IncreasingBy(bookings, BookingKey) ==> DecreasingBy(r, BookingKey)
  {
    if bookings == [] then []
    else
      var rest := NewestFirst(bookings[..|bookings| - 1], email);
      NewestFirstStep(bookings, email, rest);
      var last := bookings[|bookings| - 1];
      if last.userEmail == email then [last] + rest else rest
  }

  /**
    One step of `NewestFirst`: putting the last row (if it is the caller's)
    in front of the list for the earlier rows keeps exactly the caller's
    rows, and keeps them newest first.
   */
  lemma NewestFirstStep(bookings: seq<Booking>, email: string, rest: seq<Booking>)
    requires bookings != []
    requires forall b :: b in rest <==> b in bookings[..|bookings| - 1] && b.userEmail == email
    requires IncreasingBy(bookings[..|bookings| - 1], BookingKey) ==> DecreasingBy(rest, BookingKey)
    ensures var last := bookings[|bookings| - 1];
            var r := if last.userEmail == email then [last] + rest else rest;
            && (forall b :: b in r <==> b in bookings && b.userEmail == email)
            && (IncreasingBy(bookings, BookingKey) ==> DecreasingBy(r, BookingKey))
  {
    var init, last := bookings[..|bookings| - 1], bookings[|bookings| - 1];
    assert bookings == init + [last];
    if IncreasingBy(bookings, BookingKey) {
      assert IncreasingBy(init, BookingKey);
      forall b | b in rest ensures BookingKey(b) < BookingKey(last) {
        var k :| 0 <= k < |init| && init[k] == b;
        assert bookings[k] == b;
      }
    }
  }

  /**
    `myBookings`: the caller's bookings, newest first; having none is an
    error, not an empty list.
   */
  function MyBookings(bookings: seq<Booking>, email: string): (r: Result<seq<Booking>>)
    ensures r.Err? <==> forall i :: 0 <= i < |bookings| ==> bookings[i].userEmail != email
    ensures r.Err? ==> r.error == NoBookings
    ensures r.Ok? ==> r.value != [] && forall b :: b in r.value <==> b in bookings && b.userEmail == email
    ensures r.Ok? && IncreasingBy(bookings, BookingKey) ==> DecreasingBy(r.value, BookingKey)
  {
    var mine := NewestFirst(bookings, email);
    if mine == [] then
      assert forall i :: 0 <= i < |bookings| ==> bookings[i].userEmail != email by {
        forall i | 0 <= i < |bookings| ensures bookings[i].userEmail != email {
          assert bookings[i] in bookings;
        }
      }
      Err(NoBookings)
    else
      assert mine[0] in bookings && mine[0].userEmail == email;
      Ok(mine)
  }

  /** The `checkBuses` route: the rider gate, then `CheckBuses`. */
  function CheckBusesRoute(users: seq<User>, buses: seq<Bus>, token: Token,
                           start: Option<string>, end: Option<string>): (r: Result<seq<Bus>>)
    ensures ProtectRoute(users, token).Err? ==> r == Err(ProtectRoute(users, token).error)
    ensures ProtectRoute(users, token).Ok? && (!Given(start) || !Given(end)) ==> r == Err(MissingFields)
    ensures r.Ok? <==> ProtectRoute(users, token).Ok? && Given(start) && Given(end)
    ensures r.Ok? ==> forall b :: b in r.value <==> b in buses && b.startStation == start.value && b.endStation == end.value
    ensures r.Ok? ==> multiset(r.value) <= multiset(buses)
  {
    match ProtectRoute(users, token)
    case Err(e) => Err(e)
    case Ok(_) => CheckBuses(buses, start, end)
  }

  /** The `checkSeatsAvailability` route: the rider gate, then `CheckSeatsAvailability`. */
  function CheckSeatsAvailabilityRoute(users: seq<User>, buses: seq<Bus>, token: Token,
                                       busId: Option<int>): (r: Result<Seats>)
    ensures ProtectRoute(users, token).Err? ==> r == Err(ProtectRoute(users, token).error)
    ensures ProtectRoute(users, token).Ok? && !Truthy(busId) ==> r == Err(MissingFields)
    ensures && ProtectRoute(users, token).Ok? && Truthy(busId)
            && (forall i :: 0 <= i < |buses| ==> buses[i].id != busId.value)
            ==> r == Err(BusNotFound)
    ensures r.Ok? <==>
      ProtectRoute(users, token).Ok? && Truthy(busId) && exists i :: 0 <= i < |buses| && buses[i].id == busId.value
    ensures r.Ok? ==> exists i :: 0 <= i < |buses| && buses[i].id == busId.value
                        && r.value == Seats(buses[i].seatsAvailable, buses[i].seatsFilled)
  {
    match ProtectRoute(users, token)
    case Err(e) => Err(e)
    case Ok(_) => CheckSeatsAvailability(buses, busId)
  }

  /** The `getBookingDetails` route: the rider gate, then `GetBookingDetails`. */
  function GetBookingDetailsRoute(users: seq<User>, bookings: seq<Booking>, token: Token,
                                  bookingId: Option<string>): (r: Result<Booking>)
    ensures ProtectRoute(users, token).Err? ==> r == Err(ProtectRoute(users, token).error)
    ensures ProtectRoute(users, token).Ok? && !Given(bookingId) ==> r == Err(MissingFields)
    ensures && ProtectRoute(users, token).Ok? && Given(bookingId)
            && (forall i :: 0 <= i < |bookings| ==> bookings[i].bookingId != bookingId.value)
            ==> r == Err(BookingNotFound)
    ensures r.Ok? <==>
      && ProtectRoute(users, token).Ok? && Given(bookingId)
      && exists i :: 0 <= i < |bookings| && bookings[i].bookingId == bookingId.value
    ensures r.Ok? ==> r.value in bookings && r.value.bookingId == bookingId.value
  {
    match ProtectRoute(users, token)
    case Err(e) => Err(e)
    case Ok(_) => GetBookingDetails(bookings, bookingId)
  }

  /**
    The `myBookings` route: the rider gate, then the admitted rider's own
    bookings, newest first; a rider with none gets an error.
   */
  function MyBookingsRoute(users: seq<User>, bookings: seq<Booking>, token: Token): (r: Result<seq<Booking>>)
    ensures ProtectRoute(users, token).Err? ==> r == Err(ProtectRoute(users, token).error)
    ensures r.Ok? <==>
      && ProtectRoute(users, token).Ok?
      && exists i :: 0 <= i < |bookings| && bookings[i].userEmail == ProtectRoute(users, token).value.email
    ensures ProtectRoute(users, token).Ok? && r.Err? ==> r.error == NoBookings
    ensures r.Ok? ==> r.value != [] && forall b :: b in r.value <==>
      b in bookings && b.userEmail == ProtectRoute(users, token).value.email
    ensures r.Ok? && IncreasingBy(bookings, BookingKey) ==> DecreasingBy(r.value, BookingKey)
  {
    match ProtectRoute(users, token)
    case Err(e) => Err(e)
    case Ok(rider) => MyBookings(bookings, rider.email)
  }

  /**
    After a booking is accepted and the bus's seats_filled is set to the new
    count (`newSeatsFilled` in the handler), the seat query for that bus
    reports the new count, which fits the bus's capacity.
   */
  lemma BookingShowsInSeats(buses: seq<Bus>, busId: Option<int>, seats: Option<int>, bus: Bus, newFilled: int)
    requires Inventory.CheckBooking(buses, busId, seats) == Ok(bus)
    requires newFilled == bus.seatsFilled + seats.value
    ensures newFilled <= bus.seatsAvailable
    ensures CheckSeatsAvailability(SetSeatsFilled(buses, bus.id, newFilled), busId) == Ok(Seats(bus.seatsAvailable, newFilled))
  {
    SeatsAfterFill(buses, busId, bus, newFilled);
  }

  /** After the seats_filled update of the bus the lookup finds, the seat query reports the new count. */
  lemma SeatsAfterFill(buses: seq<Bus>, busId: Option<int>, bus: Bus, filled: int)
    requires Truthy(busId) && BusById(buses, busId.value) == Some(bus)
    ensures CheckSeatsAvailability(SetSeatsFilled(buses, bus.id, filled), busId) == Ok(Seats(bus.seatsAvailable, filled))
  {
    SeatsFilledLookup(buses, bus.id, filled, busId.value);
  }

  /** Booking seats on one bus leaves the seat query of every other bus as it was. */
  lemma BookingLeavesOtherSeats(buses: seq<Bus>, id: int, filled: int, other: Option<int>)
    requires Truthy(other) && other.value != id
    ensures CheckSeatsAvailability(SetSeatsFilled(buses, id, filled), other) == CheckSeatsAvailability(buses, other)
  {
    SeatsFilledLookup(buses, id, filled, other.value);
  }

  /** A new booking heads its rider's list; the rest of the list is as before. */
  lemma {:induction false} NewBookingListedFirst(bookings: seq<Booking>, b: Booking)
    ensures MyBookings(bookings + [b], b.userEmail) == Ok([b] + NewestFirst(bookings, b.userEmail))
  {
    assert (bookings + [b])[..|bookings|] == bookings;
  }

  /** A new booking does not change any other rider's list. */
  lemma {:induction false} NewBookingInvisibleToOthers(bookings: seq<Booking>, b: Booking, email: string)
    requires email != b.userEmail
    ensures MyBookings(bookings + [b], email) == MyBookings(bookings, email)
  {
    assert (bookings + [b])[..|bookings|] == bookings;
  }

  /**
    A new booking can be looked up by its booking id; the answer is the new
    booking itself unless an older booking already carries the same id.
   */
  lemma NewBookingFound(bookings: seq<Booking>, b: Booking)
    requires b.bookingId != ""
    ensures GetBookingDetails(bookings + [b], Some(b.bookingId)).Ok?
    ensures GetBookingDetails(bookings + [b], Some(b.bookingId)).value.bookingId == b.bookingId
    ensures (forall i :: 0 <= i < |bookings| ==> bookings[i].bookingId != b.bookingId)
        ==> GetBookingDetails(bookings + [b], Some(b.bookingId)) == Ok(b)
  {
    var rows := bookings + [b];
    assert rows[|bookings|] == b;
    if forall i :: 0 <= i < |bookings| ==> bookings[i].bookingId != b.bookingId {
      var k := FirstWhere(rows, (x: Booking) => x.bookingId == b.bookingId);
      assert k.Some? && k.value <= |bookings|;
    }
  }
}
