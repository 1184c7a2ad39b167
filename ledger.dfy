/**
  The reservation store and its mutating routes. Each method is one route
  handler run after its middleware: the gate first, then the handler's
  checks, then its writes. A refused request writes nothing; this is what the
  handler's BEGIN/ROLLBACK and its early returns amount to for one request at
  a time.
 */
module Ledger {
  import opened Tables
  import opened KeyFormat
  import opened Access
  import opened Inventory

  /** The minimum password length both signup handlers enforce. */
  const MinPasswordLength: nat := 6

  /**
    A JavaScript string's `length`: the number of UTF-16 code units, so a
    character outside the Basic Multilingual Plane counts twice.
   */
  function Utf16Length(s: string): (n: nat)
    ensures |s| <= n <= 2 * |s|
    ensures (forall i :: 0 <= i < |s| ==> s[i] < '\U{10000}') ==> n == |s|
  {
    if s == [] then 0
    else (if s[0] >= '\U{10000}' then 2 else 1) + Utf16Length(s[1..])
  }

  /** One character counts two code units exactly when it lies outside the Basic Multilingual Plane. */
  lemma Utf16LengthChar(c: char)
    ensures Utf16Length([c]) == if c >= '\U{10000}' then 2 else 1
  {
    assert [c][1..] == [];
  }

  /** The length of a concatenation is the sum of the lengths, so the two lemmas fix every string's length. */
  lemma {:induction false} Utf16LengthConcat(a: string, b: string)
    ensures Utf16Length(a + b) == Utf16Length(a) + Utf16Length(b)
  {
    if a == [] {
      assert a + b == b;
    } else {
      assert (a + b)[1..] == a[1..] + b && (a + b)[0] == a[0];
      Utf16LengthConcat(a[1..], b);
    }
  }

  /**
    Three emoji make a password of JavaScript length six, which the signup
    guard accepts, although the string has only three characters.
   */
  lemma ThreeEmojiPasswordLength()
    ensures |"\U{1F600}\U{1F600}\U{1F600}"| == 3
    ensures Utf16Length("\U{1F600}\U{1F600}\U{1F600}") == MinPasswordLength
  {
    var s := "\U{1F600}\U{1F600}\U{1F600}";
    assert s[1..] == "\U{1F600}\U{1F600}" && s[2..] == "\U{1F600}";
    assert s[1..][1..] == s[2..] && s[2..][1..] == [];
  }

  class Store {
    var buses: seq<Bus>
    var bookings: seq<Booking>
    var users: seq<User>
    var admins: seq<Admin>
    // the values the four SERIAL id sequences hand out next
    var nextBusId: int
    var nextBookingId: int
    var nextUserId: int
    var nextAdminId: int

    /** Ids are SERIAL in every table; signup keeps emails unique per table. */
    ghost predicate Valid()
      reads this
    {
      && 1 <= nextBusId && 1 <= nextBookingId && 1 <= nextUserId && 1 <= nextAdminId
      && SerialBy(buses, BusKey, nextBusId)
      && SerialBy(bookings, BookingKey, nextBookingId)
      && SerialBy(users, UserKey, nextUserId)
      && SerialBy(admins, AdminKey, nextAdminId)
      && DistinctBy(users, UserEmail)
      && DistinctBy(admins, AdminEmail)
    }

    constructor ()
      ensures Valid()
      ensures buses == [] && bookings == [] && users == [] && admins == []
    {
      buses, bookings, users, admins := [], [], [], [];
      nextBusId, nextBookingId, nextUserId, nextAdminId := 1, 1, 1, 1;
    }

    /**
      User signup: a password shorter than six characters is refused before
      any lookup, then a registered email; `hash` is the hashing callback's
      result (`None` for its error). Success appends exactly one user, whom
      the rider gate then admits.
     */
    method SignupUser(name: string, email: string, password: string, hash: Option<string>)
      returns (r: Result<User>)
      requires Valid()
      modifies this
      ensures Valid()
      ensures Utf16Length(password) < MinPasswordLength ==> r == Err(WeakPassword)
      ensures Utf16Length(password) >= MinPasswordLength && UserByEmail(old(users), email).Some? ==> r == Err(EmailTaken)
      ensures Utf16Length(password) >= MinPasswordLength && UserByEmail(old(users), email).None? && hash.None? ==>
        r == Err(HashFailed)
      ensures r.Ok? <==> Utf16Length(password) >= MinPasswordLength && UserByEmail(old(users), email).None? && hash.Some?
      ensures r.Err? ==> unchanged(this)
      ensures r.Ok? ==>
        && r.value == User(old(nextUserId), name, email, hash.value)
        && users == old(users) + [r.value] && nextUserId == old(nextUserId) + 1
        && buses == old(buses) && bookings == old(bookings) && admins == old(admins)
        && nextBusId == old(nextBusId) && nextBookingId == old(nextBookingId) && nextAdminId == old(nextAdminId)
      ensures r.Ok? ==> ProtectRoute(users, Verified(r.value.id, RiderRole)) == Ok(r.value)
    {
      if Utf16Length(password) < MinPasswordLength {
        return Err(WeakPassword);
      }
      if UserByEmail(users, email).Some? {
        return Err(EmailTaken);
      }
      if hash.None? {
        return Err(HashFailed);
      }
      var u := User(nextUserId, name, email, hash.value);
      NewUserAdmitted(users, u, RiderRole);
      InsertUser(u);
      r := Ok(u);
    }

    /**
      Admin signup: the user checks against the admins table, then a fresh
      nine-digit api key formatted from the random value `rnd`; the admin gate
      then admits the new admin with that key.
     */
    method SignupAdmin(name: string, email: string, password: string, hash: Option<string>, rnd: U32)
      returns (r: Result<Admin>)
      requires Valid()
      modifies this
      ensures Valid()
      ensures Utf16Length(password) < MinPasswordLength ==> r == Err(WeakPassword)
      ensures Utf16Length(password) >= MinPasswordLength && AdminByEmail(old(admins), email).Some? ==> r == Err(EmailTaken)
      ensures Utf16Length(password) >= MinPasswordLength && AdminByEmail(old(admins), email).None? && hash.None? ==>
        r == Err(HashFailed)
      ensures r.Ok? <==> Utf16Length(password) >= MinPasswordLength && AdminByEmail(old(admins), email).None? && hash.Some?
      ensures r.Err? ==> unchanged(this)
      ensures r.Ok? ==>
        && r.value == Admin(old(nextAdminId), name, email, hash.value, FormatKey(rnd))
        && admins == old(admins) + [r.value] && nextAdminId == old(nextAdminId) + 1
        && buses == old(buses) && bookings == old(bookings) && users == old(users)
        && nextBusId == old(nextBusId) && nextBookingId == old(nextBookingId) && nextUserId == old(nextUserId)
      ensures r.Ok? ==> AdminProtectRoute(admins, Verified(r.value.id, AdminRole), Some(r.value.apiKey)) == Ok(r.value)
    {
      if Utf16Length(password) < MinPasswordLength {
        return Err(WeakPassword);
      }
      if AdminByEmail(admins, email).Some? {
        return Err(EmailTaken);
      }
      if hash.None? {
        return Err(HashFailed);
      }
      var a := Admin(nextAdminId, name, email, hash.value, FormatKey(rnd));
      NewAdminAdmitted(admins, a, AdminRole);
      InsertAdmin(a);
      r := Ok(a);
    }

    /**
      `addBus` behind the admin gate: start, end and capacity must all be
      truthy; the new bus has no seats filled. A negative capacity is not
      refused, and it is the one way the capacity invariant can be lost.
     */
    method AddBus(token: Token, apikey: Option<string>,
                  start: Option<string>, end: Option<string>, available: Option<int>)
      returns (r: Result<Bus>)
      requires Valid()
      modifies this
      ensures Valid()
      ensures AdminProtectRoute(old(admins), token, apikey).Err? ==>
        r == Err(AdminProtectRoute(old(admins), token, apikey).error)
      ensures AdminProtectRoute(old(admins), token, apikey).Ok? && !(Given(start) && Given(end) && Truthy(available)) ==>
        r == Err(MissingFields)
      ensures r.Ok? <==>
        AdminProtectRoute(old(admins), token, apikey).Ok? && Given(start) && Given(end) && Truthy(available)
      ensures r.Err? ==> unchanged(this)
      ensures r.Ok? ==>
        && r.value == Bus(old(nextBusId), start.value, end.value, available.value, 0)
        && buses == old(buses) + [r.value] && nextBusId == old(nextBusId) + 1
        && bookings == old(bookings) && users == old(users) && admins == old(admins)
        && nextBookingId == old(nextBookingId) && nextUserId == old(nextUserId) && nextAdminId == old(nextAdminId)
      ensures WithinCapacity(old(buses)) ==> (WithinCapacity(buses) <==> r.Err? || available.value >= 0)
    {
      var gate := AdminProtectRoute(admins, token, apikey);
      if gate.Err? {
        return Err(gate.error);
      }
      if !Given(start) || !Given(end) || !Truthy(available) {
        return Err(MissingFields);
      }
      var bus := Bus(nextBusId, start.value, end.value, available.value, 0);
      if WithinCapacity(buses) {
        NewBusKeepsCapacity(buses, bus);
      }
      InsertBus(bus);
      r := Ok(bus);
    }

    /**
      `modifyAvailability` behind the admin gate: after the checks of
      `CheckCapacityChange`, sets that bus's `seats_available` and nothing
      else, and answers with the updated row.
     */
    method ModifyAvailability(token: Token, apikey: Option<string>, id: Option<int>, available: Option<int>)
      returns (r: Result<Bus>)
      requires Valid()
      modifies this
      ensures Valid()
      ensures AdminProtectRoute(old(admins), token, apikey).Err? ==>
        r == Err(AdminProtectRoute(old(admins), token, apikey).error)
      ensures AdminProtectRoute(old(admins), token, apikey).Ok? && CheckCapacityChange(old(buses), id, available).Err? ==>
        r == Err(CheckCapacityChange(old(buses), id, available).error)
      ensures r.Ok? <==>
        AdminProtectRoute(old(admins), token, apikey).Ok? && CheckCapacityChange(old(buses), id, available).Ok?
      ensures r.Err? ==> unchanged(this)
      ensures r.Ok? ==>
        var bus := CheckCapacityChange(old(buses), id, available).value;
        && r.value == bus.(seatsAvailable := available.value)
        && |buses| == |old(buses)|
        && (forall i :: 0 <= i < |buses| ==>
              buses[i] == if old(buses)[i] == bus then r.value else old(buses)[i])
      ensures r.Ok? ==>
        && bookings == old(bookings) && users == old(users) && admins == old(admins)
        && nextBusId == old(nextBusId) && nextBookingId == old(nextBookingId)
        && nextUserId == old(nextUserId) && nextAdminId == old(nextAdminId)
      ensures WithinCapacity(old(buses)) ==> WithinCapacity(buses)
    {
      var gate := AdminProtectRoute(admins, token, apikey);
      if gate.Err? {
        return Err(gate.error);
      }
      var check := CheckCapacityChange(buses, id, available);
      if check.Err? {
        return Err(check.error);
      }
      var bus := check.value;
      CapacityChangeKeepsCapacity(buses, id, available);
      UpdateSeatsAvailable(bus.id, available.value);
      r := Ok(bus.(seatsAvailable := available.value));
    }

    /**
      `generateApiKey` behind the admin gate: the caller's row gets a fresh
      nine-digit key and the key is returned. Afterwards the gate admits the
      caller with the new key and refuses it with any other, including the
      old one; no other admin row changes.
     */
    method GenerateApiKey(token: Token, apikey: Option<string>, rnd: U32)
      returns (r: Result<string>)
      requires Valid()
      modifies this
      ensures Valid()
      ensures AdminProtectRoute(old(admins), token, apikey).Err? ==>
        r == Err(AdminProtectRoute(old(admins), token, apikey).error)
      ensures r.Ok? <==> AdminProtectRoute(old(admins), token, apikey).Ok?
      ensures r.Err? ==> unchanged(this)
      ensures r.Ok? ==>
        var caller := AdminProtectRoute(old(admins), token, apikey).value;
        && r.value == FormatKey(rnd)
        && |admins| == |old(admins)|
        && (forall i :: 0 <= i < |admins| ==>
              admins[i] == if old(admins)[i].id == caller.id then caller.(apiKey := r.value) else old(admins)[i])
      ensures r.Ok? ==>
        && buses == old(buses) && bookings == old(bookings) && users == old(users)
        && nextBusId == old(nextBusId) && nextBookingId == old(nextBookingId)
        && nextUserId == old(nextUserId) && nextAdminId == old(nextAdminId)
      ensures r.Ok? ==>
        var caller := AdminProtectRoute(old(admins), token, apikey).value;
        && AdminProtectRoute(admins, token, Some(r.value)) == Ok(caller.(apiKey := r.value))
        && (apikey.value != r.value ==> AdminProtectRoute(admins, token, apikey).Err?)
    {
      var gate := AdminProtectRoute(admins, token, apikey);
      if gate.Err? {
        return Err(gate.error);
      }
      var caller := gate.value;
      if caller.id == 0 {
        return Err(MissingFields);
      }
      var key := FormatKey(rnd);
      ghost var i :| 0 <= i < |admins| && admins[i] == caller;
      RotatedKeyAdmits(admins, i, key, apikey.value, token.role);
      RotationKeepsAdmins(admins, i, key);
      UpdateApiKey(caller.id, key);
      r := Ok(key);
    }

    /**
      `bookTickets` behind the rider gate: after the checks of `CheckBooking`,
      appends one booking for the rider with the bus's stations, a booking id
      formatted from `rnd` and the requested seat count, and raises that
      bus's `seats_filled` by the seat count. The capacity invariant is kept.
     */
    method BookTickets(token: Token, busId: Option<int>, seats: Option<int>, rnd: U32)
      returns (r: Result<Booking>)
      requires Valid()
      modifies this
      ensures Valid()
      ensures ProtectRoute(old(users), token).Err? ==> r == Err(ProtectRoute(old(users), token).error)
      ensures ProtectRoute(old(users), token).Ok? && CheckBooking(old(buses), busId, seats).Err? ==>
        r == Err(CheckBooking(old(buses), busId, seats).error)
      ensures r.Ok? <==> ProtectRoute(old(users), token).Ok? && CheckBooking(old(buses), busId, seats).Ok?
      ensures r.Err? ==> unchanged(this)
      ensures r.Ok? ==>
        var rider := ProtectRoute(old(users), token).value;
        var bus := CheckBooking(old(buses), busId, seats).value;
        r.value == Booking(old(nextBookingId), rider.name, rider.email,
                           bus.startStation, bus.endStation, FormatKey(rnd), seats.value)
      ensures r.Ok? ==> bookings == old(bookings) + [r.value] && nextBookingId == old(nextBookingId) + 1
      ensures r.Ok? ==>
        var bus := CheckBooking(old(buses), busId, seats).value;
        && |buses| == |old(buses)|
        && forall i :: 0 <= i < |buses| ==>
             buses[i] == if old(buses)[i] == bus then bus.(seatsFilled := bus.seatsFilled + seats.value)
                         else old(buses)[i]
      ensures r.Ok? ==>
        && users == old(users) && admins == old(admins)
        && nextBusId == old(nextBusId) && nextUserId == old(nextUserId) && nextAdminId == old(nextAdminId)
      ensures WithinCapacity(old(buses)) ==> WithinCapacity(buses)
    {
      var gate := ProtectRoute(users, token);
      if gate.Err? {
        return Err(gate.error);
      }
      var rider := gate.value;
      var check := CheckBooking(buses, busId, seats);
      if check.Err? {
        return Err(check.error);
      }
      var bus := check.value;
      var filled := bus.seatsFilled + seats.value;
      var booking := Booking(nextBookingId, rider.name, rider.email,
                             bus.startStation, bus.endStation, FormatKey(rnd), seats.value);
      BookingKeepsCapacity(buses, busId, seats);
      InsertBooking(booking);
      UpdateSeatsFilled(bus.id, filled);
      r := Ok(booking);
    }

    // The single SQL writes the handlers make, each keeping `Valid()`.

    /** `insert into users ...`: appends `u` under the next user id; its email is new. */
    method InsertUser(u: User)
      requires Valid() && u.id == nextUserId && UserByEmail(users, u.email).None?
      modifies this
      ensures Valid()
      ensures users == old(users) + [u] && nextUserId == old(nextUserId) + 1
      ensures buses == old(buses) && bookings == old(bookings) && admins == old(admins)
      ensures nextBusId == old(nextBusId) && nextBookingId == old(nextBookingId) && nextAdminId == old(nextAdminId)
    {
      SerialInsert(users, UserKey, nextUserId, u);
      users, nextUserId := users + [u], nextUserId + 1;
    }

    /** `insert into admins ...`: appends `a` under the next admin id; its email is new. */
    method InsertAdmin(a: Admin)
      requires Valid() && a.id == nextAdminId && AdminByEmail(admins, a.email).None?
      modifies this
      ensures Valid()
      ensures admins == old(admins) + [a] && nextAdminId == old(nextAdminId) + 1
      ensures buses == old(buses) && bookings == old(bookings) && users == old(users)
      ensures nextBusId == old(nextBusId) && nextBookingId == old(nextBookingId) && nextUserId == old(nextUserId)
    {
      SerialInsert(admins, AdminKey, nextAdminId, a);
      admins, nextAdminId := admins + [a], nextAdminId + 1;
    }

    /** `insert into buses ...`: appends `b` under the next bus id. */
    method InsertBus(b: Bus)
      requires Valid() && b.id == nextBusId
      modifies this
      ensures Valid()
      ensures buses == old(buses) + [b] && nextBusId == old(nextBusId) + 1
      ensures bookings == old(bookings) && users == old(users) && admins == old(admins)
      ensures nextBookingId == old(nextBookingId) && nextUserId == old(nextUserId) && nextAdminId == old(nextAdminId)
    {
      SerialInsert(buses, BusKey, nextBusId, b);
      buses, nextBusId := buses + [b], nextBusId + 1;
    }

    /** `insert into bookings ...`: appends `b` under the next booking id. */
    method InsertBooking(b: Booking)
      requires Valid() && b.id == nextBookingId
      modifies this
      ensures Valid()
      ensures bookings == old(bookings) + [b] && nextBookingId == old(nextBookingId) + 1
      ensures buses == old(buses) && users == old(users) && admins == old(admins)
      ensures nextBusId == old(nextBusId) && nextUserId == old(nextUserId) && nextAdminId == old(nextAdminId)
    {
      SerialInsert(bookings, BookingKey, nextBookingId, b);
      bookings, nextBookingId := bookings + [b], nextBookingId + 1;
    }

    /** `update buses set seats_available = $1 where id = $2`. */
    method UpdateSeatsAvailable(id: int, available: int)
      requires Valid()
      modifies this
      ensures Valid()
      ensures buses == SetSeatsAvailable(old(buses), id, available)
      ensures bookings == old(bookings) && users == old(users) && admins == old(admins)
      ensures nextBusId == old(nextBusId) && nextBookingId == old(nextBookingId)
      ensures nextUserId == old(nextUserId) && nextAdminId == old(nextAdminId)
    {
      SerialKeptByUpdate(buses, SetSeatsAvailable(buses, id, available), nextBusId);
      buses := SetSeatsAvailable(buses, id, available);
    }

    /** `update buses set seats_filled = $1 where id = $2`. */
    method UpdateSeatsFilled(id: int, filled: int)
      requires Valid()
      modifies this
      ensures Valid()
      ensures buses == SetSeatsFilled(old(buses), id, filled)
      ensures bookings == old(bookings) && users == old(users) && admins == old(admins)
      ensures nextBusId == old(nextBusId) && nextBookingId == old(nextBookingId)
      ensures nextUserId == old(nextUserId) && nextAdminId == old(nextAdminId)
    {
      SerialKeptByUpdate(buses, SetSeatsFilled(buses, id, filled), nextBusId);
      buses := SetSeatsFilled(buses, id, filled);
    }

    /** `update admins set api_key = $1 where id = $2`, for the id of an existing admin. */
    method UpdateApiKey(id: int, key: string)
      requires Valid() && exists i :: 0 <= i < |admins| && admins[i].id == id
      modifies this
      ensures Valid()
      ensures admins == SetApiKey(old(admins), id, key)
      ensures buses == old(buses) && bookings == old(bookings) && users == old(users)
      ensures nextBusId == old(nextBusId) && nextBookingId == old(nextBookingId)
      ensures nextUserId == old(nextUserId) && nextAdminId == old(nextAdminId)
    {
      ghost var i :| 0 <= i < |admins| && admins[i].id == id;
      RotationKeepsAdmins(admins, i, key);
      admins := SetApiKey(admins, id, key);
    }
  }

  /** Rotating the key of the admin at index `i` keeps ids and emails, so the table stays valid. */
  lemma RotationKeepsAdmins(admins: seq<Admin>, i: int, key: string)
    requires 0 <= i < |admins| && IncreasingBy(admins, AdminKey)
    ensures var after := SetApiKey(admins, admins[i].id, key);
      && (forall j :: 0 <= j < |admins| ==> AdminKey(after[j]) == AdminKey(admins[j]))
      && (forall j :: 0 <= j < |admins| ==> AdminEmail(after[j]) == AdminEmail(admins[j]))
      && (forall j :: 0 <= j < |admins| ==>
            after[j] == if admins[j].id == admins[i].id then admins[i].(apiKey := key) else admins[j])
  {
    forall j | 0 <= j < |admins| && admins[j].id == admins[i].id
      ensures admins[j] == admins[i]
    {
    }
  }
}
