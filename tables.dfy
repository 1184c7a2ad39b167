/**
  The four tables of the reservation store (buses, bookings, users, admins),
  the error kinds the handlers answer with, and the row-level lookups and
  updates the handlers' SQL statements perform. A table is a sequence of rows
  in insertion order; every table's `id` column is a SERIAL.
 */
module Tables {

  datatype Option<+T> = None | Some(value: T)

  /** Why a handler refused a request. */
  datatype Error =
    | MissingFields          // a required body field is absent or falsy
    | WeakPassword           // signup password shorter than six characters
    | EmailTaken             // signup email already registered
    | UnknownEmail           // user login: no user with that email
    | InvalidCredentials     // password does not match (or, for admins, unknown email)
    | HashFailed             // the password-hashing callback reported an error
    | NoToken                // no session cookie
    | NoApiKey               // admin route called without an `apikey` query parameter
    | TokenRejected          // token signature invalid or expired (verification throws)
    | UserNotFound           // token subject is not a user id
    | AdminNotFoundOrBadKey  // no admin with the token subject and the given api key
    | BusNotFound
    | BookingNotFound
    | NoBookings             // myBookings found nothing for the caller
    | SeatsAlreadyFilled     // the bus is exactly full
    | NotEnoughSeats         // the request would push seats_filled past seats_available
    | BelowSeatsFilled       // new capacity is smaller than seats already filled

  datatype Result<+T> = Ok(value: T) | Err(error: Error)

  datatype Bus = Bus(id: int, startStation: string, endStation: string,
                     seatsAvailable: int, seatsFilled: int)

  datatype Booking = Booking(id: int, userName: string, userEmail: string,
                             startStation: string, endStation: string,
                             bookingId: string, seatsBooked: int)

  /** `password` holds the stored one-way hash, never the raw password. */
  datatype User = User(id: int, name: string, email: string, password: string)

  datatype Admin = Admin(id: int, name: string, email: string, password: string, apiKey: string)

  /** JavaScript truthiness of a numeric body field: absent and 0 are falsy. */
  predicate Truthy(field: Option<int>) {
    field.Some? && field.value != 0
  }

  /** JavaScript truthiness of a string field: absent and "" are falsy. */
  predicate Given(field: Option<string>) {
    field.Some? && field.value != ""
  }

  function BusKey(b: Bus): int { b.id }
  function BookingKey(b: Booking): int { b.id }
  function UserKey(u: User): int { u.id }
  function AdminKey(a: Admin): int { a.id }
  function UserEmail(u: User): string { u.email }
  function AdminEmail(a: Admin): string { a.email }

  /** Rows ordered by strictly increasing key. */
  ghost predicate IncreasingBy<T>(rows: seq<T>, key: T -> int) {
    forall i, j :: 0 <= i < j < |rows| ==> key(rows[i]) < key(rows[j])
  }

  /** Rows ordered by strictly decreasing key. */
  ghost predicate DecreasingBy<T>(rows: seq<T>, key: T -> int) {
    forall i, j :: 0 <= i < j < |rows| ==> key(rows[i]) > key(rows[j])
  }

  /**
    A SERIAL id column: ids are positive, increase with insertion order and
    stay below `next`, the value the sequence hands out next.
   */
  ghost predicate SerialBy<T>(rows: seq<T>, key: T -> int, next: int) {
    && IncreasingBy(rows, key)
    && forall i :: 0 <= i < |rows| ==> 1 <= key(rows[i]) < next
  }

  /** No two rows share a key. */
  ghost predicate DistinctBy<T>(rows: seq<T>, key: T -> string) {
    forall i, j :: 0 <= i < j < |rows| ==> key(rows[i]) != key(rows[j])
  }

  /** Inserting a row with id `next` keeps the SERIAL column and advances it. */
  lemma SerialInsert<T>(rows: seq<T>, key: T -> int, next: int, row: T)
    requires SerialBy(rows, key, next) && key(row) == next && next >= 1
    ensures SerialBy(rows + [row], key, next + 1)
  {
  }

  /** An update that keeps every row's id keeps the SERIAL column. */
  lemma SerialKeptByUpdate(buses: seq<Bus>, after: seq<Bus>, next: int)
    requires SerialBy(buses, BusKey, next) && |after| == |buses|
    requires forall i :: 0 <= i < |buses| ==> after[i].id == buses[i].id
    ensures SerialBy(after, BusKey, next)
  {
    forall i, j | 0 <= i < j < |after| ensures BusKey(after[i]) < BusKey(after[j]) {
      assert BusKey(buses[i]) < BusKey(buses[j]);
    }
  }

  /** The capacity invariant: no bus has more seats filled than it has. */
  ghost predicate WithinCapacity(buses: seq<Bus>) {
    forall i :: 0 <= i < |buses| ==> buses[i].seatsFilled <= buses[i].seatsAvailable
  }

  /** Index of the first row that matches, as `result.rows[0]` picks it. */
  function FirstWhere<T>(rows: seq<T>, matches: T -> bool): (r: Option<nat>)
    ensures r.Some? ==> r.value < |rows| && matches(rows[r.value])
    ensures r.Some? ==> forall j :: 0 <= j < r.value ==> !matches(rows[j])
    ensures r.None? <==> forall j :: 0 <= j < |rows| ==> !matches(rows[j])
  {
    if rows == [] then None
    else if matches(rows[0]) then Some(0)
    else match FirstWhere(rows[1..], matches)
      case None => None
      case Some(k) => Some(k + 1)
  }

  /** Two tables that agree on which rows match give the same first match. */
  lemma FirstWhereAgrees<T>(rows: seq<T>, rows': seq<T>, matches: T -> bool)
    requires |rows| == |rows'|
    requires forall j :: 0 <= j < |rows| ==> matches(rows[j]) == matches(rows'[j])
    ensures FirstWhere(rows, matches) == FirstWhere(rows', matches)
  {
    var k, k' := FirstWhere(rows, matches), FirstWhere(rows', matches);
    if k.Some? && k'.Some? {
      assert !(k.value < k'.value) && !(k'.value < k.value);
    }
  }

  /** `select * from buses where id = $1`, first row. */
  function BusById(buses: seq<Bus>, id: int): (r: Option<Bus>)
    ensures r.Some? ==> r.value in buses && r.value.id == id
    ensures r.None? <==> forall i :: 0 <= i < |buses| ==> buses[i].id != id
  {
    match FirstWhere(buses, (b: Bus) => b.id == id)
    case None => None
    case Some(k) => Some(buses[k])
  }

  /** With unique ids, the lookup finds the one row that has the id. */
  lemma BusByIdUnique(buses: seq<Bus>, i: int)
    requires IncreasingBy(buses, BusKey) && 0 <= i < |buses|
    ensures BusById(buses, buses[i].id) == Some(buses[i])
  {
    var k := FirstWhere(buses, (b: Bus) => b.id == buses[i].id);
    assert k.Some? && k.value <= i;
  }

  /** `select * from users where id = $1`, first row. */
  function UserById(users: seq<User>, id: int): (r: Option<User>)
    ensures r.Some? ==> r.value in users && r.value.id == id
    ensures r.None? <==> forall i :: 0 <= i < |users| ==> users[i].id != id
  {
    match FirstWhere(users, (u: User) => u.id == id)
    case None => None
    case Some(k) => Some(users[k])
  }

  /** `select * from users where email = $1`, first row. */
  function UserByEmail(users: seq<User>, email: string): (r: Option<User>)
    ensures r.Some? ==> r.value in users && r.value.email == email
    ensures r.None? <==> forall i :: 0 <= i < |users| ==> users[i].email != email
  {
    match FirstWhere(users, (u: User) => u.email == email)
    case None => None
    case Some(k) => Some(users[k])
  }

  /** `select * from admins where email = $1`, first row. */
  function AdminByEmail(admins: seq<Admin>, email: string): (r: Option<Admin>)
    ensures r.Some? ==> r.value in admins && r.value.email == email
    ensures r.None? <==> forall i :: 0 <= i < |admins| ==> admins[i].email != email
  {
    match FirstWhere(admins, (a: Admin) => a.email == email)
    case None => None
    case Some(k) => Some(admins[k])
  }

  /** `select * from admins where id = $1 and api_key = $2`, first row. */
  function AdminByIdAndKey(admins: seq<Admin>, id: int, apiKey: string): (r: Option<Admin>)
    ensures r.Some? ==> r.value in admins && r.value.id == id && r.value.apiKey == apiKey
    ensures r.None? <==> forall i :: 0 <= i < |admins| ==> admins[i].id != id || admins[i].apiKey != apiKey
  {
    match FirstWhere(admins, (a: Admin) => a.id == id && a.apiKey == apiKey)
    case None => None
    case Some(k) => Some(admins[k])
  }

  /** `update buses set seats_filled = $1 where id = $2`. */
  function SetSeatsFilled(buses: seq<Bus>, id: int, filled: int): (r: seq<Bus>)
    ensures |r| == |buses|
    ensures forall i :: 0 <= i < |r| ==>
      r[i] == if buses[i].id == id then buses[i].(seatsFilled := filled) else buses[i]
  {
    seq(|buses|, i requires 0 <= i < |buses| =>
      if buses[i].id == id then buses[i].(seatsFilled := filled) else buses[i])
  }

  /** `update buses set seats_available = $1 where id = $2`. */
  function SetSeatsAvailable(buses: seq<Bus>, id: int, available: int): (r: seq<Bus>)
    ensures |r| == |buses|
    ensures forall i :: 0 <= i < |r| ==>
      r[i] == if buses[i].id == id then buses[i].(seatsAvailable := available) else buses[i]
  {
    seq(|buses|, i requires 0 <= i < |buses| =>
      if buses[i].id == id then buses[i].(seatsAvailable := available) else buses[i])
  }

  /** `update admins set api_key = $1 where id = $2`. */
  function SetApiKey(admins: seq<Admin>, id: int, apiKey: string): (r: seq<Admin>)
    ensures |r| == |admins|
    ensures forall i :: 0 <= i < |r| ==>
      r[i] == if admins[i].id == id then admins[i].(apiKey := apiKey) else admins[i]
  {
    seq(|admins|, i requires 0 <= i < |admins| =>
      if admins[i].id == id then admins[i].(apiKey := apiKey) else admins[i])
  }

  /**
    After the seats_filled update, looking up the updated id finds the row the
    lookup found before, with the new count; every other id finds what it
    found before.
   */
  lemma SeatsFilledLookup(buses: seq<Bus>, id: int, filled: int, x: int)
    ensures x == id ==>
      BusById(SetSeatsFilled(buses, id, filled), x)
        == if BusById(buses, x).Some? then Some(BusById(buses, x).value.(seatsFilled := filled)) else None
    ensures x != id ==> BusById(SetSeatsFilled(buses, id, filled), x) == BusById(buses, x)
  {
    var after := SetSeatsFilled(buses, id, filled);
    var p := (b: Bus) => b.id == x;
    FirstWhereAgrees(buses, after, p);
  }

  /** The same two laws for the seats_available update. */
  lemma SeatsAvailableLookup(buses: seq<Bus>, id: int, available: int, x: int)
    ensures x == id ==>
      BusById(SetSeatsAvailable(buses, id, available), x)
        == if BusById(buses, x).Some? then Some(BusById(buses, x).value.(seatsAvailable := available)) else None
    ensures x != id ==> BusById(SetSeatsAvailable(buses, id, available), x) == BusById(buses, x)
  {
    var after := SetSeatsAvailable(buses, id, available);
    var p := (b: Bus) => b.id == x;
    FirstWhereAgrees(buses, after, p);
  }

  /**
    After the api_key update, the lookup by the updated id and the new key
    finds a row exactly when some row had that id, and by that id with any
    other key finds nothing; lookups by every other id are unchanged.
   */
  lemma ApiKeyLookup(admins: seq<Admin>, id: int, apiKey: string, x: int, key: string)
    ensures x == id && key == apiKey ==>
      (AdminByIdAndKey(SetApiKey(admins, id, apiKey), x, key).Some? <==> exists i :: 0 <= i < |admins| && admins[i].id == id)
    ensures x == id && key != apiKey ==> AdminByIdAndKey(SetApiKey(admins, id, apiKey), x, key).None?
    ensures x != id ==> AdminByIdAndKey(SetApiKey(admins, id, apiKey), x, key) == AdminByIdAndKey(admins, x, key)
  {
    var after := SetApiKey(admins, id, apiKey);
    if x == id && key == apiKey {
      if exists i :: 0 <= i < |admins| && admins[i].id == id {
        var i :| 0 <= i < |admins| && admins[i].id == id;
        assert after[i].id == x && after[i].apiKey == key;
      }
    } else if x != id {
      var p := (a: Admin) => a.id == x && a.apiKey == key;
      FirstWhereAgrees(admins, after, p);
      var k := FirstWhere(admins, p);
      if k.Some? {
        assert after[k.value] == admins[k.value];
      }
    }
  }
}
