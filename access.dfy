/**
  Access control: the `protectRoute` and `adminProtectRoute` middleware and
  the two login handlers. Token signing and verification are a foreign
  library, so a token is modelled by what verification makes of it; password
  comparison is likewise passed in.
 */
module Access {
  import opened Tables

  /** The role claim written into a token at issue; no gate ever reads it. */
  datatype Role = RiderRole | AdminRole

  /**
    A session cookie as the gates see it: absent, refused by verification
    (bad signature or past its seven-day expiry), or verified with its claims.
   */
  datatype Token = NoCookie | Unverifiable | Verified(subject: int, role: Role)

  /**
    `protectRoute`: a verified token whose subject is the id of a user row
    admits that row; nothing else is admitted.
   */
  function ProtectRoute(users: seq<User>, token: Token): (r: Result<User>)
    ensures r.Ok? <==> token.Verified? && exists i :: 0 <= i < |users| && users[i].id == token.subject
    ensures r.Ok? ==> r.value in users && r.value.id == token.subject
    ensures token == NoCookie ==> r == Err(NoToken)
    ensures token == Unverifiable ==> r == Err(TokenRejected)
    ensures token.Verified? && r.Err? ==> r.error == UserNotFound
  {
    match token
    case NoCookie => Err(NoToken)
    case Unverifiable => Err(TokenRejected)
    case Verified(subject, _) =>
      match UserById(users, subject)
      case None => Err(UserNotFound)
      case Some(u) => Ok(u)
  }

  /**
    `adminProtectRoute`: admits only a request that carries a token AND an
    api key, whose token verifies, and whose subject names an admin row whose
    stored api key equals the supplied one. The checks run in that order.
   */
  function AdminProtectRoute(admins: seq<Admin>, token: Token, apikey: Option<string>): (r: Result<Admin>)
    ensures r.Ok? <==>
      && token.Verified? && Given(apikey)
      && exists i :: 0 <= i < |admins| && admins[i].id == token.subject && admins[i].apiKey == apikey.value
    ensures r.Ok? ==> r.value in admins && r.value.id == token.subject && r.value.apiKey == apikey.value
    ensures token == NoCookie ==> r == Err(NoToken)
    ensures token != NoCookie && !Given(apikey) ==> r == Err(NoApiKey)
    ensures token == Unverifiable && Given(apikey) ==> r == Err(TokenRejected)
    ensures token.Verified? && Given(apikey) && r.Err? ==> r.error == AdminNotFoundOrBadKey
  {
    if token == NoCookie then Err(NoToken)
    else if !Given(apikey) then Err(NoApiKey)
    else match token
      case Unverifiable => Err(TokenRejected)
      case Verified(subject, _) =>
        match AdminByIdAndKey(admins, subject, apikey.value)
        case None => Err(AdminNotFoundOrBadKey)
        case Some(a) => Ok(a)
  }

  /**
    The user login handler: the row with that email, if the password matches
    its stored hash. `compare` is the hashing library's comparison; `None`
    stands for its callback error.
   */
  function UserLogin(users: seq<User>, email: string, password: string,
                     compare: (string, string) -> Option<bool>): (r: Result<User>)
    ensures r.Ok? ==> r.value in users && r.value.email == email && compare(password, r.value.password) == Some(true)
    ensures r.Ok? <==>
      UserByEmail(users, email).Some? && compare(password, UserByEmail(users, email).value.password) == Some(true)
    ensures UserByEmail(users, email).None? <==> r == Err(UnknownEmail)
    ensures r == Err(HashFailed) <==>
      UserByEmail(users, email).Some? && compare(password, UserByEmail(users, email).value.password).None?
    ensures r == Err(InvalidCredentials) <==>
      UserByEmail(users, email).Some? && compare(password, UserByEmail(users, email).value.password) == Some(false)
    ensures r.Err? ==> r.error in {UnknownEmail, HashFailed, InvalidCredentials}
  {
    match UserByEmail(users, email)
    case None => Err(UnknownEmail)
    case Some(u) =>
      match compare(password, u.password)
      case None => Err(HashFailed)
      case Some(same) => if same then Ok(u) else Err(InvalidCredentials)
  }

  /** The admin login handler; an unknown email reads as invalid credentials. */
  function AdminLogin(admins: seq<Admin>, email: string, password: string,
                      compare: (string, string) -> Option<bool>): (r: Result<Admin>)
    ensures r.Ok? ==> r.value in admins && r.value.email == email && compare(password, r.value.password) == Some(true)
    ensures r.Ok? <==>
      AdminByEmail(admins, email).Some? && compare(password, AdminByEmail(admins, email).value.password) == Some(true)
    ensures AdminByEmail(admins, email).None? ==> r == Err(InvalidCredentials)
    ensures r == Err(HashFailed) <==>
      AdminByEmail(admins, email).Some? && compare(password, AdminByEmail(admins, email).value.password).None?
    ensures r == Err(InvalidCredentials) <==>
      AdminByEmail(admins, email).None? || compare(password, AdminByEmail(admins, email).value.password) == Some(false)
    ensures r.Err? ==> r.error in {HashFailed, InvalidCredentials}
  {
    match AdminByEmail(admins, email)
    case None => Err(InvalidCredentials)
    case Some(a) =>
      match compare(password, a.password)
      case None => Err(HashFailed)
      case Some(same) => if same then Ok(a) else Err(InvalidCredentials)
  }

  /** The role claim plays no part in either gate. */
  lemma GatesIgnoreRole(users: seq<User>, admins: seq<Admin>, subject: int, apikey: Option<string>)
    ensures ProtectRoute(users, Verified(subject, RiderRole)) == ProtectRoute(users, Verified(subject, AdminRole))
    ensures AdminProtectRoute(admins, Verified(subject, RiderRole), apikey)
         == AdminProtectRoute(admins, Verified(subject, AdminRole), apikey)
  {
  }

  /**
    A user appended with the next serial id is admitted by `protectRoute`
    with a token for that id: what signup's freshly issued cookie carries.
   */
  lemma NewUserAdmitted(users: seq<User>, u: User, role: Role)
    requires SerialBy(users, UserKey, u.id)
    ensures ProtectRoute(users + [u], Verified(u.id, role)) == Ok(u)
  {
    var rows := users + [u];
    var k := FirstWhere(rows, (x: User) => x.id == u.id);
    assert rows[|users|] == u;
    assert k.Some? && k.value <= |users|;
    assert k.value < |users| ==> UserKey(rows[k.value]) < u.id;
  }

  /** Likewise for an admin and its freshly generated api key. */
  lemma NewAdminAdmitted(admins: seq<Admin>, a: Admin, role: Role)
    requires SerialBy(admins, AdminKey, a.id) && a.apiKey != ""
    ensures AdminProtectRoute(admins + [a], Verified(a.id, role), Some(a.apiKey)) == Ok(a)
  {
    var rows := admins + [a];
    var k := FirstWhere(rows, (x: Admin) => x.id == a.id && x.apiKey == a.apiKey);
    assert rows[|admins|] == a;
    assert k.Some? && k.value <= |admins|;
    assert k.value < |admins| ==> AdminKey(rows[k.value]) < a.id;
  }

  /**
    A user that signed up with `password` logs in with it, provided the
    hashing library's comparison accepts the password against its own hash.
   */
  lemma NewUserLogsIn(users: seq<User>, u: User, password: string,
                      compare: (string, string) -> Option<bool>)
    requires UserByEmail(users, u.email).None?
    requires compare(password, u.password) == Some(true)
    ensures UserLogin(users + [u], u.email, password, compare) == Ok(u)
  {
    var rows := users + [u];
    assert rows[|users|] == u;
    var k := FirstWhere(rows, (x: User) => x.email == u.email);
    assert k.Some? && k.value <= |users|;
  }

  /** Likewise an admin that signed up with `password` logs in with it. */
  lemma NewAdminLogsIn(admins: seq<Admin>, a: Admin, password: string,
                       compare: (string, string) -> Option<bool>)
    requires AdminByEmail(admins, a.email).None?
    requires compare(password, a.password) == Some(true)
    ensures AdminLogin(admins + [a], a.email, password, compare) == Ok(a)
  {
    var rows := admins + [a];
    assert rows[|admins|] == a;
    var k := FirstWhere(rows, (x: Admin) => x.email == a.email);
    assert k.Some? && k.value <= |admins|;
  }

  /**
    Key rotation, as seen by the admin gate: after the admin row at index `i`
    gets `newKey`, the gate admits that admin with `newKey` and refuses it
    with any other key, including the one it held before.
   */
  lemma RotatedKeyAdmits(admins: seq<Admin>, i: int, newKey: string, otherKey: string, role: Role)
    requires IncreasingBy(admins, AdminKey) && 0 <= i < |admins|
    requires newKey != ""
    ensures AdminProtectRoute(SetApiKey(admins, admins[i].id, newKey), Verified(admins[i].id, role), Some(newKey))
         == Ok(admins[i].(apiKey := newKey))
    ensures otherKey != newKey ==>
      AdminProtectRoute(SetApiKey(admins, admins[i].id, newKey), Verified(admins[i].id, role), Some(otherKey)).Err?
  {
    var id := admins[i].id;
    var rows := SetApiKey(admins, id, newKey);
    var k := FirstWhere(rows, (x: Admin) => x.id == id && x.apiKey == newKey);
    assert rows[i].id == id && rows[i].apiKey == newKey;
    assert k.Some? && k.value <= i;
    assert k.value < i ==> AdminKey(admins[k.value]) < AdminKey(admins[i]);
    forall j | 0 <= j < |rows| && rows[j].id == id
      ensures rows[j].apiKey == newKey
    {
    }
  }

  /** Rotating one admin's key leaves the gate's answer for every other subject unchanged. */
  lemma RotationLeavesOthers(admins: seq<Admin>, id: int, newKey: string, subject: int,
                             role: Role, apikey: Option<string>)
    requires subject != id
    ensures AdminProtectRoute(SetApiKey(admins, id, newKey), Verified(subject, role), apikey)
         == AdminProtectRoute(admins, Verified(subject, role), apikey)
  {
    if Given(apikey) {
      var rows := SetApiKey(admins, id, newKey);
      var p := (x: Admin) => x.id == subject && x.apiKey == apikey.value;
      FirstWhereAgrees(admins, rows, p);
      var k := FirstWhere(admins, p);
      if k.Some? {
        assert rows[k.value] == admins[k.value];
      }
    }
  }
}
