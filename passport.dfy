/** The decisions of the login layer: where the `jwt` strategy looks for a token,
    how the `local` strategy checks an email and a password, and how the `jwt`
    strategy resolves a verified token to a user. Signature and expiry checks are
    passport-jwt's and come in as an already verified payload. */
module Passport {
  import opened Values
  import opened Store
  import opened Users

  /** The one message of every failed local login. */
  const InvalidCredentials: string := "Credenciales inv\U{e1}lidas"

  /** The part of a request `cookieExtractor` reads: `req.cookies` is absent
      unless the cookie parser ran. */
  datatype Request = Request(cookies: Option<Object>)

  /** `cookieExtractor(req)`: the `jwt` cookie when it is truthy, `null` otherwise. */
  function CookieExtractor(req: Option<Request>): (token: Value)
    ensures token == Null || Truthy(token)
    ensures token != Null <==>
      req.Some? && req.value.cookies.Some? && Truthy(Get(req.value.cookies.value, "jwt"))
    ensures token != Null ==> token == Get(req.value.cookies.value, "jwt")
  {
    if req.Some? && req.value.cookies.Some? && Truthy(Get(req.value.cookies.value, "jwt")) then
      Get(req.value.cookies.value, "jwt")
    else
      Null
  }

  /** `ExtractJwt.fromExtractors`: the extractors' results taken in order up to
      the first truthy one, which is the token; when none is truthy, the last
      result (so the strategy finds no token). */
  function FirstTruthy(results: seq<Value>): (token: Value)
    ensures results == [] ==> token == Null
    ensures forall k :: 0 <= k < |results| && Truthy(results[k]) && (forall i :: 0 <= i < k ==> !Truthy(results[i])) ==>
      token == results[k]
    ensures results != [] && (forall i :: 0 <= i < |results| ==> !Truthy(results[i])) ==> token == results[|results| - 1]
  {
    if results == [] then Null
    else if Truthy(results[0]) || |results| == 1 then results[0]
    else
      var token := FirstTruthy(results[1..]);
      assert forall k :: 1 <= k < |results| ==> results[k] == results[1..][k - 1];
      token
  }

  /** The token source of the `jwt` strategy: the bearer `Authorization` header
      first, then the `jwt` cookie. `bearer` is what passport-jwt's header
      extractor found in the request (`null` when none). A bearer token wins over
      the cookie; without one, the cookie's token is used. */
  function JwtFromRequest(bearer: Value, req: Option<Request>): (token: Value)
    ensures Truthy(bearer) ==> token == bearer
    ensures !Truthy(bearer) ==> token == CookieExtractor(req)
  {
    var results := [bearer, CookieExtractor(req)];
    assert !Truthy(bearer) ==> forall i :: 0 <= i < 1 ==> !Truthy(results[i]);
    FirstTruthy(results)
  }

  /** What a verify callback hands to `done`: `done(null, user)`,
      `done(null, false, info)` or `done(err)`. */
  datatype Verdict =
    | Accept(user: User)
    | Reject(message: Option<string>)
    | Fail(error: Error)

  /** `bcrypt.compareSync(password, hash)`; bcrypt throws unless both are strings.
      `compare` is bcrypt's own check of a password against a hash. */
  function CompareSync(password: Value, hash: Value, compare: (string, string) -> bool): (r: Result<bool>)
    ensures r.Ok? <==> password.Str? && hash.Str?
    ensures r.Ok? ==> r.value == compare(password.s, hash.s)
    ensures r.Err? ==> r.error == HashFailed
  {
    if password.Str? && hash.Str? then Ok(compare(password.s, hash.s)) else Err(HashFailed)
  }

  /** The `local` strategy's verify callback. It looks the email up with
      `getByEmail` (the read `first`), then reads the whole file again with
      `getAll` (the read `second`) to find the stored hash. */
  function LocalVerify(first: Snapshot<User>, second: Snapshot<User>, email: Value, password: Value,
                       compare: (string, string) -> bool): (v: Verdict)
    ensures first.Unreadable? ==> v == Fail(ReadFailed)
    ensures !first.Unreadable? && !EmailTaken(Docs(first), email) ==> v == Reject(Some(InvalidCredentials))
    ensures v.Reject? ==> v.message == Some(InvalidCredentials)
    ensures v.Accept? ==>
      && "password" !in v.user.fields
      && exists k :: 0 <= k < |Docs(second)|
           && v.user == WithoutPassword(Docs(second)[k])
           && StrictEq(Email(Docs(second)[k]), email)
           && password.Str? && Password(Docs(second)[k]).Str?
           && compare(password.s, Password(Docs(second)[k]).s)
    ensures !first.Unreadable? && EmailTaken(Docs(first), email) && second.Unreadable? ==> v == Fail(ReadFailed)
    ensures !first.Unreadable? && EmailTaken(Docs(first), email) && !second.Unreadable? ==>
      var k := IndexOfEmail(Docs(second), email);
      && (k == -1 ==> v == Reject(Some(InvalidCredentials)))
      && (k != -1 && !(password.Str? && Password(Docs(second)[k]).Str?) ==> v == Fail(HashFailed))
      && (k != -1 && password.Str? && Password(Docs(second)[k]).Str? ==>
            v == if compare(password.s, Password(Docs(second)[k]).s)
                 then Accept(WithoutPassword(Docs(second)[k]))
                 else Reject(Some(InvalidCredentials)))
  {
    match GetByEmail(first, email)
    case Err(e) => Fail(e)
    case Ok(found) =>
      if found.None? then Reject(Some(InvalidCredentials))
      else
        match ReadData(second)
        case Err(e) => Fail(e)
        case Ok(stored) =>
          var k := IndexOfEmail(stored, email);
          if k == -1 then Reject(Some(InvalidCredentials))
          else
            match CompareSync(password, Password(stored[k]), compare)
            case Err(e) => Fail(e)
            case Ok(ok) =>
              if !ok then Reject(Some(InvalidCredentials)) else Accept(WithoutPassword(stored[k]))
  }

  /** With no write between the two reads, an unknown email and a wrong string
      password for a known email produce the very same rejection. */
  lemma FailuresIndistinguishable(users: seq<User>, unknown: Value, known: Value,
                                  p1: Value, p2: string, compare: (string, string) -> bool)
    requires !EmailTaken(users, unknown)
    requires EmailTaken(users, known)
    requires Password(users[IndexOfEmail(users, known)]).Str?
    requires !compare(p2, Password(users[IndexOfEmail(users, known)]).s)
    ensures LocalVerify(Present(users), Present(users), unknown, p1, compare) == Reject(Some(InvalidCredentials))
    ensures LocalVerify(Present(users), Present(users), known, Str(p2), compare) == Reject(Some(InvalidCredentials))
  {
    var k := IndexOfEmail(users, known);
    assert GetByEmail(Present(users), known) == Ok(Some(users[k]));
  }

  /** A password that is not a string tells the two apart: for an unknown email
      it is rejected with the usual message, while for a known email
      `compareSync` throws and the error goes to `done(err)`. */
  lemma NonStringPasswordRevealsAccount(users: seq<User>, unknown: Value, known: Value,
                                        password: Value, compare: (string, string) -> bool)
    requires !EmailTaken(users, unknown)
    requires EmailTaken(users, known)
    requires !password.Str?
    ensures LocalVerify(Present(users), Present(users), unknown, password, compare) == Reject(Some(InvalidCredentials))
    ensures LocalVerify(Present(users), Present(users), known, password, compare) == Fail(HashFailed)
  {
    var k := IndexOfEmail(users, known);
    assert GetByEmail(Present(users), known) == Ok(Some(users[k]));
  }

  /** A user registered through `createUser` logs in with the password given at
      registration, and gets the stored record without its hash. */
  lemma RegisterThenLogin(users: seq<User>, id: string, input: UserInput, pw: string,
                          hash: string -> string, compare: (string, string) -> bool)
    requires SelfEqual(input.email) && input.password == Str(pw)
    requires !EmailTaken(users, input.email)
    requires compare(pw, hash(pw))
    ensures var s := Present(users + [NewUser(id, input, hash(pw))]);
      LocalVerify(s, s, input.email, input.password, compare) == Accept(WithoutPassword(NewUser(id, input, hash(pw))))
  {
    CreateThenGetByEmail(users, id, input, hash(pw));
  }

  /** The `jwt` strategy's verify callback: the user whose id the payload names,
      or a rejection when no such user is left. The record it yields is the
      stored one, password hash included. */
  function JwtVerify(s: Snapshot<User>, payload: Object): (v: Verdict)
    ensures s.Unreadable? ==> v == Fail(ReadFailed)
    ensures !s.Unreadable? ==>
      (v.Reject? <==> forall i :: 0 <= i < |Docs(s)| ==> !StrictEq(Str(Docs(s)[i].id), Get(payload, "id")))
    ensures v.Reject? ==> v.message == None
    ensures v.Fail? <==> s.Unreadable?
    ensures v.Accept? ==> v.user in Docs(s) && StrictEq(Str(v.user.id), Get(payload, "id"))
    ensures v.Accept? ==> v.user == Docs(s)[IndexOfUserId(Docs(s), Get(payload, "id"))]
  {
    match GetById(s, Get(payload, "id"))
    case Err(e) => Fail(e)
    case Ok(found) => if found.None? then Reject(None) else Accept(found.value)
  }

  /** The record the `jwt` strategy hands on carries the password hash: a user
      created by `createUser` comes back with `password` set to its hash. */
  lemma JwtVerifyExposesHash(users: seq<User>, id: string, input: UserInput, hashed: string)
    requires forall i :: 0 <= i < |users| ==> users[i].id != id
    ensures var v := JwtVerify(Present(users + [NewUser(id, input, hashed)]), map["id" := Str(id)]);
      v.Accept? && Password(v.user) == Str(hashed)
  {
    var vs := users + [NewUser(id, input, hashed)];
    forall i | 0 <= i < |users| ensures !StrictEq(Str(vs[i].id), Str(id)) {
      assert vs[i] == users[i];
    }
    assert vs[|users|].id == id;
    assert StrictEq(Str(vs[|users|].id), Str(id));
    assert IndexOfUserId(vs, Str(id)) == |users|;
  }

  /** The `jwt` verify callback with the record stripped of its password, as
      the `local` strategy already does. */
  function JwtVerifySafe(s: Snapshot<User>, payload: Object): (v: Verdict)
    ensures v.Accept? ==> "password" !in v.user.fields
    ensures v.Accept? ==> exists u :: u in Docs(s) && v.user == WithoutPassword(u) && StrictEq(Str(u.id), Get(payload, "id"))
    ensures !v.Accept? ==> v == JwtVerify(s, payload)
    ensures v.Accept? <==> JwtVerify(s, payload).Accept?
    ensures v.Accept? ==> v.user == WithoutPassword(JwtVerify(s, payload).user)
  {
    match JwtVerify(s, payload)
    case Accept(u) => Accept(WithoutPassword(u))
    case other => other
  }

  /** A token naming a user that `deleteUser` has since removed is rejected, even
      though passport-jwt accepted its signature and expiry. */
  lemma DeletedUserTokenRejected(users: seq<User>, id: string)
    ensures JwtVerify(Present(WithoutUserId(users, id)), map["id" := Str(id)]) == Reject(None)
    ensures JwtVerifySafe(Present(WithoutUserId(users, id)), map["id" := Str(id)]) == Reject(None)
  {
    DeleteThenGetById(users, id);
  }

  /** `updateUser` writes a falsy password over the stored hash as it is. After a
      patch with `password: null` for the user at position `k`, the first user
      stored with its email (which every user is when emails are unique), every
      login with that email throws in `compareSync` instead of being checked. */
  lemma NullPasswordBreaksLogin(users: seq<User>, k: int, hash: string -> string, password: Value,
                                compare: (string, string) -> bool)
    requires 0 <= k < |users|
    requires IndexOfEmail(users, Email(users[k])) == k
    ensures var after := users[k := Merged(users[k], PreparedPatch(map["password" := Null], hash))];
      LocalVerify(Present(after), Present(after), Email(users[k]), password, compare) == Fail(HashFailed)
  {
    var e := Email(users[k]);
    var v := Merged(users[k], PreparedPatch(map["password" := Null], hash));
    var after := users[k := v];
    UpdatePasswordOutcome(users[k], map["password" := Null], hash);
    assert Email(v) == e;
    assert StrictEq(Email(after[k]), e);
    forall i | 0 <= i < k ensures !StrictEq(Email(after[i]), e) {
      assert after[i] == users[i];
    }
    assert IndexOfEmail(after, e) == k;
    assert EmailTaken(after, e);
  }
}
