/** The user collection. `UserManager` holds no users in memory: every call reads
    the JSON file afresh, works on that array, and writes the whole array back
    when it changes something. `createUser` stores a bcrypt hash, and `updateUser`
    hashes a truthy new password but stores a falsy one as it is. The records that
    `createUser` and `updateUser` return leave the password out; those of
    `getByEmail` and `getById` keep it. */
module Users {
  import opened Values
  import opened Store

  /** The properties of a user object other than `id`. */
  type Fields = m: Object | "id" !in m witness map[]

  datatype User = User(id: string, fields: Fields)

  function Email(u: User): Value
  {
    Get(u.fields, "email")
  }

  function Password(u: User): Value
  {
    Get(u.fields, "password")
  }

  /** `const { password, ...safe } = u`: the record without its password. */
  function WithoutPassword(u: User): (v: User)
    ensures v.id == u.id && "password" !in v.fields
    ensures v.fields.Keys == u.fields.Keys - {"password"}
    ensures forall k :: k != "password" ==> Get(v.fields, k) == Get(u.fields, k)
  {
    User(u.id, u.fields - {"password"})
  }

  /** The properties `createUser` destructures from its argument (`undefined` when absent). */
  datatype UserInput = UserInput(
    firstName: Value, lastName: Value, email: Value, age: Value,
    password: Value, cart: Value, role: Value)

  /** The guard of `createUser`: names, email and password truthy, and an age that
      is merely defined, so an age of 0 passes. */
  predicate HasRequiredFields(input: UserInput)
  {
    Truthy(input.firstName) && Truthy(input.lastName) && Truthy(input.email) &&
    input.age != Undefined && Truthy(input.password)
  }

  /** An age of 0 passes the guard, while a missing age or an empty password
      does not. */
  lemma AgeNeedsOnlyBeDefined(input: UserInput)
    requires Truthy(input.firstName) && Truthy(input.lastName) && Truthy(input.email) && Truthy(input.password)
    ensures input.age == Num(0.0) ==> HasRequiredFields(input)
    ensures input.age == Undefined ==> !HasRequiredFields(input)
    ensures !HasRequiredFields(input.(password := Str("")))
  {
  }

  /** The users a snapshot holds; none when the file is missing or unreadable. */
  function Docs(s: Snapshot<User>): seq<User>
  {
    if s.Present? then s.docs else []
  }

  /** `_readData`: a missing file reads as no users; any other failure is thrown. */
  function ReadData(s: Snapshot<User>): (r: Result<seq<User>>)
    ensures r.Ok? <==> !s.Unreadable?
    ensures r.Ok? ==> r.value == Docs(s)
    ensures s.Missing? ==> r == Ok([])
    ensures r.Err? ==> r.error == ReadFailed
  {
    match s
    case Missing => Ok([])
    case Unreadable => Err(ReadFailed)
    case Present(docs) => Ok(docs)
  }

  /** The first position whose email is `===` to `email`, or -1. */
  function IndexOfEmail(users: seq<User>, email: Value): (k: int)
    ensures -1 <= k < |users|
    ensures k == -1 <==> forall i :: 0 <= i < |users| ==> !StrictEq(Email(users[i]), email)
    ensures 0 <= k ==> StrictEq(Email(users[k]), email) && forall i :: 0 <= i < k ==> !StrictEq(Email(users[i]), email)
  {
    if users == [] then -1
    else if StrictEq(Email(users[0]), email) then 0
    else
      var k := IndexOfEmail(users[1..], email);
      if k == -1 then -1 else k + 1
  }

  /** The first position whose id is `===` to `id`, or -1. */
  function IndexOfUserId(users: seq<User>, id: Value): (k: int)
    ensures -1 <= k < |users|
    ensures k == -1 <==> forall i :: 0 <= i < |users| ==> !StrictEq(Str(users[i].id), id)
    ensures 0 <= k ==> StrictEq(Str(users[k].id), id) && forall i :: 0 <= i < k ==> !StrictEq(Str(users[i].id), id)
  {
    if users == [] then -1
    else if StrictEq(Str(users[0].id), id) then 0
    else
      var k := IndexOfUserId(users[1..], id);
      if k == -1 then -1 else k + 1
  }

  /** `users.some(u => u.email === email)`. */
  predicate EmailTaken(users: seq<User>, email: Value)
  {
    exists i :: 0 <= i < |users| && StrictEq(Email(users[i]), email)
  }

  /** `some` and `findIndex` agree: an email is taken exactly when the search
      for it finds a position. */
  lemma EmailTakenIffFound(users: seq<User>, email: Value)
    ensures EmailTaken(users, email) <==> IndexOfEmail(users, email) != -1
  {
  }

  predicate DistinctUserIds(users: seq<User>)
  {
    forall i, j :: 0 <= i < j < |users| ==> users[i].id != users[j].id
  }

  /** No two users share a truthy email. (A patch may set a falsy email, such as
      the empty string, on several users: `updateUser` checks only truthy ones.) */
  predicate UniqueEmails(users: seq<User>)
  {
    forall i, j :: 0 <= i < j < |users| && Truthy(Email(users[i])) ==> !StrictEq(Email(users[i]), Email(users[j]))
  }

  /** `getByEmail`: the first user with that email, `null` when there is none; only
      a failed read throws. */
  function GetByEmail(s: Snapshot<User>, email: Value): (r: Result<Option<User>>)
    ensures r.Err? <==> s.Unreadable?
    ensures r.Err? ==> r.error == ReadFailed
    ensures r.Ok? ==> (r.value.None? <==> !EmailTaken(Docs(s), email))
    ensures r.Ok? && r.value.Some? ==>
      exists k :: 0 <= k < |Docs(s)| && Docs(s)[k] == r.value.value && StrictEq(Email(Docs(s)[k]), email) &&
        forall i :: 0 <= i < k ==> !StrictEq(Email(Docs(s)[i]), email)
  {
    match ReadData(s)
    case Err(e) => Err(e)
    case Ok(users) =>
      var k := IndexOfEmail(users, email);
      if k == -1 then Ok(None) else Ok(Some(users[k]))
  }

  /** `getById`: the first user with that id, `null` when there is none; only a
      failed read throws. The record keeps its password hash. */
  function GetById(s: Snapshot<User>, id: Value): (r: Result<Option<User>>)
    ensures r.Err? <==> s.Unreadable?
    ensures r.Err? ==> r.error == ReadFailed
    ensures r.Ok? ==> (r.value.None? <==> forall i :: 0 <= i < |Docs(s)| ==> !StrictEq(Str(Docs(s)[i].id), id))
    ensures r.Ok? && r.value.Some? ==>
      exists k :: 0 <= k < |Docs(s)| && Docs(s)[k] == r.value.value && StrictEq(Str(Docs(s)[k].id), id) &&
        forall i :: 0 <= i < k ==> !StrictEq(Str(Docs(s)[i].id), id)
  {
    match ReadData(s)
    case Err(e) => Err(e)
    case Ok(users) =>
      var k := IndexOfUserId(users, id);
      if k == -1 then Ok(None) else Ok(Some(users[k]))
  }

  /** The record `createUser` stores: `age` through `Number`, the password as the
      given hash, `cart` defaulting to `null` and `role` to `'user'`. */
  function NewUser(id: string, input: UserInput, hashed: string): (u: User)
    ensures u.id == id
    ensures u.fields.Keys == {"first_name", "last_name", "email", "age", "password", "cart", "role"}
    ensures Get(u.fields, "first_name") == input.firstName && Get(u.fields, "last_name") == input.lastName
    ensures Email(u) == input.email && Password(u) == Str(hashed)
    ensures Get(u.fields, "age") == ToNumber(input.age)
    ensures Get(u.fields, "cart") == if input.cart == Undefined then Null else input.cart
    ensures Get(u.fields, "role") == if Truthy(input.role) then input.role else Str("user")
  {
    User(id, map[
      "first_name" := input.firstName,
      "last_name" := input.lastName,
      "email" := input.email,
      "age" := ToNumber(input.age),
      "password" := Str(hashed),
      "cart" := if input.cart == Undefined then Null else input.cart,
      "role" := if Truthy(input.role) then input.role else Str("user")])
  }

  /** What a call returns or throws, and the array it hands to `_writeData`
      (`None` when it writes nothing). */
  datatype Reply<T> = Reply(result: Result<T>, written: Option<seq<User>>)

  lemma AppendKeepsUnique(users: seq<User>, u: User)
    requires !EmailTaken(users, Email(u))
    requires forall i :: 0 <= i < |users| ==> users[i].id != u.id
    ensures UniqueEmails(users) ==> UniqueEmails(users + [u])
    ensures DistinctUserIds(users) ==> DistinctUserIds(users + [u])
  {
    var vs := users + [u];
    forall i | 0 <= i < |users| ensures !StrictEq(Email(vs[i]), Email(u)) && vs[i].id != u.id {
      assert vs[i] == users[i];
    }
  }

  /** `createUser`. The guard runs before the file is read; a duplicate email is
      refused before anything is hashed or written. `hash` is bcrypt with the
      salt drawn for this call, and bcrypt throws on a password that is not a
      string. `freshId` is the `randomUUID()` of this call. */
  method CreateUser(s: Snapshot<User>, input: UserInput, freshId: string, hash: string -> string, writeOk: bool)
    returns (reply: Reply<User>)
    requires forall i :: 0 <= i < |Docs(s)| ==> Docs(s)[i].id != freshId
    ensures !HasRequiredFields(input) ==> reply == Reply(Err(MissingRequiredFields), None)
    ensures HasRequiredFields(input) && s.Unreadable? ==> reply == Reply(Err(ReadFailed), None)
    ensures HasRequiredFields(input) && !s.Unreadable? && EmailTaken(Docs(s), input.email) ==>
      reply == Reply(Err(DuplicateEmail(input.email)), None)
    ensures HasRequiredFields(input) && !s.Unreadable? && !EmailTaken(Docs(s), input.email) && !input.password.Str? ==>
      reply == Reply(Err(HashFailed), None)
    ensures HasRequiredFields(input) && !s.Unreadable? && !EmailTaken(Docs(s), input.email) && input.password.Str? ==>
      var u := NewUser(freshId, input, hash(input.password.s));
      && reply.written == Some(Docs(s) + [u])
      && reply.result == if writeOk then Ok(WithoutPassword(u)) else Err(WriteFailed)
    ensures reply.written.Some? && UniqueEmails(Docs(s)) ==> UniqueEmails(reply.written.value)
    ensures reply.written.Some? && DistinctUserIds(Docs(s)) ==> DistinctUserIds(reply.written.value)
    ensures reply.result.Ok? ==> "password" !in reply.result.value.fields
    ensures reply.written.Some? ==>
      && input.password.Str?
      && |reply.written.value| == |Docs(s)| + 1
      && reply.written.value[..|Docs(s)|] == Docs(s)
      && Password(reply.written.value[|Docs(s)|]) == Str(hash(input.password.s))
  {
    if !HasRequiredFields(input) {
      return Reply(Err(MissingRequiredFields), None);
    }
    var read := ReadData(s);
    if read.Err? {
      return Reply(Err(read.error), None);
    }
    var users := read.value;
    if EmailTaken(users, input.email) {
      return Reply(Err(DuplicateEmail(input.email)), None);
    }
    if !input.password.Str? {
      return Reply(Err(HashFailed), None);
    }
    var hashed := hash(input.password.s);
    var newUser := NewUser(freshId, input, hashed);
    AppendKeepsUnique(users, newUser);
    users := users + [newUser];
    var safeUser := WithoutPassword(newUser);
    reply := Reply(if writeOk then Ok(safeUser) else Err(WriteFailed), Some(users));
  }

  /** The patch names a truthy email that a user with another id already has. */
  predicate EmailClash(users: seq<User>, id: string, patch: Object)
  {
    Truthy(Get(patch, "email")) &&
    exists i :: 0 <= i < |users| && StrictEq(Email(users[i]), Get(patch, "email")) && users[i].id != id
  }

  /** The email check skips the updated user itself: with distinct ids and
      unique emails, a patch that re-sends the user's own email is no clash, and
      a falsy email never clashes. A truthy email held by another user always
      does. */
  lemma EmailClashOnlyWithOthers(users: seq<User>, k: int, patch: Object)
    requires 0 <= k < |users|
    ensures DistinctUserIds(users) && UniqueEmails(users) && Get(patch, "email") == Email(users[k]) ==>
      !EmailClash(users, users[k].id, patch)
    ensures !Truthy(Get(patch, "email")) ==> !EmailClash(users, users[k].id, patch)
    ensures forall j :: 0 <= j < |users| && users[j].id != users[k].id && Truthy(Email(users[j]))
                     && StrictEq(Email(users[j]), Get(patch, "email"))
                     ==> EmailClash(users, users[k].id, patch)
  {
    if DistinctUserIds(users) && UniqueEmails(users) && Get(patch, "email") == Email(users[k])
       && Truthy(Get(patch, "email")) {
      forall i | 0 <= i < |users| && users[i].id != users[k].id
        ensures !StrictEq(Email(users[i]), Get(patch, "email"))
      {
        StrictEqSymmetric(Email(users[i]), Email(users[k]));
      }
    }
  }

  /** The patch `updateUser` merges: without `id`, and with a truthy string
      password replaced by its hash. */
  function PreparedPatch(patch: Object, hash: string -> string): (p: Object)
    ensures "id" !in p
    ensures p.Keys == patch.Keys - {"id"}
    ensures forall k :: k != "id" && k != "password" ==> Get(p, k) == Get(patch, k)
    ensures Truthy(Get(patch, "password")) && Get(patch, "password").Str? ==>
      Get(p, "password") == Str(hash(Get(patch, "password").s))
    ensures !Truthy(Get(patch, "password")) ==> Get(p, "password") == Get(patch, "password")
  {
    var fields := patch - {"id"};
    var pw := Get(fields, "password");
    if Truthy(pw) && pw.Str? then fields["password" := Str(hash(pw.s))] else fields
  }

  /** `{ ...u, ...patch }`: the id is the user's own. */
  function Merged(u: User, patch: Object): (v: User)
    requires "id" !in patch
    ensures v.id == u.id
    ensures v.fields.Keys == u.fields.Keys + patch.Keys
    ensures forall k :: Get(v.fields, k) == if k in patch then patch[k] else Get(u.fields, k)
  {
    User(u.id, Spread(u.fields, patch))
  }

  /** What `updateUser` leaves as the stored password: the old hash when the
      patch has no `password`, the hash of a truthy string password, and a falsy
      password (`""`, `null`, `0`, `false`) written over the hash as it is. */
  lemma UpdatePasswordOutcome(u: User, patch: Object, hash: string -> string)
    ensures "password" !in patch ==> Password(Merged(u, PreparedPatch(patch, hash))) == Password(u)
    ensures var pw := Get(patch, "password");
      Truthy(pw) && pw.Str? ==> Password(Merged(u, PreparedPatch(patch, hash))) == Str(hash(pw.s))
    ensures "password" in patch && !Truthy(patch["password"]) ==>
      Password(Merged(u, PreparedPatch(patch, hash))) == patch["password"]
  {
    var p := PreparedPatch(patch, hash);
    if "password" !in patch {
      assert "password" !in p;
    } else if !Truthy(patch["password"]) {
      assert "password" in p;
    }
  }

  /** Replacing one user by a merge that passed the email check keeps truthy
      emails unique, provided ids are distinct (the check skips only the users
      with the updated id). */
  lemma UpdateKeepsUnique(users: seq<User>, k: int, id: string, patch: Object)
    requires 0 <= k < |users| && users[k].id == id
    requires "id" !in patch
    requires !EmailClash(users, id, patch)
    ensures DistinctUserIds(users) && UniqueEmails(users) ==> UniqueEmails(users[k := Merged(users[k], patch)])
    ensures DistinctUserIds(users) ==> DistinctUserIds(users[k := Merged(users[k], patch)])
  {
    if !DistinctUserIds(users) || !UniqueEmails(users) {
      return;
    }
    var v := Merged(users[k], patch);
    var after := users[k := v];
    forall i, j | 0 <= i < j < |after| && Truthy(Email(after[i]))
      ensures !StrictEq(Email(after[i]), Email(after[j]))
    {
      if i == k || j == k {
        var other := if i == k then j else i;
        assert users[other].id != id;
        StrictEqSymmetric(Email(after[i]), Email(after[j]));
        if "email" !in patch {
          assert Email(v) == Email(users[k]);
        }
      }
    }
  }

  /** `updateUser`: finds the user, drops `id` from the patch, refuses an email
      that a user with another id has, hashes a truthy password, and stores the
      merge in place of that one user. */
  method UpdateUser(s: Snapshot<User>, id: string, patch: Object, hash: string -> string, writeOk: bool)
    returns (reply: Reply<User>)
    ensures s.Unreadable? ==> reply == Reply(Err(ReadFailed), None)
    ensures !s.Unreadable? && IndexOfUserId(Docs(s), Str(id)) == -1 ==>
      reply == Reply(Err(UserNotFound(id)), None)
    ensures var k := IndexOfUserId(Docs(s), Str(id));
      !s.Unreadable? && k != -1 && EmailClash(Docs(s), id, patch) ==>
        reply == Reply(Err(DuplicateEmail(Get(patch, "email"))), None)
    ensures var k := IndexOfUserId(Docs(s), Str(id));
      var pw := Get(patch, "password");
      !s.Unreadable? && k != -1 && !EmailClash(Docs(s), id, patch) && Truthy(pw) && !pw.Str? ==>
        reply == Reply(Err(HashFailed), None)
    ensures var k := IndexOfUserId(Docs(s), Str(id));
      var pw := Get(patch, "password");
      !s.Unreadable? && k != -1 && !EmailClash(Docs(s), id, patch) && (Truthy(pw) ==> pw.Str?) ==>
        var v := Merged(Docs(s)[k], PreparedPatch(patch, hash));
        && reply.written == Some(Docs(s)[k := v])
        && reply.result == if writeOk then Ok(WithoutPassword(v)) else Err(WriteFailed)
    ensures reply.written.Some? && UniqueEmails(Docs(s)) && DistinctUserIds(Docs(s)) ==>
      UniqueEmails(reply.written.value) && DistinctUserIds(reply.written.value)
    ensures reply.result.Ok? ==> reply.result.value.id == id && "password" !in reply.result.value.fields
    ensures reply.written.Some? ==>
      var k := IndexOfUserId(Docs(s), Str(id));
      var pw := Get(patch, "password");
      && 0 <= k < |Docs(s)| == |reply.written.value|
      && ("password" !in patch ==> Password(reply.written.value[k]) == Password(Docs(s)[k]))
      && (Truthy(pw) ==> pw.Str? && Password(reply.written.value[k]) == Str(hash(pw.s)))
  {
    var read := ReadData(s);
    if read.Err? {
      return Reply(Err(read.error), None);
    }
    var users := read.value;
    var idx := IndexOfUserId(users, Str(id));
    if idx == -1 {
      return Reply(Err(UserNotFound(id)), None);
    }
    var fields := patch - {"id"};
    if EmailClash(users, id, fields) {
      return Reply(Err(DuplicateEmail(Get(fields, "email"))), None);
    }
    var pw := Get(fields, "password");
    if Truthy(pw) {
      if !pw.Str? {
        return Reply(Err(HashFailed), None);
      }
      fields := fields["password" := Str(hash(pw.s))];
    }
    assert fields == PreparedPatch(patch, hash);
    var merged := Merged(users[idx], fields);
    UpdateKeepsUnique(users, idx, id, fields);
    UpdatePasswordOutcome(users[idx], patch, hash);
    users := users[idx := merged];
    reply := Reply(if writeOk then Ok(WithoutPassword(merged)) else Err(WriteFailed), Some(users));
  }

  /** `users.filter(u => u.id !== id)`. */
  function WithoutUserId(users: seq<User>, id: string): (r: seq<User>)
    ensures |r| <= |users|
    ensures forall u :: u in r ==> u in users && u.id != id
    ensures forall u :: u in users && u.id != id ==> u in r
    ensures |r| == |users| <==> forall i :: 0 <= i < |users| ==> users[i].id != id
    ensures |r| == |users| ==> r == users
  {
    if users == [] then []
    else if users[0].id == id then WithoutUserId(users[1..], id)
    else [users[0]] + WithoutUserId(users[1..], id)
  }

  lemma DistinctUserIdsTail(users: seq<User>)
    requires users != [] && DistinctUserIds(users)
    ensures DistinctUserIds(users[1..])
  {
    var tail := users[1..];
    forall i, j | 0 <= i < j < |tail| ensures tail[i].id != tail[j].id {
      assert tail[i] == users[i + 1] && tail[j] == users[j + 1];
    }
  }

  /** When ids are distinct, deleting the user at position `k` leaves the others
      in their original order. */
  lemma {:induction false} DeleteUserKeepsOrder(users: seq<User>, k: int)
    requires DistinctUserIds(users)
    requires 0 <= k < |users|
    ensures WithoutUserId(users, users[k].id) == users[..k] + users[k + 1..]
  {
    var id := users[k].id;
    var tail := users[1..];
    if k == 0 {
      assert WithoutUserId(users, id) == WithoutUserId(tail, id);
      forall i | 0 <= i < |tail| ensures tail[i].id != id {
        assert tail[i] == users[i + 1];
      }
    } else {
      DistinctUserIdsTail(users);
      assert tail[k - 1] == users[k];
      DeleteUserKeepsOrder(tail, k - 1);
      assert users[0].id != id;
      assert WithoutUserId(users, id) == [users[0]] + WithoutUserId(tail, id);
      SplitAfterHead(users, k);
    }
  }

  /** Filtering works element by element, so it keeps the surviving users in
      their original order whatever the file holds, repeated ids included. */
  lemma {:induction false} WithoutUserIdAppend(a: seq<User>, b: seq<User>, id: string)
    ensures WithoutUserId(a + b, id) == WithoutUserId(a, id) + WithoutUserId(b, id)
  {
    if a != [] {
      assert (a + b)[1..] == a[1..] + b;
      WithoutUserIdAppend(a[1..], b, id);
    } else {
      assert a + b == b;
    }
  }

  /** `deleteUser`: writes the users with another id, and returns `{ id }`; throws,
      writing nothing, when no user had that id. */
  function DeleteUser(s: Snapshot<User>, id: string, writeOk: bool): (reply: Reply<string>)
    ensures s.Unreadable? ==> reply == Reply(Err(ReadFailed), None)
    ensures !s.Unreadable? && (forall i :: 0 <= i < |Docs(s)| ==> Docs(s)[i].id != id) ==>
      reply == Reply(Err(UserNotFound(id)), None)
    ensures !s.Unreadable? && (exists i :: 0 <= i < |Docs(s)| && Docs(s)[i].id == id) ==>
      && reply.written == Some(WithoutUserId(Docs(s), id))
      && reply.result == if writeOk then Ok(id) else Err(WriteFailed)
  {
    match ReadData(s)
    case Err(e) => Reply(Err(e), None)
    case Ok(users) =>
      var remaining := WithoutUserId(users, id);
      if |remaining| == |users| then Reply(Err(UserNotFound(id)), None)
      else Reply(if writeOk then Ok(id) else Err(WriteFailed), Some(remaining))
  }

  /** After `createUser` writes, `getByEmail` finds the new user and a second
      `createUser` with that email is refused, for any email that is `===` to
      itself (a string, number, boolean or `null`). */
  lemma CreateThenGetByEmail(users: seq<User>, id: string, input: UserInput, hashed: string)
    requires SelfEqual(input.email)
    requires !EmailTaken(users, input.email)
    ensures GetByEmail(Present(users + [NewUser(id, input, hashed)]), input.email) == Ok(Some(NewUser(id, input, hashed)))
    ensures EmailTaken(users + [NewUser(id, input, hashed)], input.email)
  {
    var vs := users + [NewUser(id, input, hashed)];
    assert StrictEq(Email(vs[|users|]), input.email);
    forall i | 0 <= i < |users| ensures !StrictEq(Email(vs[i]), input.email) {
      assert vs[i] == users[i];
    }
    assert IndexOfEmail(vs, input.email) == |users|;
  }

  /** An object or array email is never `===` to a stored one: after
      `createUser` stores it, `getByEmail` does not find that user, and a second
      `createUser` with the same email is not refused. */
  lemma ObjectEmailNeverTaken(users: seq<User>, id: string, input: UserInput, hashed: string)
    requires input.email.Arr? || input.email.Obj?
    ensures GetByEmail(Present(users + [NewUser(id, input, hashed)]), input.email) == Ok(None)
    ensures !EmailTaken(users + [NewUser(id, input, hashed)], input.email)
  {
  }

  /** After `deleteUser(id)` writes, `getById(id)` gives `null`. */
  lemma DeleteThenGetById(users: seq<User>, id: string)
    ensures GetById(Present(WithoutUserId(users, id)), Str(id)) == Ok(None)
  {
    var r := WithoutUserId(users, id);
    forall i | 0 <= i < |r| ensures !StrictEq(Str(r[i].id), Str(id)) {
      assert r[i] in r;
    }
  }
}
