/** The user handlers: registration over a user table, and the read-only
    login, listing and lookup. */
module UserController {
  import opened Common
  import opened UserModel

  /** The first user with the given email (`User.findOne({where: {email}})`). */
  function FindByEmail(users: seq<User>, email: string): (r: Option<User>)
    ensures r.Some? ==> r.value in users && r.value.email == email
    ensures r.None? <==> forall k :: 0 <= k < |users| ==> users[k].email != email
  {
    if users == [] then None
    else if users[0].email == email then Some(users[0])
    else FindByEmail(users[1..], email)
  }

  /** The first user with the given id (`User.findByPk(id)`). */
  function FindById(users: seq<User>, id: Id): (r: Option<User>)
    ensures r.Some? ==> r.value in users && r.value.id == id
    ensures r.None? <==> forall k :: 0 <= k < |users| ==> users[k].id != id
  {
    if users == [] then None
    else if users[0].id == id then Some(users[0])
    else FindById(users[1..], id)
  }

  /** The uniqueness constraints of the `users` table. */
  ghost predicate UniqueUsers(users: seq<User>)
  {
    forall j, k :: 0 <= j < k < |users| ==>
      users[j].id != users[k].id && users[j].username != users[k].username
      && users[j].email != users[k].email
  }

  /** In a table with unique emails, the user found by email is the one. */
  lemma FindByEmailUnique(users: seq<User>, k: nat)
    requires UniqueUsers(users) && k < |users|
    ensures FindByEmail(users, users[k].email) == Some(users[k])
  {
    if k > 0 {
      assert users[0].email != users[k].email;
      assert users[1..][k - 1] == users[k];
      FindByEmailUnique(users[1..], k - 1);
    }
  }

  /** `registerUser`'s duplicate check: some user has this email or this
      username. */
  predicate Taken(users: seq<User>, username: string, email: string)
  {
    exists k :: 0 <= k < |users| && (users[k].email == email || users[k].username == username)
  }

  class UserTable {
    var rows: seq<User>

    ghost predicate Valid()
      reads this
    {
      UniqueUsers(rows)
    }

    constructor ()
      ensures Valid() && rows == []
    {
      rows := [];
    }

    /** `registerUser`. `newId` is the UUID the database would generate and
        `salt` what `genSalt` would return. The checks run in the handler's
        order: missing fields, then an existing user with the same email or
        username, then the model's validators and the primary key; only a
        request that passes all of them inserts a row, exactly one, whose
        password is the hash of the one sent. */
    method RegisterUser(username: Field, email: Field, password: Field,
                        newId: Id, salt: Salt, h: Hasher)
      returns (r: Reply<PublicUser>)
      requires Valid()
      modifies this
      ensures Valid()
      ensures !Truthy(username) || !Truthy(email) || !Truthy(password) ==>
        r == Refusal(400, "Please provide username, email and password") && rows == old(rows)
      ensures Truthy(username) && Truthy(email) && Truthy(password) ==>
        var candidate := NewUser(newId, username.value, email.value, password.value);
        if Taken(old(rows), username.value, email.value) then
          r == Refusal(400, "User already exists") && rows == old(rows)
        else if !ValidNewUser(candidate) || FindById(old(rows), newId).Some? then
          r == InternalError && rows == old(rows)
        else
          var stored := candidate.(password := h.hash(password.value, salt));
          rows == old(rows) + [stored] && r == Answer(201, ToJson(stored))
    {
      if !Truthy(username) || !Truthy(email) || !Truthy(password) {
        return Refusal(400, "Please provide username, email and password");
      }
      if Taken(rows, username.value, email.value) {
        return Refusal(400, "User already exists");
      }
      var candidate := NewUser(newId, username.value, email.value, password.value);
      if !ValidNewUser(candidate) || FindById(rows, newId).Some? {
        return InternalError;
      }
      var instance := new UserInstance.Build(candidate);
      instance.BeforeCreate(h, salt);
      var stored := instance.values;
      rows := rows + [stored];
      r := Answer(201, ToJson(stored));
    }
  }

  /** `loginUser`: the same 401 answer whether the email is unknown or the
      password is wrong, so a caller cannot tell which accounts exist. */
  function LoginUser(users: seq<User>, email: Field, password: Field, h: Hasher): (r: Reply<PublicUser>)
    ensures !Truthy(email) || !Truthy(password) ==> r == Refusal(400, "Please provide email and password")
    ensures r.Answer? ==> r.status == 200 && Truthy(email) && Truthy(password)
    ensures r.Answer? ==>
      exists k :: 0 <= k < |users| && users[k].email == email.value
        && MatchPassword(h, users[k], password.value) && r.body == ToJson(users[k])
    ensures Truthy(email) && Truthy(password) && !r.Answer? ==> r == Refusal(401, "Invalid credentials")
  {
    if !Truthy(email) || !Truthy(password) then
      Refusal(400, "Please provide email and password")
    else
      match FindByEmail(users, email.value)
      case None => Refusal(401, "Invalid credentials")
      case Some(u) =>
        if !MatchPassword(h, u, password.value) then Refusal(401, "Invalid credentials")
        else Answer(200, ToJson(u))
  }

  /** In a table with unique emails, login succeeds exactly when some user
      has the email and the password matches that user's hash. */
  lemma LoginSucceedsIff(users: seq<User>, email: string, password: string, h: Hasher)
    requires UniqueUsers(users) && email != "" && password != ""
    ensures LoginUser(users, Some(email), Some(password), h).Answer? <==>
      exists k :: 0 <= k < |users| && users[k].email == email && MatchPassword(h, users[k], password)
  {
    if exists k :: 0 <= k < |users| && users[k].email == email && MatchPassword(h, users[k], password) {
      var k :| 0 <= k < |users| && users[k].email == email && MatchPassword(h, users[k], password);
      FindByEmailUnique(users, k);
    }
  }

  /** A user registered with a password can log in with it, and login
      answers with that user, provided bcrypt is sound. */
  lemma LoginAfterRegister(users: seq<User>, username: string, email: string, password: string,
                           newId: Id, salt: Salt, h: Hasher)
    requires Sound(h) && UniqueUsers(users)
    requires email != "" && password != ""
    requires !Taken(users, username, email) && FindById(users, newId).None?
    ensures var stored := NewUser(newId, username, email, h.hash(password, salt));
      UniqueUsers(users + [stored])
      && LoginUser(users + [stored], Some(email), Some(password), h) == Answer(200, ToJson(stored))
  {
    var stored := NewUser(newId, username, email, h.hash(password, salt));
    var all := users + [stored];
    forall j, k | 0 <= j < k < |all|
      ensures all[j].id != all[k].id && all[j].username != all[k].username && all[j].email != all[k].email
    {
      if k == |users| {
        assert all[j] == users[j];
      }
    }
    FindByEmailUnique(all, |users|);
  }

  /** `getAllUsers`: every user, each without its password. */
  function GetAllUsers(users: seq<User>): (r: seq<PublicUser>)
    ensures |r| == |users|
    ensures forall k :: 0 <= k < |users| ==> r[k] == ToJson(users[k])
  {
    if users == [] then [] else [ToJson(users[0])] + GetAllUsers(users[1..])
  }

  /** `getUserById`: the user without its password, or 404. */
  function GetUserById(users: seq<User>, id: Id): (r: Reply<PublicUser>)
    ensures r.Answer? <==> exists k :: 0 <= k < |users| && users[k].id == id
    ensures r.Answer? ==> r.status == 200 && exists k :: 0 <= k < |users| && users[k].id == id && r.body == ToJson(users[k])
    ensures r.Refusal? ==> r == Refusal(404, "User not found")
  {
    match FindById(users, id)
    case None => Refusal(404, "User not found")
    case Some(u) => Answer(200, ToJson(u))
  }
}
