/** The `User` model: its fields and their constraints, the defaults, the
    password hooks that run before a row is created or updated, and the
    `toJSON` view that every response uses. bcrypt is not modelled: the
    hashing and comparison functions are a `Hasher` the caller supplies. */
module UserModel {
  import opened Common
  import Strings

  datatype User = User(
    id: Id,
    username: string,
    email: string,
    password: string,
    avatar: string,
    isOnline: bool)

  /** What `toJSON` leaves of a user: every field but the password. */
  datatype PublicUser = PublicUser(
    id: Id,
    username: string,
    email: string,
    avatar: string,
    isOnline: bool)

  /** The author fields that message and channel reads join in
      (`attributes: ['id', 'username', 'avatar']`). */
  datatype AuthorView = AuthorView(id: Id, username: string, avatar: string)

  const DefaultAvatar: string := "https://placehold.co/150"

  /** A row as `User.create({username, email, password})` builds it before
      validation and hooks: the omitted fields take their defaults. */
  function NewUser(id: Id, username: string, email: string, password: string): (u: User)
    ensures u.avatar == DefaultAvatar && !u.isOnline
    ensures u.username == username && u.email == email && u.password == password && u.id == id
  {
    User(id, username, email, password, DefaultAvatar, false)
  }

  /** `User.prototype.toJSON`: a copy of the row's values without the
      password; the row itself is a value and stays as it was. */
  function ToJson(u: User): (r: PublicUser)
    ensures r.id == u.id && r.username == u.username && r.email == u.email
    ensures r.avatar == u.avatar && r.isOnline == u.isOnline
  {
    PublicUser(u.id, u.username, u.email, u.avatar, u.isOnline)
  }

  /** `toJSON` forgets the password and nothing else: two users have the
      same JSON exactly when they differ at most in their passwords. */
  lemma ToJsonForgetsOnlyPassword(a: User, b: User)
    ensures ToJson(a) == ToJson(b) <==> a == b.(password := a.password)
  {
    if ToJson(a) == ToJson(b) {
      assert a.id == ToJson(a).id == ToJson(b).id == b.id;
      assert a.username == ToJson(b).username && a.email == ToJson(b).email;
      assert a.avatar == ToJson(b).avatar && a.isOnline == ToJson(b).isOnline;
    }
  }

  function AuthorOf(u: User): (a: AuthorView)
    ensures a.id == u.id && a.username == u.username && a.avatar == u.avatar
  {
    AuthorView(u.id, u.username, u.avatar)
  }

  // ----- field constraints -----

  /** `username`: `STRING(20)`, `len: [3, 20]`. */
  predicate ValidUsername(s: string)
  {
    3 <= |s| <= 20
  }

  /** `isEmail`, simplified: one `@` with a non-empty local part before it
      and a dotted domain after it, and no white space. */
  predicate IsEmail(s: string)
  {
    && '@' in s
    && (forall k :: 0 <= k < |s| ==> !Strings.IsSpace(s[k]))
    && var at := Strings.IndexOf(s, '@');
       && 0 < at
       && '@' !in s[at + 1..]
       && '.' in s[at + 1..]
       && s[at + 1] != '.' && s[|s| - 1] != '.'
  }

  /** `email`: `STRING(100)` with the `isEmail` validator. */
  predicate ValidEmail(s: string)
  {
    |s| <= 100 && IsEmail(s)
  }

  /** `password`: `len: [6, 100]`, checked on the value the client sent,
      since Sequelize validates before the create hook replaces it. */
  predicate ValidPassword(s: string)
  {
    6 <= |s| <= 100
  }

  /** The validators a new row must pass before it is hashed and inserted. */
  predicate ValidNewUser(u: User)
  {
    ValidUsername(u.username) && ValidEmail(u.email) && ValidPassword(u.password)
  }

  // ----- password hashing -----

  /** bcrypt's random salt, chosen by `genSalt`. */
  type Salt = nat

  /** bcrypt as two opaque functions: `hash(password, salt)` and
      `compare(candidate, storedHash)`. */
  datatype Hasher = Hasher(hash: (string, Salt) -> string, compare: (string, string) -> bool)

  /** What bcrypt promises: a password matches every hash made from it. */
  ghost predicate Sound(h: Hasher)
  {
    forall p, salt :: h.compare(p, h.hash(p, salt))
  }

  /** `user.matchPassword(entered)`. */
  predicate MatchPassword(h: Hasher, u: User, entered: string)
  {
    h.compare(entered, u.password)
  }

  /** A user instance on its way to the database, as the hooks see it:
      `values` are its current field values and `savedPassword` is the
      password last read from or written to the database (`None` for an
      instance never saved), against which `changed('password')` compares. */
  class UserInstance {
    var values: User
    var savedPassword: Option<string>

    constructor Build(u: User)
      ensures values == u && savedPassword == None
    {
      values := u;
      savedPassword := None;
    }

    /** `changed('password')`. */
    predicate PasswordChanged()
      reads this
    {
      savedPassword != Some(values.password)
    }

    /** The `beforeCreate` hook: a non-empty password is replaced by its
        hash; every other field is left alone. */
    method BeforeCreate(h: Hasher, salt: Salt)
      modifies this`values
      ensures old(values.password) != "" ==>
        values == old(values).(password := h.hash(old(values.password), salt))
      ensures old(values.password) == "" ==> values == old(values)
    {
      if values.password != "" {
        values := values.(password := h.hash(values.password, salt));
      }
    }

    /** The `beforeUpdate` hook: the password is rehashed only when it
        differs from the saved one, so a stored hash is never hashed twice. */
    method BeforeUpdate(h: Hasher, salt: Salt)
      modifies this`values
      ensures old(PasswordChanged()) ==>
        values == old(values).(password := h.hash(old(values.password), salt))
      ensures !old(PasswordChanged()) ==> values == old(values)
    {
      if PasswordChanged() {
        values := values.(password := h.hash(values.password, salt));
      }
    }
  }

  /** With a sound hasher, the password a user was created with matches the
      row the create hook produced. */
  lemma CreatedPasswordMatches(h: Hasher, u: User, salt: Salt)
    requires Sound(h)
    requires u.password != ""
    ensures MatchPassword(h, u.(password := h.hash(u.password, salt)), u.password)
  {
  }
}
