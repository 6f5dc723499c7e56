/** The `protect` middleware: take the bearer token from the
    `Authorization` header, verify it, load the user it names without the
    password, and either pass the request on or answer 401. */
module AuthMiddleware {
  import opened Common
  import opened Strings
  import opened UserModel
  import UserController

  /** `s.split(' ')[1]`; `None` is `undefined`, when `s` has no space. */
  function SecondField(s: string): (f: Field)
    ensures f.Some? ==> ' ' !in f.value
  {
    var fields := Split(s, ' ');
    if |fields| >= 2 then Some(fields[1]) else None
  }

  /** The value of `authorization.split(' ')[1]` when the header is present
      and starts with `Bearer` (case-sensitive); `None` is `undefined`,
      both for a header that fails the test and for one with no space. */
  function HeaderToken(authorization: Field): (token: Field)
    ensures token.Some? ==> Truthy(authorization) && StartsWith(authorization.value, "Bearer")
    ensures token.Some? ==> ' ' !in token.value
  {
    if Truthy(authorization) && StartsWith(authorization.value, "Bearer") then
      SecondField(authorization.value)
    else None
  }

  /** The first space of `s` is at `i`, `t` follows it, and then comes the
      end of `s` or another space. */
  predicate SecondFieldAt(s: string, i: int, t: string)
  {
    && 0 <= i && i + 1 + |t| <= |s|
    && ' ' !in s[..i] && s[i] == ' '
    && s[i + 1..i + 1 + |t|] == t
    && (i + 1 + |t| == |s| || s[i + 1 + |t|] == ' ')
  }

  /** `t` is the second space-separated field of `s`. */
  ghost predicate SecondFieldIs(s: string, t: string)
  {
    exists i :: SecondFieldAt(s, i, t)
  }

  /** The header carries a usable token `t`: it starts with `Bearer`, its
      first space-separated field is followed by `t`, and `t` is non-empty
      and ends at the next space or at the end of the header. */
  ghost predicate CarriesToken(header: string, t: string)
  {
    && StartsWith(header, "Bearer")
    && t != [] && ' ' !in t
    && SecondFieldIs(header, t)
  }

  /** The second field sits between the first space and the next one, or
      the end of the string. */
  lemma SecondFieldShape(s: string, t: string)
    requires SecondField(s) == Some(t)
    ensures SecondFieldIs(s, t)
  {
    assert ' ' in s;
    var i := IndexOf(s, ' ');
    var after := s[i + 1..];
    assert t == Split(after, ' ')[0] by {
      assert Split(s, ' ') == [s[..i]] + Split(after, ' ');
    }
    SplitHead(after, ' ');
    assert s[i + 1..i + 1 + |t|] == after[..|t|];
    assert SecondFieldAt(s, i, t);
  }

  /** The pieces `SecondFieldAt` names make up the whole string. */
  lemma SecondFieldParts(s: string, i: int, t: string)
    requires SecondFieldAt(s, i, t)
    ensures s == s[..i] + [' '] + t + s[i + 1 + |t|..]
  {
    assert s == s[..i] + [s[i]] + s[i + 1..i + 1 + |t|] + s[i + 1 + |t|..];
  }

  /** Conversely, a string of that shape has `t` as its second field. */
  lemma SecondFieldOf(scheme: string, t: string, tail: string)
    requires ' ' !in scheme && ' ' !in t
    requires tail == [] || tail[0] == ' '
    ensures SecondField(scheme + [' '] + t + tail) == Some(t)
  {
    var s := scheme + [' '] + t + tail;
    assert Split(s, ' ') == [scheme] + Split(t + tail, ' ') by {
      assert s == scheme + [' '] + (t + tail);
      SplitFirst(scheme, t + tail, ' ');
    }
    FirstFieldOf(t, tail);
  }

  /** A space-free `t` followed by nothing or by a space is the first field. */
  lemma FirstFieldOf(t: string, tail: string)
    requires ' ' !in t
    requires tail == [] || tail[0] == ' '
    ensures Split(t + tail, ' ')[0] == t
  {
    if tail == [] {
      assert t + tail == t;
    } else {
      assert t + tail == t + [' '] + tail[1..];
      SplitFirst(t, tail[1..], ' ');
    }
  }

  /** A token `protect` finds sits between the first space and the next
      one, or the end of the header. */
  lemma FoundTokenShape(header: string, t: string)
    requires HeaderToken(Some(header)) == Some(t) && t != []
    ensures CarriesToken(header, t)
  {
    SecondFieldShape(header, t);
  }

  /** Conversely, a header of that shape yields exactly that token. */
  lemma ShapeGivesToken(header: string, scheme: string, t: string, tail: string)
    requires StartsWith(header, "Bearer")
    requires header == scheme + [' '] + t + tail && ' ' !in scheme && ' ' !in t
    requires tail == [] || tail[0] == ' '
    ensures HeaderToken(Some(header)) == Some(t)
  {
    SecondFieldOf(scheme, t, tail);
  }

  /** `protect` finds a non-empty token `t` exactly when the header has the
      shape `Bearer… t[ …]`. */
  lemma HeaderTokenIff(header: string, t: string)
    ensures (HeaderToken(Some(header)) == Some(t) && t != []) <==> CarriesToken(header, t)
  {
    if HeaderToken(Some(header)) == Some(t) && t != [] {
      FoundTokenShape(header, t);
    }
    if CarriesToken(header, t) {
      var i :| SecondFieldAt(header, i, t);
      SecondFieldParts(header, i, t);
      ShapeGivesToken(header, header[..i], t, header[i + 1 + |t|..]);
    }
  }

  /** Headers that yield no usable token: the bare scheme, a scheme glued
      to the token, a lower-case scheme, and a double space (whose second
      field is empty). */
  lemma NoTokenExamples()
    ensures HeaderToken(Some("Bearer")) == None
    ensures HeaderToken(Some("Bearerxyz")) == None
    ensures HeaderToken(Some("bearer abc")) == None
    ensures HeaderToken(Some("Bearer  abc")) == Some("")
  {
    var bare, glued, lower, doubled := "Bearer", "Bearerxyz", "bearer abc", "Bearer  abc";
    assert ' ' !in bare && ' ' !in glued;
    assert lower[0] != "Bearer"[0];
    ShapeGivesToken(doubled, "Bearer", "", " abc");
  }

  /** The scheme is only tested as a prefix: `Bearerxyz abc` carries the
      token `abc`. */
  lemma LooseSchemeExample()
    ensures HeaderToken(Some("Bearerxyz abc")) == Some("abc")
  {
    ShapeGivesToken("Bearerxyz abc", "Bearerxyz", "abc", "");
  }

  /** What `jwt.verify` makes of a token: the user id it was signed for,
      or a thrown error (bad signature, expired, malformed). */
  datatype Verification = Verified(subject: Id) | Rejected

  /** What `User.findByPk(id, {exclude: password})` makes of an id. */
  datatype Lookup = Found(user: PublicUser) | Missing | LookupFailed

  /** The one thing `protect` does with a request: call `next` with
      `req.user` set, or answer 401 with a message. */
  datatype Outcome = Next(user: PublicUser) | Unauthorized(message: string)

  /** The lookup the `users` table answers when the query succeeds. */
  function TableLookup(users: seq<User>, id: Id): (l: Lookup)
    ensures l.Found? <==> exists k :: 0 <= k < |users| && users[k].id == id
    ensures l.Found? ==> exists k :: 0 <= k < |users| && users[k].id == id && l.user == ToJson(users[k])
    ensures !l.LookupFailed?
  {
    match UserController.FindById(users, id)
    case None => Missing
    case Some(u) => Found(ToJson(u))
  }

  /** `protect` as a decision: `verify` stands for `jwt.verify` with the
      server's secret and `lookup` for the user query. */
  function Decide(authorization: Field, verify: string -> Verification, lookup: Id -> Lookup): (o: Outcome)
    ensures !Truthy(HeaderToken(authorization)) ==> o == Unauthorized("Not authorized, no token")
    ensures o.Next? <==>
      && Truthy(HeaderToken(authorization))
      && verify(HeaderToken(authorization).value).Verified?
      && lookup(verify(HeaderToken(authorization).value).subject).Found?
    ensures o.Next? ==> o.user == lookup(verify(HeaderToken(authorization).value).subject).user
    ensures Truthy(HeaderToken(authorization)) ==>
      var v := verify(HeaderToken(authorization).value);
      && (v.Rejected? ==> o == Unauthorized("Not authorized, token invalid"))
      && (v.Verified? && lookup(v.subject).LookupFailed? ==> o == Unauthorized("Not authorized, token invalid"))
      && (v.Verified? && lookup(v.subject).Missing? ==> o == Unauthorized("Not authorized, user not found"))
  {
    var token := HeaderToken(authorization);
    if !Truthy(token) then Unauthorized("Not authorized, no token")
    else
      match verify(token.value)
      case Rejected => Unauthorized("Not authorized, token invalid")
      case Verified(subject) =>
        match lookup(subject)
        case LookupFailed => Unauthorized("Not authorized, token invalid")
        case Missing => Unauthorized("Not authorized, user not found")
        case Found(u) => Next(u)
  }

  /** Against the `users` table: a request passes exactly when its header
      carries a token that verifies to the id of an existing user, and the
      user it carries on is that user without the password. */
  lemma ProtectAgainstTable(header: string, verify: string -> Verification, users: seq<User>)
    ensures var o := Decide(Some(header), verify, id => TableLookup(users, id));
      && (o.Next? <==>
            exists t :: CarriesToken(header, t) && verify(t).Verified?
              && exists k :: 0 <= k < |users| && users[k].id == verify(t).subject)
      && (o.Next? ==> exists k :: 0 <= k < |users| && o.user == ToJson(users[k]))
  {
    var lookup := id => TableLookup(users, id);
    var token := HeaderToken(Some(header));
    if Truthy(token) {
      HeaderTokenIff(header, token.value);
    }
    forall t | CarriesToken(header, t) ensures token == Some(t) {
      HeaderTokenIff(header, t);
    }
  }

  /** An incoming request; `protect` sets `req.user` on its way. */
  class Request {
    var authorization: Field
    var user: Option<PublicUser>

    constructor (authorization: Field)
      ensures this.authorization == authorization && user == None
    {
      this.authorization := authorization;
      user := None;
    }

    /** `protect` on this request. `req.user` is assigned the lookup's
        result before the `!req.user` test, so it is cleared when the user
        is missing and left alone when the token is absent or invalid or
        the query fails. */
    method Protect(verify: string -> Verification, lookup: Id -> Lookup) returns (o: Outcome)
      modifies this`user
      ensures o == Decide(authorization, verify, lookup)
      ensures o.Next? ==> user == Some(o.user)
      ensures o == Unauthorized("Not authorized, user not found") ==> user == None
      ensures o.Unauthorized? && o.message != "Not authorized, user not found" ==> user == old(user)
    {
      var token := HeaderToken(authorization);
      if !Truthy(token) {
        return Unauthorized("Not authorized, no token");
      }
      var decoded := verify(token.value);
      if decoded.Rejected? {
        return Unauthorized("Not authorized, token invalid");
      }
      var found := lookup(decoded.subject);
      if found.LookupFailed? {
        return Unauthorized("Not authorized, token invalid");
      }
      user := if found.Found? then Some(found.user) else None;
      if user.None? {
        return Unauthorized("Not authorized, user not found");
      }
      o := Next(user.value);
    }
  }
}
