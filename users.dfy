/** The user service (src/routes/users.js): sign-up with a unique username and a hashed
    password, sign-in against the hash, profile update and self-deletion, and the listing
    of all users without their passwords.

    The library code the handlers call is passed in: the validator's predicates and its
    email sanitizer (`Validators`), password hashing and comparison (`Bcrypt`), the random
    salt and the clock. A signed token is kept as the claims it is signed over (`Token`). */
module Users {
  import opened Common
  import opened Sorting
  import Auth

  /** A stored user; `password` holds the hash, `createdAt` the creation time in milliseconds. */
  datatype User = User(id: ObjectId, name: string, email: string, phone: string,
                       username: string, password: string, createdAt: nat)

  /** A user as the listing shows it: every field but the password. */
  datatype Profile = Profile(id: ObjectId, name: string, email: string, phone: string,
                             username: string, createdAt: nat)

  /** `jwt.sign({ id, email, username }, secret, { expiresIn })`. */
  datatype Token = Token(claims: Auth.Claims, expiresIn: string)

  /** The request validator's library checks, and its email sanitizer. `strongRest` stands
      for whatever `isStrongPassword` demands beyond the options the routes set. */
  datatype Validators = Validators(isEmail: string -> bool, isMobilePhone: string -> bool,
                                   strongRest: string -> bool, normalizeEmail: string -> string)

  /** `bcrypt.hash(password, salt)` and `bcrypt.compare(password, hash)`. */
  datatype Bcrypt = Bcrypt(hash: (string, string) -> string, compare: (string, string) -> bool)

  /** The body of sign-up and of profile update (the two carry the same fields). */
  datatype Form = Form(name: string, email: string, phone: string, username: string,
                       password: string, confirmPassword: string)

  datatype Reply =
    | Invalid(errors: seq<FieldError>)
    | Refused(text: string)
    | Created(user: User, token: Token)
    | SignedIn(user: User, token: Token)
    | Updated(user: User)
    | Deleted(user: User)

  datatype Outcome = Outcome(users: seq<User>, reply: Reply)

  const NameRequired := "Name is required"
  const UsernameRequired := "Username is required"
  const PasswordRequired := "Password is required"
  const WeakPassword := "Password must be greater than 8 and contain at least one uppercase letter, one lowercase letter, and one number"
  const UsernameExists := "Username already exists"
  const PasswordsDiffer := "Passwords do not match"
  const UserNotFound := "User not found"
  const BadCredentials := "Invalid credentials"
  const NotSelfUpdate := "You are not authorized to update this user"
  const NotSelfDelete := "You are not authorized to delete this user"
  const TokenLifetime := "1h"

  /** The HTTP status of each reply. */
  function Status(r: Reply): (code: nat)
    ensures code == 400 <==> r.Invalid? || r.Refused?
    ensures code == 201 <==> r.Created?
    ensures code == 200 <==> r.SignedIn? || r.Updated? || r.Deleted?
  {
    match r
    case Invalid(_) => 400
    case Refused(_) => 400
    case Created(_, _) => 201
    case _ => 200
  }

  /** `generateToken`: a token over the user's id, email and username, valid one hour. */
  function GenerateToken(u: User): (t: Token)
    ensures t.claims.id == u.id && t.claims.email == u.email && t.claims.username == u.username
    ensures t.expiresIn == TokenLifetime
  {
    Token(Auth.Claims(u.id, u.email, u.username), TokenLifetime)
  }

  function ProfileOf(u: User): Profile
  {
    Profile(u.id, u.name, u.email, u.phone, u.username, u.createdAt)
  }

  /** `Users.find()...select("-password")`: each stored user without the password. */
  function Profiles(users: seq<User>): (r: seq<Profile>)
    ensures |r| == |users|
    ensures forall i :: 0 <= i < |users| ==> r[i] == ProfileOf(users[i])
  {
    seq(|users|, i requires 0 <= i < |users| => ProfileOf(users[i]))
  }

  // ---------------------------------------------------------------------------
  // Validation

  predicate IsLower(c: char) { 'a' <= c <= 'z' }
  predicate IsUpper(c: char) { 'A' <= c <= 'Z' }
  predicate IsDigit(c: char) { '0' <= c <= '9' }

  /** JavaScript's `length` of a string: its UTF-16 code units, two for each character above
      U+FFFF. */
  function Utf16Length(s: string): (n: nat)
    ensures |s| <= n <= 2 * |s|
  {
    if s == [] then 0
    else (if s[0] as int > 0xFFFF then 2 else 1) + Utf16Length(s[1..])
  }

  /** The policy the routes ask of `isStrongPassword`: a length of at least 8 as JavaScript
      counts it, one lower-case letter, one upper-case letter and one digit. */
  predicate StatedPolicy(pw: string)
  {
    && Utf16Length(pw) >= 8
    && (exists i :: 0 <= i < |pw| && IsLower(pw[i]))
    && (exists i :: 0 <= i < |pw| && IsUpper(pw[i]))
    && (exists i :: 0 <= i < |pw| && IsDigit(pw[i]))
  }

  /** A password of seven characters, one of them outside the Basic Multilingual Plane, has
      JavaScript length 8 and meets the policy. */
  lemma SurrogatePairCountsTwice()
    ensures Utf16Length("Aa1#\U{1F600}bc") == 8
    ensures StatedPolicy("Aa1#\U{1F600}bc")
  {
    var pw := "Aa1#\U{1F600}bc";
    assert pw[1..] == "a1#\U{1F600}bc" && pw[2..] == "1#\U{1F600}bc" && pw[3..] == "#\U{1F600}bc";
    assert pw[4..] == "\U{1F600}bc" && pw[5..] == "bc" && pw[6..] == "c" && pw[7..] == "";
    assert IsUpper(pw[0]) && IsLower(pw[1]) && IsDigit(pw[2]);
  }

  predicate StrongPassword(v: Validators, pw: string)
  {
    StatedPolicy(pw) && v.strongRest(pw)
  }

  /** The sign-up checks, in the order the route declares them. */
  function SignupErrors(f: Form, v: Validators): (r: seq<FieldError>)
    ensures r == [] <==>
              && f.name != "" && v.isEmail(f.email) && v.isMobilePhone(f.phone) && f.username != ""
              && StrongPassword(v, f.password) && StrongPassword(v, f.confirmPassword)
  {
    Required("name", f.name, NameRequired)
    + Check("email", v.isEmail(f.email), DefaultMessage)
    + Check("phone", v.isMobilePhone(f.phone), DefaultMessage)
    + Required("username", f.username, UsernameRequired)
    + Check("password", StrongPassword(v, f.password), WeakPassword)
    + Check("confirmPassword", StrongPassword(v, f.confirmPassword), WeakPassword)
  }

  /** The profile-update checks, in the order the route declares them. */
  function UpdateErrors(f: Form, v: Validators): (r: seq<FieldError>)
    ensures r == [] <==>
              && f.name != "" && f.username != "" && v.isEmail(f.email) && v.isMobilePhone(f.phone)
              && StrongPassword(v, f.password) && StrongPassword(v, f.confirmPassword)
  {
    Required("name", f.name, NameRequired)
    + Required("username", f.username, UsernameRequired)
    + Check("email", v.isEmail(f.email), DefaultMessage)
    + Check("phone", v.isMobilePhone(f.phone), DefaultMessage)
    + Check("password", StrongPassword(v, f.password), WeakPassword)
    + Check("confirmPassword", StrongPassword(v, f.confirmPassword), WeakPassword)
  }

  function SigninErrors(username: string, password: string): (r: seq<FieldError>)
    ensures r == [] <==> username != "" && password != ""
  {
    Required("username", username, UsernameRequired) + Required("password", password, PasswordRequired)
  }

  // ---------------------------------------------------------------------------
  // The store

  /** `Users.findOne({ username })`. */
  function FindUser(users: seq<User>, username: string): (r: Option<nat>)
    ensures r.Some? ==> r.value < |users| && users[r.value].username == username
    ensures r.Some? ==> forall j :: 0 <= j < r.value ==> users[j].username != username
    ensures r.None? <==> forall j :: 0 <= j < |users| ==> users[j].username != username
  {
    FirstIndex(users, (u: User) => u.username == username)
  }

  /** The store's invariant as the handlers keep it: distinct ids below the next id to be
      assigned, and distinct usernames. */
  ghost predicate WellFormed(users: seq<User>, nextId: ObjectId)
  {
    && (forall j :: 0 <= j < |users| ==> users[j].id < nextId)
    && (forall i, j :: 0 <= i < j < |users| ==> users[i].id != users[j].id)
    && (forall i, j :: 0 <= i < j < |users| ==> users[i].username != users[j].username)
  }

  /** `POST /signup`; `id` is the identifier the store assigns, `salt` the fresh salt and
      `now` the clock. */
  function Signup(users: seq<User>, id: ObjectId, f: Form, v: Validators, bc: Bcrypt,
                  salt: string, now: nat): (o: Outcome)
    ensures SignupErrors(f, v) != [] ==> o == Outcome(users, Invalid(SignupErrors(f, v)))
    ensures SignupErrors(f, v) == [] && FindUser(users, f.username).Some? ==>
              o == Outcome(users, Refused(UsernameExists))
    ensures SignupErrors(f, v) == [] && FindUser(users, f.username).None? && f.password != f.confirmPassword ==>
              o == Outcome(users, Refused(PasswordsDiffer))
    ensures o.reply.Created? <==>
              SignupErrors(f, v) == [] && FindUser(users, f.username).None? && f.password == f.confirmPassword
    ensures o.reply.Created? ==>
              var u := o.reply.user;
              && o.users == users + [u]
              && u == User(id, f.name, v.normalizeEmail(f.email), f.phone, f.username, bc.hash(f.password, salt), now)
              && o.reply.token.claims == Auth.Claims(u.id, u.email, u.username)
              && o.reply.token.expiresIn == TokenLifetime
    ensures o.reply.Created? ==> StatedPolicy(f.password) && StatedPolicy(f.confirmPassword)
    ensures !o.reply.Created? ==> o.users == users
  {
    var errors := SignupErrors(f, v);
    if errors != [] then Outcome(users, Invalid(errors))
    else if FindUser(users, f.username).Some? then Outcome(users, Refused(UsernameExists))
    else if f.password != f.confirmPassword then Outcome(users, Refused(PasswordsDiffer))
    else
      var u := User(id, f.name, v.normalizeEmail(f.email), f.phone, f.username, bc.hash(f.password, salt), now);
      Outcome(users + [u], Created(u, GenerateToken(u)))
  }

  /** `POST /signin`. */
  function Signin(users: seq<User>, username: string, password: string, bc: Bcrypt): (r: Reply)
    ensures SigninErrors(username, password) != [] ==> r == Invalid(SigninErrors(username, password))
    ensures SigninErrors(username, password) == [] && FindUser(users, username).None? ==>
              r == Refused(UserNotFound)
    ensures SigninErrors(username, password) == [] && FindUser(users, username).Some?
            && !bc.compare(password, users[FindUser(users, username).value].password) ==>
              r == Refused(BadCredentials)
    ensures SigninErrors(username, password) == [] && FindUser(users, username).Some?
            && bc.compare(password, users[FindUser(users, username).value].password) ==>
              r == SignedIn(users[FindUser(users, username).value], GenerateToken(users[FindUser(users, username).value]))
    ensures r.SignedIn? ==>
              && FindUser(users, username).Some?
              && r.user == users[FindUser(users, username).value]
              && r.user.username == username
              && bc.compare(password, r.user.password)
              && r.token.claims == Auth.Claims(r.user.id, r.user.email, r.user.username)
    ensures r.Invalid? || r.Refused? || r.SignedIn?
  {
    var errors := SigninErrors(username, password);
    if errors != [] then Invalid(errors)
    else match FindUser(users, username)
      case None => Refused(UserNotFound)
      case Some(i) =>
        if !bc.compare(password, users[i].password) then Refused(BadCredentials)
        else SignedIn(users[i], GenerateToken(users[i]))
  }

  /** `PATCH /update`, with the request's identity if it has one: the ownership check is
      made only when it does. */
  function UpdateProfile(users: seq<User>, identity: Option<Auth.Claims>, f: Form, v: Validators,
                         bc: Bcrypt, salt: string): (o: Outcome)
    ensures UpdateErrors(f, v) != [] ==> o == Outcome(users, Invalid(UpdateErrors(f, v)))
    ensures UpdateErrors(f, v) == [] && identity.Some? && identity.value.username != f.username ==>
              o == Outcome(users, Refused(NotSelfUpdate))
    ensures UpdateErrors(f, v) == [] && (identity.None? || identity.value.username == f.username) ==>
              && (FindUser(users, f.username).None? ==> o == Outcome(users, Refused(UserNotFound)))
              && (FindUser(users, f.username).Some? && f.password != f.confirmPassword ==>
                    o == Outcome(users, Refused(PasswordsDiffer)))
              && (FindUser(users, f.username).Some? && f.password == f.confirmPassword ==> o.reply.Updated?)
    ensures o.reply.Updated? ==>
              && (identity.None? || identity.value.username == f.username)
              && FindUser(users, f.username).Some? && f.password == f.confirmPassword
    ensures o.reply.Updated? ==>
              var i := FindUser(users, f.username).value;
              && |o.users| == |users|
              && o.reply.user == o.users[i]
              && o.users[i].id == users[i].id
              && o.users[i].username == users[i].username
              && o.users[i].createdAt == users[i].createdAt
              && o.users[i].name == f.name
              && o.users[i].email == v.normalizeEmail(f.email)
              && o.users[i].phone == f.phone
              && o.users[i].password == bc.hash(f.password, salt)
              && forall j :: 0 <= j < |users| && j != i ==> o.users[j] == users[j]
    ensures o.reply.Updated? ==> StatedPolicy(f.password)
    ensures !o.reply.Updated? ==> o.users == users
    ensures o.reply.Invalid? || o.reply.Refused? || o.reply.Updated?
  {
    var errors := UpdateErrors(f, v);
    if errors != [] then Outcome(users, Invalid(errors))
    else if identity.Some? && identity.value.username != f.username then Outcome(users, Refused(NotSelfUpdate))
    else match FindUser(users, f.username)
      case None => Outcome(users, Refused(UserNotFound))
      case Some(i) =>
        if f.password != f.confirmPassword then Outcome(users, Refused(PasswordsDiffer))
        else
          var u := users[i].(name := f.name, email := v.normalizeEmail(f.email), phone := f.phone,
                             password := bc.hash(f.password, salt));
          Outcome(users[i := u], Updated(u))
  }

  /** `DELETE /delete` by the holder of `identity`: the reply carries the user as it was. */
  function DeleteAccount(users: seq<User>, identity: Auth.Claims, username: string): (o: Outcome)
    ensures username == "" ==> o == Outcome(users, Invalid([FieldError("username", UsernameRequired)]))
    ensures username != "" && identity.username != username ==> o == Outcome(users, Refused(NotSelfDelete))
    ensures username != "" && identity.username == username && FindUser(users, username).None? ==>
              o == Outcome(users, Refused(UserNotFound))
    ensures o.reply.Deleted? <==>
              username != "" && identity.username == username && FindUser(users, username).Some?
    ensures o.reply.Deleted? ==>
              var i := FindUser(users, username).value;
              o.reply.user == users[i] && o.users == users[..i] + users[i + 1..]
    ensures !o.reply.Deleted? ==> o.users == users
  {
    var errors := Required("username", username, UsernameRequired);
    if errors != [] then Outcome(users, Invalid(errors))
    else if identity.username != username then Outcome(users, Refused(NotSelfDelete))
    else match FindUser(users, username)
      case None => Outcome(users, Refused(UserNotFound))
      case Some(i) => Outcome(users[..i] + users[i + 1..], Deleted(users[i]))
  }

  lemma SignupKeepsWellFormed(users: seq<User>, nextId: ObjectId, f: Form, v: Validators,
                              bc: Bcrypt, salt: string, now: nat)
    requires WellFormed(users, nextId)
    ensures var o := Signup(users, nextId, f, v, bc, salt, now);
            WellFormed(o.users, if o.reply.Created? then nextId + 1 else nextId)
  {
  }

  lemma UpdateKeepsWellFormed(users: seq<User>, nextId: ObjectId, identity: Option<Auth.Claims>,
                              f: Form, v: Validators, bc: Bcrypt, salt: string)
    requires WellFormed(users, nextId)
    ensures WellFormed(UpdateProfile(users, identity, f, v, bc, salt).users, nextId)
  {
  }

  lemma DeleteKeepsWellFormed(users: seq<User>, nextId: ObjectId, identity: Auth.Claims, username: string)
    requires WellFormed(users, nextId)
    ensures WellFormed(DeleteAccount(users, identity, username).users, nextId)
  {
    var o := DeleteAccount(users, identity, username);
    if o.reply.Deleted? {
      var i := FindUser(users, username).value;
      var r := o.users;
      forall j | 0 <= j < |r| ensures r[j] == users[if j < i then j else j + 1] {
      }
    }
  }

  /** Once a username is taken, signing up under it again is refused whatever the other
      fields say, and the store stays as it is. */
  lemma SignupTwice(users: seq<User>, id1: ObjectId, id2: ObjectId, f: Form, g: Form, v: Validators,
                    bc: Bcrypt, s1: string, s2: string, t1: nat, t2: nat)
    requires Signup(users, id1, f, v, bc, s1, t1).reply.Created?
    requires SignupErrors(g, v) == [] && g.username == f.username
    ensures var o := Signup(users, id1, f, v, bc, s1, t1);
            Signup(o.users, id2, g, v, bc, s2, t2) == Outcome(o.users, Refused(UsernameExists))
  {
    var o := Signup(users, id1, f, v, bc, s1, t1);
    FirstIndexAppend(users, (u: User) => u.username == f.username, o.reply.user);
  }

  /** Without an identity the update runs as it would for the user it names. */
  lemma UpdateWithoutIdentity(users: seq<User>, c: Auth.Claims, f: Form, v: Validators,
                              bc: Bcrypt, salt: string)
    requires c.username == f.username
    ensures UpdateProfile(users, None, f, v, bc, salt) == UpdateProfile(users, Some(c), f, v, bc, salt)
  {
  }

  /** Whoever has just signed up can sign in with the same password, provided the hash
      comparison accepts the password it was computed from; the token then carries the
      new user's claims. */
  lemma SigninAfterSignup(users: seq<User>, nextId: ObjectId, f: Form, v: Validators, bc: Bcrypt,
                          salt: string, now: nat)
    requires Signup(users, nextId, f, v, bc, salt, now).reply.Created?
    requires bc.compare(f.password, bc.hash(f.password, salt))
    ensures var o := Signup(users, nextId, f, v, bc, salt, now);
            Signin(o.users, f.username, f.password, bc) == SignedIn(o.reply.user, GenerateToken(o.reply.user))
  {
    var o := Signup(users, nextId, f, v, bc, salt, now);
    FirstIndexAppend(users, (u: User) => u.username == f.username, o.reply.user);
  }

  /** After a profile update the user signs in with the new password (under the same
      assumption on the hash comparison). */
  lemma SigninAfterUpdate(users: seq<User>, identity: Option<Auth.Claims>, f: Form, v: Validators,
                          bc: Bcrypt, salt: string)
    requires UpdateProfile(users, identity, f, v, bc, salt).reply.Updated?
    requires bc.compare(f.password, bc.hash(f.password, salt))
    ensures var o := UpdateProfile(users, identity, f, v, bc, salt);
            Signin(o.users, f.username, f.password, bc) == SignedIn(o.reply.user, GenerateToken(o.reply.user))
  {
    var o := UpdateProfile(users, identity, f, v, bc, salt);
    var i := FindUser(users, f.username).value;
    FirstIndexUpdate(users, (u: User) => u.username == f.username, i, o.users[i]);
    assert o.users == users[i := o.users[i]];
  }

  /** Once deleted, a user is no longer found at sign-in. */
  lemma SigninAfterDelete(users: seq<User>, nextId: ObjectId, identity: Auth.Claims, username: string,
                          password: string, bc: Bcrypt)
    requires WellFormed(users, nextId)
    requires DeleteAccount(users, identity, username).reply.Deleted?
    requires password != ""
    ensures Signin(DeleteAccount(users, identity, username).users, username, password, bc) == Refused(UserNotFound)
  {
    var i := FindUser(users, username).value;
    FirstIndexRemoved(users, (u: User) => u.username == username, i);
  }

  /** Accounts holds the users collection; its route methods follow the functions above. */
  class Accounts {
    var users: seq<User>
    var nextId: ObjectId

    ghost predicate Valid()
      reads this
    {
      WellFormed(users, nextId)
    }

    constructor ()
      ensures Valid() && users == []
    {
      users := [];
      nextId := 0;
    }

    /** `POST /signup` with a fresh `salt` at time `now`. */
    method PostSignup(f: Form, v: Validators, bc: Bcrypt, salt: string, now: nat) returns (reply: Reply)
      requires Valid()
      modifies this
      ensures Valid()
      ensures Outcome(users, reply) == Signup(old(users), old(nextId), f, v, bc, salt, now)
      ensures nextId == if reply.Created? then old(nextId) + 1 else old(nextId)
    {
      SignupKeepsWellFormed(users, nextId, f, v, bc, salt, now);
      var errors := SignupErrors(f, v);
      if errors != [] {
        return Invalid(errors);
      }
      if FindUser(users, f.username).Some? {
        return Refused(UsernameExists);
      }
      if f.password != f.confirmPassword {
        return Refused(PasswordsDiffer);
      }
      var hashed := bc.hash(f.password, salt);
      var u := User(nextId, f.name, v.normalizeEmail(f.email), f.phone, f.username, hashed, now);
      users := users + [u];
      nextId := nextId + 1;
      reply := Created(u, GenerateToken(u));
    }

    /** `POST /signin`. */
    method PostSignin(username: string, password: string, bc: Bcrypt) returns (reply: Reply)
      ensures reply == Signin(users, username, password, bc)
    {
      var errors := SigninErrors(username, password);
      if errors != [] {
        return Invalid(errors);
      }
      var found := FindUser(users, username);
      if found.None? {
        return Refused(UserNotFound);
      }
      var u := users[found.value];
      if !bc.compare(password, u.password) {
        return Refused(BadCredentials);
      }
      reply := SignedIn(u, GenerateToken(u));
    }

    /** `PATCH /update` on a request whose `req.user` is `identity`. */
    method PatchUpdate(f: Form, identity: Option<Auth.Claims>, v: Validators, bc: Bcrypt, salt: string)
      returns (reply: Reply)
      requires Valid()
      modifies this
      ensures Valid() && nextId == old(nextId)
      ensures Outcome(users, reply) == UpdateProfile(old(users), identity, f, v, bc, salt)
    {
      UpdateKeepsWellFormed(users, nextId, identity, f, v, bc, salt);
      var errors := UpdateErrors(f, v);
      if errors != [] {
        return Invalid(errors);
      }
      if identity.Some? && identity.value.username != f.username {
        return Refused(NotSelfUpdate);
      }
      var found := FindUser(users, f.username);
      if found.None? {
        return Refused(UserNotFound);
      }
      if f.password != f.confirmPassword {
        return Refused(PasswordsDiffer);
      }
      var i := found.value;
      var hashed := bc.hash(f.password, salt);
      var u := users[i].(name := f.name, email := v.normalizeEmail(f.email), phone := f.phone, password := hashed);
      users := users[i := u];
      reply := Updated(u);
    }

    /** `DELETE /delete` by the authenticated `identity`. */
    method DeleteUser(username: string, identity: Auth.Claims) returns (reply: Reply)
      requires Valid()
      modifies this
      ensures Valid() && nextId == old(nextId)
      ensures Outcome(users, reply) == DeleteAccount(old(users), identity, username)
    {
      DeleteKeepsWellFormed(users, nextId, identity, username);
      var errors := Required("username", username, UsernameRequired);
      if errors != [] {
        return Invalid(errors);
      }
      if identity.username != username {
        return Refused(NotSelfDelete);
      }
      var found := FindUser(users, username);
      if found.None? {
        return Refused(UserNotFound);
      }
      var i := found.value;
      var u := users[i];
      users := users[..i] + users[i + 1..];
      reply := Deleted(u);
    }

    /** `GET /`: every user without the password, newest first. */
    method GetAll() returns (r: seq<Profile>)
      ensures multiset(r) == multiset(Profiles(users))
      ensures SortedDesc(r, (p: Profile) => p.createdAt)
    {
      r := SortDesc(Profiles(users), (p: Profile) => p.createdAt);
    }
  }
}
