/**
 * The fixed-capacity user store: the array `users` of NMAX slots, the live
 * count `nUser` and the id counter `idUser`, with registration (CreateUser),
 * lookup by username (FindUserByUsername) and the login decision built on it.
 *
 * The first half states the store's meaning on the sequence of live users;
 * the class Store then keeps that sequence in an array and updates it in place.
 */
module UserStore {
  import opened Common
  import Forms

  /** Capacity of the user array. */
  const NMAX: int := 255

  datatype User = User(id: int, username: string, password: string)

  datatype CreateError = CapacityExceeded | DuplicateUsername
  datatype LookupError = NotFound
  datatype LoginError = InvalidLoginForm(formError: Forms.FormError) | UnknownUsername | WrongPassword
  datatype RegisterError = InvalidRegisterForm(formError: Forms.FormError) | Refused(createError: CreateError)

  // ---------------------------------------------------------------------------
  // Specification on the live users

  /** Some live user has exactly this username (case-sensitive, byte for byte). */
  predicate NameTaken(s: seq<User>, name: string)
  {
    exists i :: 0 <= i < |s| && s[i].username == name
  }

  /** The index of the first user named `name`: the first match of a front-to-back scan. */
  function FirstIndexOf(s: seq<User>, name: string): (r: Option<nat>)
    ensures r.None? <==> !NameTaken(s, name)
    ensures r.Some? ==> r.value < |s| && s[r.value].username == name
    ensures r.Some? ==> forall j :: 0 <= j < r.value ==> s[j].username != name
  {
    if s == [] then None
    else if s[0].username == name then Some(0)
    else
      match FirstIndexOf(s[1..], name)
      case None =>
        assert forall i :: 1 <= i < |s| ==> s[i] == s[1..][i - 1];
        None
      case Some(k) => Some(k + 1)
  }

  /** The user a lookup by username yields, or NotFound. */
  function Lookup(s: seq<User>, name: string): (r: Result<User, LookupError>)
    ensures r.Failure? <==> !NameTaken(s, name)
    ensures r.Success? ==> r.value in s && r.value.username == name
    ensures r.Success? ==>
              exists i :: 0 <= i < |s| && s[i] == r.value && forall j :: 0 <= j < i ==> s[j].username != name
  {
    match FirstIndexOf(s, name)
    case Some(i) => Success(s[i])
    case None => Failure(NotFound)
  }

  /** The login decision: a user with this username exists and its stored password is the typed one. */
  predicate Authenticate(s: seq<User>, name: string, password: string): (ok: bool)
    ensures ok ==> exists i :: 0 <= i < |s| && s[i].username == name && s[i].password == password
    ensures !NameTaken(s, name) ==> !ok
  {
    Lookup(s, name).Success? && Lookup(s, name).value.password == password
  }

  /** Of two live users, the earlier one has a different username and a smaller id. */
  predicate Ordered(s: seq<User>, i: int, j: int)
    requires 0 <= i < j < |s|
  {
    s[i].username != s[j].username && s[i].id < s[j].id
  }

  /** The id of live user i is positive and below the next id. */
  predicate IdBelow(s: seq<User>, i: int, nextId: int)
    requires 0 <= i < |s|
  {
    1 <= s[i].id < nextId
  }

  /**
   * The store invariant on the live users: usernames pairwise distinct, ids
   * strictly increasing with the index, positive and below the next id.
   */
  predicate StoreInv(s: seq<User>, nextId: int)
  {
    && (forall i, j :: 0 <= i < j < |s| ==> Ordered(s, i, j))
    && (forall i :: 0 <= i < |s| ==> IdBelow(s, i, nextId))
  }

  /** Appending a user with a fresh username and the next id keeps the invariant. */
  lemma AppendKeepsInv(s: seq<User>, nextId: int, username: string, password: string)
    requires StoreInv(s, nextId) && nextId >= 1 && !NameTaken(s, username)
    ensures StoreInv(s + [User(nextId, username, password)], nextId + 1)
  {
    var t := s + [User(nextId, username, password)];
    forall i, j | 0 <= i < j < |t| ensures Ordered(t, i, j) {
      if j == |s| {
        assert t[i] == s[i] && IdBelow(s, i, nextId);
      } else {
        assert Ordered(s, i, j);
      }
    }
    var next := nextId + 1;
    forall i | 0 <= i < |t| ensures IdBelow(t, i, next) {
      if i < |s| {
        assert IdBelow(s, i, nextId);
      }
    }
  }

  /** With distinct usernames, every live user is exactly what a lookup of its name returns. */
  lemma LookupFindsEveryUser(s: seq<User>, nextId: int, i: nat)
    requires StoreInv(s, nextId) && i < |s|
    ensures Lookup(s, s[i].username) == Success(s[i])
    ensures Authenticate(s, s[i].username, s[i].password)
  {
    forall j | 0 <= j < i ensures s[j].username != s[i].username {
      assert Ordered(s, j, i);
    }
  }

  /** Round trip: after appending a user whose name was free, a lookup of that name returns it. */
  lemma LookupAfterAppend(s: seq<User>, x: User)
    requires !NameTaken(s, x.username)
    ensures Lookup(s + [x], x.username) == Success(x)
  {
    var t := s + [x];
    assert t[|s|].username == x.username;
    assert forall j :: 0 <= j < |s| ==> t[j].username != x.username;
  }

  /** Appending a user does not change the lookup of any other username. */
  lemma LookupOtherAfterAppend(s: seq<User>, x: User, name: string)
    requires name != x.username
    ensures Lookup(s + [x], name) == Lookup(s, name)
  {
    var t := s + [x];
    assert forall i :: 0 <= i < |s| ==> t[i] == s[i];
  }

  /**
   * Registering then logging in: a user the registration form and CreateUser
   * accept can log in with the same username and password, and with no other
   * password; every other username authenticates as before.
   */
  lemma RegisterThenLogin(s: seq<User>, nextId: int, username: string, password: string, confirm: string, other: string, pw: string)
    requires Forms.RegisterForm(username, password, confirm).Pass?
    requires !NameTaken(s, username)
    ensures Forms.LoginForm(username, password).Pass?
    ensures Authenticate(s + [User(nextId, username, password)], username, pw) <==> pw == password
    ensures other != username ==>
              (Authenticate(s + [User(nextId, username, password)], other, pw) <==> Authenticate(s, other, pw))
  {
    Forms.RegisterFormAcceptsLogin(username, password, confirm);
    LookupAfterAppend(s, User(nextId, username, password));
    if other != username {
      LookupOtherAfterAppend(s, User(nextId, username, password), other);
    }
  }

  /** Writing slot n of an array's contents extends its first n slots by the written value. */
  lemma WriteSlot(slots: seq<User>, n: nat, x: User)
    requires n < |slots|
    ensures slots[n := x][..n + 1] == slots[..n] + [x]
  {
  }

  // ---------------------------------------------------------------------------
  // The store in place

  class Store {
    /** The user array; only the first nUser slots are live. */
    var users: array<User>
    /** Number of live users. */
    var nUser: int
    /** The id the next created user receives. */
    var idUser: int

    ghost predicate Valid()
      reads this, users
    {
      && users.Length == NMAX
      && 0 <= nUser <= NMAX
      && idUser == nUser + 1
      && StoreInv(users[..nUser], idUser)
    }

    /** The live users, in storage order. */
    ghost function Live(): seq<User>
      reads this, users
      requires Valid()
    {
      users[..nUser]
    }

    /** The initial state: an all-zero array, no users, next id 1. */
    constructor ()
      ensures Valid() && fresh(users)
      ensures Live() == [] && idUser == 1
      ensures forall i :: 0 <= i < users.Length ==> users[i] == User(0, "", "")
    {
      users := new User[NMAX](_ => User(0, "", ""));
      nUser := 0;
      idUser := 1;
    }

    /**
     * CreateUser: refuses when the store is full, then refuses an exact
     * duplicate username; otherwise writes the new user at slot nUser with
     * id idUser and bumps both counters. A refusal changes nothing.
     */
    method CreateUser(username: string, password: string) returns (r: Outcome<CreateError>)
      requires Valid()
      modifies this, users
      ensures Valid() && users == old(users)
      ensures old(nUser) >= NMAX ==> r == Fail(CapacityExceeded)
      ensures old(nUser) < NMAX && NameTaken(old(Live()), username) ==> r == Fail(DuplicateUsername)
      ensures r.Pass? <==> old(nUser) < NMAX && !NameTaken(old(Live()), username)
      ensures r.Fail? ==> users[..] == old(users[..]) && nUser == old(nUser) && idUser == old(idUser)
      ensures r.Pass? ==>
                && users[..] == old(users[..])[old(nUser) := User(old(idUser), username, password)]
                && nUser == old(nUser) + 1 && idUser == old(idUser) + 1
                && Live() == old(Live()) + [User(old(idUser), username, password)]
                && Lookup(Live(), username) == Success(User(old(idUser), username, password))
    {
      if nUser >= NMAX {
        return Fail(CapacityExceeded);
      }
      var i := 0;
      while i < nUser
        invariant 0 <= i <= nUser
        invariant forall j :: 0 <= j < i ==> users[j].username != username
      {
        if users[i].username == username {
          assert users[..nUser][i].username == username;
          return Fail(DuplicateUsername);
        }
        i := i + 1;
      }
      ghost var slots := users[..];
      ghost var before := slots[..nUser];
      assert before == users[..nUser];
      assert !NameTaken(before, username);
      var created := User(idUser, username, password);
      AppendKeepsInv(before, idUser, username, password);
      LookupAfterAppend(before, created);
      users[nUser] := created;
      assert users[..] == slots[nUser := created];
      WriteSlot(slots, nUser, created);
      nUser := nUser + 1;
      idUser := idUser + 1;
      return Pass;
    }

    /**
     * FindUserByUsername: the first live user whose username equals
     * `username`, or NotFound. The store is only read.
     */
    method FindUserByUsername(username: string) returns (r: Result<User, LookupError>)
      requires Valid()
      ensures r == Lookup(Live(), username)
    {
      var i := 0;
      while i < nUser
        invariant 0 <= i <= nUser
        invariant forall j :: 0 <= j < i ==> users[j].username != username
      {
        if users[i].username == username {
          return Success(users[i]);
        }
        i := i + 1;
      }
      return Failure(NotFound);
    }

    /**
     * One pass of the login screen: the form check, then the lookup, then
     * the password comparison; success exactly when Authenticate holds.
     */
    method Login(username: string, password: string) returns (r: Result<User, LoginError>)
      requires Valid()
      ensures r.Success? <==> Forms.LoginForm(username, password).Pass? && Authenticate(Live(), username, password)
      ensures r.Success? ==> r.value in Live() && r.value.username == username && r.value.password == password
      ensures r.Failure? && r.error.InvalidLoginForm? <==> Forms.LoginForm(username, password).Fail?
      ensures r.Failure? && r.error.InvalidLoginForm? ==> r.error.formError == Forms.EmptyField
      ensures r == Failure(UnknownUsername) <==>
                Forms.LoginForm(username, password).Pass? && !NameTaken(Live(), username)
      ensures r == Failure(WrongPassword) <==>
                Forms.LoginForm(username, password).Pass? && NameTaken(Live(), username)
                && !Authenticate(Live(), username, password)
    {
      var form := Forms.LoginForm(username, password);
      if form.Fail? {
        return Failure(InvalidLoginForm(form.error));
      }
      var found := FindUserByUsername(username);
      if found.Failure? {
        return Failure(UnknownUsername);
      }
      if found.value.password != password {
        return Failure(WrongPassword);
      }
      return Success(found.value);
    }

    /**
     * One pass of the registration screen: the form check, then CreateUser.
     * On success the new user can log in with the password just registered.
     */
    method Register(username: string, password: string, confirm: string) returns (r: Outcome<RegisterError>)
      requires Valid()
      modifies this, users
      ensures Valid() && users == old(users)
      ensures r.Pass? <==>
                && Forms.RegisterForm(username, password, confirm).Pass?
                && old(nUser) < NMAX && !NameTaken(old(Live()), username)
      ensures r.Fail? && r.error.InvalidRegisterForm? <==> Forms.RegisterForm(username, password, confirm).Fail?
      ensures r.Fail? && r.error.InvalidRegisterForm? ==>
                r.error.formError == Forms.RegisterForm(username, password, confirm).error
      ensures r == Fail(Refused(CapacityExceeded)) <==>
                Forms.RegisterForm(username, password, confirm).Pass? && old(nUser) >= NMAX
      ensures r == Fail(Refused(DuplicateUsername)) <==>
                && Forms.RegisterForm(username, password, confirm).Pass?
                && old(nUser) < NMAX && NameTaken(old(Live()), username)
      ensures r.Fail? ==> users[..] == old(users[..]) && nUser == old(nUser) && idUser == old(idUser)
      ensures r.Pass? ==>
                && Live() == old(Live()) + [User(old(idUser), username, password)]
                && idUser == old(idUser) + 1
                && Authenticate(Live(), username, password)
    {
      var form := Forms.RegisterForm(username, password, confirm);
      if form.Fail? {
        return Fail(InvalidRegisterForm(form.error));
      }
      var created := CreateUser(username, password);
      if created.Fail? {
        return Fail(Refused(created.error));
      }
      return Pass;
    }
  }
}
