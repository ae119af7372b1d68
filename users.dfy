/** The user store: `User`, the user `Error` enum, the password hasher the
    store calls, and `MemoryUserRepository` over an ordered vector. */
module Users {
  import opened Common

  datatype User = User(id: nat, username: Text, email: Text, password: Text)

  datatype Error = NotFound | AlreadyExists | InvalidInput | InvalidCredentials | HashingError

  /** The shortest password, in bytes, the store accepts. */
  const MinPasswordLength: nat := 8

  /** The Argon2 capability as the store sees it:
      `hash(password, salt)` is `argon2.hash_password` (`None` when it fails),
      `parses(origin)` says whether `PasswordHash::new(origin)` succeeds, and
      `matches(password, origin)` whether `argon2.verify_password` accepts
      the password against the parsed hash. */
  datatype Hasher = Hasher(
    hash: (Text, Text) -> Option<Text>,
    parses: Text -> bool,
    matches: (Text, Text) -> bool)

  /** `hash_password`: the hash string, or `HashingError` when the hasher
      fails. `salt` is the salt drawn from the operating system. */
  function HashPassword(hasher: Hasher, password: Text, salt: Text): (r: Result<Text, Error>)
    ensures r.Ok? <==> hasher.hash(password, salt).Some?
    ensures r.Ok? ==> r.value == hasher.hash(password, salt).value
    ensures r.Err? ==> r.error == HashingError
  {
    match hasher.hash(password, salt)
    case Some(h) => Ok(h)
    case None => Err(HashingError)
  }

  /** `verify_password`: a stored hash that does not parse is a
      `HashingError`; once it parses, any rejection is `Ok(false)`, never an
      error. */
  function VerifyPassword(hasher: Hasher, password: Text, origin: Text): (r: Result<bool, Error>)
    ensures r.Err? <==> !hasher.parses(origin)
    ensures r.Err? ==> r.error == HashingError
    ensures r.Ok? ==> (r.value <==> hasher.matches(password, origin))
  {
    if hasher.parses(origin) then Ok(hasher.matches(password, origin))
    else Err(HashingError)
  }

  function Usernames(users: seq<User>): seq<Text>
  {
    seq(|users|, i requires 0 <= i < |users| => users[i].username)
  }

  /** Some user in `users` is already called `username`. */
  predicate UsernameTaken(users: seq<User>, username: Text)
  {
    exists i :: 0 <= i < |users| && users[i].username == username
  }

  /** Ids rise strictly along the store. */
  ghost predicate IdsIncreasing(users: seq<User>)
  {
    forall i, j :: 0 <= i < j < |users| ==> users[i].id < users[j].id
  }

  ghost predicate UsernamesDistinct(users: seq<User>)
  {
    forall i, j :: 0 <= i < j < |users| ==> users[i].username != users[j].username
  }

  /** `k` is the position of the first user in `users` called `username`. */
  ghost predicate FirstNamed(users: seq<User>, k: int, username: Text)
  {
    0 <= k < |users| && users[k].username == username
    && forall j :: 0 <= j < k ==> users[j].username != username
  }

  /** The id `add_user` gives a new user: one more than the last user's, or
      1 in an empty store. With rising ids it is above every id in use. */
  function NextUserId(users: seq<User>): (id: nat)
    ensures id >= 1
    ensures IdsIncreasing(users) ==> forall i :: 0 <= i < |users| ==> users[i].id < id
  {
    if |users| == 0 then 1 else users[|users| - 1].id + 1
  }

  /** Rising ids are distinct ids. */
  lemma IncreasingIdsAreDistinct(users: seq<User>, i: nat, j: nat)
    requires IdsIncreasing(users)
    requires i < |users| && j < |users| && i != j
    ensures users[i].id != users[j].id
  {
    if i < j {
      assert users[i].id < users[j].id;
    } else {
      assert users[j].id < users[i].id;
    }
  }

  /** Appending a user with the next id and an unused name keeps both store
      invariants. */
  lemma AppendKeepsInvariants(users: seq<User>, u: User)
    requires IdsIncreasing(users) && UsernamesDistinct(users)
    requires u.id == NextUserId(users) && !UsernameTaken(users, u.username)
    ensures IdsIncreasing(users + [u]) && UsernamesDistinct(users + [u])
  {
    var vs := users + [u];
    forall i, j | 0 <= i < j < |vs|
      ensures vs[i].id < vs[j].id && vs[i].username != vs[j].username
    {
      if j == |users| {
        assert vs[i] == users[i];
      }
    }
  }

  /** The outcome of `control_user`: an unknown name and a rejected password
      are both `InvalidCredentials`; a stored hash that does not parse is a
      `HashingError`; otherwise the first user with that name. */
  function Authenticate(users: seq<User>, username: Text, password: Text, hasher: Hasher): (r: Result<User, Error>)
    ensures r.Ok? ==> exists k :: FirstNamed(users, k, username) && r.value == users[k]
    ensures r.Ok? ==> hasher.parses(r.value.password) && hasher.matches(password, r.value.password)
    ensures !UsernameTaken(users, username) ==> r == Err(InvalidCredentials)
    ensures r.Err? ==> r.error == InvalidCredentials || r.error == HashingError
    ensures r == Err(HashingError) ==>
      exists k :: FirstNamed(users, k, username) && !hasher.parses(users[k].password)
    ensures forall k :: FirstNamed(users, k, username) && !hasher.parses(users[k].password) ==>
      r == Err(HashingError)
    ensures forall k :: FirstNamed(users, k, username) && hasher.parses(users[k].password)
                        && !hasher.matches(password, users[k].password) ==>
      r == Err(InvalidCredentials)
    ensures forall k :: FirstNamed(users, k, username) && hasher.parses(users[k].password)
                        && hasher.matches(password, users[k].password) ==>
      r == Ok(users[k])
    ensures UsernamesDistinct(users) ==>
      (r.Ok? <==> exists k :: 0 <= k < |users| && users[k].username == username
                     && hasher.parses(users[k].password) && hasher.matches(password, users[k].password))
  {
    match IndexOf(Usernames(users), username)
    case None =>
      assert forall i :: 0 <= i < |users| ==> users[i].username == Usernames(users)[i];
      Err(InvalidCredentials)
    case Some(k) =>
      assert FirstNamed(users, k, username) by {
        assert forall j :: 0 <= j < k ==> users[j].username == Usernames(users)[j];
      }
      match VerifyPassword(hasher, password, users[k].password)
      case Ok(true) => Ok(users[k])
      case Ok(false) => Err(InvalidCredentials)
      case Err(e) => Err(e)
  }

  /** The in-memory user store. */
  class MemoryUserRepository {
    var users: seq<User>

    ghost predicate Valid()
      reads this
    {
      IdsIncreasing(users) && UsernamesDistinct(users)
    }

    constructor ()
      ensures Valid() && users == []
    {
      users := [];
    }

    /** `add_user`: empty name or email, then a short password, are
        `InvalidInput`; a taken name is `AlreadyExists`; a failing hasher
        is `HashingError`. Only a user whose password is the hash is ever
        stored. */
    method AddUser(username: Text, email: Text, password: Text, hasher: Hasher, salt: Text)
      returns (r: Result<User, Error>)
      requires Valid()
      modifies this
      ensures Valid()
      ensures |username| == 0 || |email| == 0 ==>
        r == Err(InvalidInput) && users == old(users)
      ensures |username| != 0 && |email| != 0 && |password| < MinPasswordLength ==>
        r == Err(InvalidInput) && users == old(users)
      ensures |username| != 0 && |email| != 0 && |password| >= MinPasswordLength
              && UsernameTaken(old(users), username) ==>
        r == Err(AlreadyExists) && users == old(users)
      ensures |username| != 0 && |email| != 0 && |password| >= MinPasswordLength
              && !UsernameTaken(old(users), username) ==>
        match hasher.hash(password, salt)
        case None => r == Err(HashingError) && users == old(users)
        case Some(h) =>
          && r == Ok(User(NextUserId(old(users)), username, email, h))
          && users == old(users) + [r.value]
    {
      if |username| == 0 || |email| == 0 {
        return Err(InvalidInput);
      }
      if |password| < MinPasswordLength {
        return Err(InvalidInput);
      }
      if UsernameTaken(users, username) {
        return Err(AlreadyExists);
      }
      var id := NextUserId(users);
      var hashed := HashPassword(hasher, password, salt);
      match hashed {
        case Ok(h) =>
          var user := User(id, username, email, h);
          AppendKeepsInvariants(users, user);
          users := users + [user];
          r := Ok(user);
        case Err(e) =>
          r := Err(e);
      }
    }

    /** `get_user_by_username`: the first user with that name, or
        `NotFound`. */
    method GetUserByUsername(username: Text) returns (r: Result<User, Error>)
      ensures r.Ok? ==> exists k :: FirstNamed(users, k, username) && r.value == users[k]
      ensures r.Err? <==> !UsernameTaken(users, username)
      ensures r.Err? ==> r.error == NotFound
    {
      var found := IndexOf(Usernames(users), username);
      match found {
        case Some(k) =>
          r := Ok(users[k]);
          assert FirstNamed(users, k, username) by {
            assert forall j :: 0 <= j < k ==> users[j].username == Usernames(users)[j];
          }
        case None =>
          r := Err(NotFound);
          assert forall i :: 0 <= i < |users| ==> users[i].username == Usernames(users)[i];
      }
    }

    /** `control_user`: looks the user up and checks the password against
        the stored hash, without changing the store. */
    method ControlUser(username: Text, password: Text, hasher: Hasher) returns (r: Result<User, Error>)
      ensures r == Authenticate(users, username, password, hasher)
    {
      var found := IndexOf(Usernames(users), username);
      if found.None? {
        return Err(InvalidCredentials);
      }
      var user := users[found.value];
      var verdict := VerifyPassword(hasher, password, user.password);
      match verdict {
        case Ok(true) => r := Ok(user);
        case Ok(false) => r := Err(InvalidCredentials);
        case Err(e) => r := Err(e);
      }
    }
  }
}
