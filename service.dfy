/** The user service: registration, login and user lookup over the user
    store, and the table of issued session tokens. */
module Service {
  import opened Common
  import opened Users

  /** The value of `Utc::now()` at login. */
  type Timestamp = int

  /** What the service hands out about a user: never the password. */
  datatype UserInfo = UserInfo(username: Text, email: Text, lastLogin: Option<Timestamp>)

  class UserService {
    const repository: MemoryUserRepository
    var tokens: map<Uuid, UserInfo>

    ghost predicate Valid()
      reads this, repository
    {
      repository.Valid()
    }

    /** `UserService::new`: no token has been issued yet. */
    constructor (repository: MemoryUserRepository)
      requires repository.Valid()
      ensures Valid()
      ensures this.repository == repository && tokens == map[]
    {
      this.repository := repository;
      tokens := map[];
    }

    /** `register_user`: the service's own input checks come first and leave
        the store alone; after them the store's `AlreadyExists` and
        `HashingError` pass through unchanged, and a stored user is reported
        by name and email with no last login. */
    method RegisterUser(username: Text, email: Text, password: Text, hasher: Hasher, salt: Text)
      returns (r: Result<UserInfo, Error>)
      requires Valid()
      modifies repository
      ensures Valid()
      ensures |username| == 0 || |email| == 0 || |password| == 0 ==>
        r == Err(InvalidInput) && repository.users == old(repository.users)
      ensures |password| < MinPasswordLength ==>
        r == Err(InvalidInput) && repository.users == old(repository.users)
      ensures |username| != 0 && |email| != 0 && |password| >= MinPasswordLength
              && UsernameTaken(old(repository.users), username) ==>
        r == Err(AlreadyExists) && repository.users == old(repository.users)
      ensures |username| != 0 && |email| != 0 && |password| >= MinPasswordLength
              && !UsernameTaken(old(repository.users), username) ==>
        match hasher.hash(password, salt)
        case None => r == Err(HashingError) && repository.users == old(repository.users)
        case Some(h) =>
          && r == Ok(UserInfo(username, email, None))
          && repository.users
             == old(repository.users) + [User(NextUserId(old(repository.users)), username, email, h)]
    {
      if |username| == 0 || |email| == 0 || |password| == 0 {
        return Err(InvalidInput);
      }
      if |password| < MinPasswordLength {
        return Err(InvalidInput);
      }
      var added := repository.AddUser(username, email, password, hasher, salt);
      match added {
        case Err(e) => r := Err(e);
        case Ok(user) => r := Ok(UserInfo(user.username, user.email, None));
      }
    }

    /** `login`: empty credentials are `InvalidCredentials` without asking
        the store; an error from `control_user` passes through and issues
        nothing; a success records the user under the new `token`, stamped
        with `now`, and returns the token. */
    method Login(username: Text, password: Text, hasher: Hasher, token: Uuid, now: Timestamp)
      returns (r: Result<Uuid, Error>)
      modifies this
      ensures |username| == 0 || |password| == 0 ==>
        r == Err(InvalidCredentials) && tokens == old(tokens)
      ensures |username| != 0 && |password| != 0 ==>
        match Authenticate(repository.users, username, password, hasher)
        case Err(e) => r == Err(e) && tokens == old(tokens)
        case Ok(user) =>
          && r == Ok(token)
          && tokens == old(tokens)[token := UserInfo(user.username, user.email, Some(now))]
      ensures forall t :: t in old(tokens) && t != token ==> t in tokens && tokens[t] == old(tokens)[t]
    {
      if |username| == 0 || |password| == 0 {
        return Err(InvalidCredentials);
      }
      var checked := repository.ControlUser(username, password, hasher);
      match checked {
        case Err(e) =>
          r := Err(e);
        case Ok(user) =>
          tokens := tokens[token := UserInfo(user.username, user.email, Some(now))];
          r := Ok(token);
      }
    }

    /** `get_user_info`: the stored user's name and email with no last
        login, or `NotFound`. */
    method GetUserInfo(username: Text) returns (r: Result<UserInfo, Error>)
      ensures r.Ok? ==> exists k :: FirstNamed(repository.users, k, username)
                          && r.value == UserInfo(username, repository.users[k].email, None)
      ensures r.Err? <==> !UsernameTaken(repository.users, username)
      ensures r.Err? ==> r.error == NotFound
    {
      var found := repository.GetUserByUsername(username);
      match found {
        case Err(e) => r := Err(e);
        case Ok(user) => r := Ok(UserInfo(user.username, user.email, None));
      }
    }
  }
}
