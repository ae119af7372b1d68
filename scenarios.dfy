/** Properties that take several calls: sequences of additions, a lookup or
    a deletion after an addition, and registration followed by login. Each
    is a client of the stores' and the service's contracts alone. */
module Scenarios {
  import opened Common
  import Products
  import Users
  import Service

  /** Adding valid products whose names are pairwise distinct and not yet
      in the store, under fresh distinct ids, succeeds every time and
      leaves them at the end of the store in the order they were added. */
  method AddAll(repo: Products.MemoryProductsRepository, names: seq<Text>, prices: seq<real>, ids: seq<Uuid>)
    returns (added: seq<Products.Product>)
    requires repo.Valid()
    requires |names| == |prices| == |ids|
    requires forall i :: 0 <= i < |names| ==> Products.ValidInput(names[i], prices[i])
    requires forall i :: 0 <= i < |names| ==> !Products.NameTaken(repo.products, names[i])
    requires forall i, j :: 0 <= i < j < |names| ==> names[i] != names[j]
    requires forall i :: 0 <= i < |ids| ==> ids[i] !in repo.issued
    requires forall i, j :: 0 <= i < j < |ids| ==> ids[i] != ids[j]
    modifies repo
    ensures repo.Valid()
    ensures |added| == |names|
    ensures forall i :: 0 <= i < |added| ==> added[i] == Products.Product(ids[i], names[i], prices[i])
    ensures repo.products == old(repo.products) + added
  {
    added := [];
    var i := 0;
    while i < |names|
      invariant 0 <= i <= |names|
      invariant repo.Valid()
      invariant |added| == i
      invariant forall k :: 0 <= k < i ==> added[k] == Products.Product(ids[k], names[k], prices[k])
      invariant repo.products == old(repo.products) + added
      invariant repo.issued == old(repo.issued) + set k | 0 <= k < i :: ids[k]
    {
      assert !Products.NameTaken(repo.products, names[i]) by {
        forall j | 0 <= j < |repo.products| ensures repo.products[j].name != names[i] {
          if j >= |old(repo.products)| {
            assert repo.products[j] == added[j - |old(repo.products)|];
          } else {
            assert repo.products[j] == old(repo.products)[j];
          }
        }
      }
      var r := repo.AddProduct(names[i], prices[i], ids[i]);
      added := added + [r.value];
      i := i + 1;
      assert (set k | 0 <= k < i :: ids[k]) == (set k | 0 <= k < i - 1 :: ids[k]) + {ids[i - 1]};
    }
  }

  /** `get_product_by_id` of the product `add_product` just created gives
      that product back. */
  method AddThenGet(repo: Products.MemoryProductsRepository, name: Text, price: real, id: Uuid)
    returns (created: Result<Products.Product, Products.Error>, fetched: Result<Products.Product, Products.Error>)
    requires repo.Valid() && id !in repo.issued
    modifies repo
    ensures created.Ok? ==> fetched == created
  {
    created := repo.AddProduct(name, price, id);
    fetched := repo.GetProductById(id);
    if created.Ok? {
      var n := |repo.products| - 1;
      assert repo.products[n].id == id;
      ghost var k :| Products.FirstWithId(repo.products, k, id) && fetched.value == repo.products[k];
      assert Products.IdsDistinct(repo.products);
      assert k == n;
    }
  }

  /** A product id that `delete_product` removed is not handed out again by
      a later `add_product`. */
  method DeleteThenAdd(repo: Products.MemoryProductsRepository, id: Uuid, name: Text, price: real, freshId: Uuid)
    returns (deleted: Result<(), Products.Error>, created: Result<Products.Product, Products.Error>)
    requires repo.Valid() && freshId !in repo.issued
    modifies repo
    ensures deleted.Ok? ==> id in repo.issued
    ensures deleted.Ok? && created.Ok? ==> created.value.id != id
  {
    deleted := repo.DeleteProduct(id);
    created := repo.AddProduct(name, price, freshId);
  }

  /** A hasher that accepts the very hash it produced for a password. */
  ghost predicate RoundTrips(hasher: Users.Hasher, password: Text, salt: Text)
  {
    && hasher.hash(password, salt).Some?
    && hasher.parses(hasher.hash(password, salt).value)
    && hasher.matches(password, hasher.hash(password, salt).value)
  }

  /** On a new service, registering succeeds, registering the same name a
      second time is `AlreadyExists`, and logging in with the registered
      password yields the token issued. */
  method RegisterThenLogin(username: Text, email: Text, password: Text, hasher: Users.Hasher, salt: Text,
                           token: Uuid, now: Service.Timestamp)
    returns (first: Result<Service.UserInfo, Users.Error>, second: Result<Service.UserInfo, Users.Error>,
             login: Result<Uuid, Users.Error>)
    requires |username| != 0 && |email| != 0 && |password| >= Users.MinPasswordLength
    requires RoundTrips(hasher, password, salt)
    ensures first == Ok(Service.UserInfo(username, email, None))
    ensures second == Err(Users.AlreadyExists)
    ensures login == Ok(token)
  {
    var repo := new Users.MemoryUserRepository();
    var service := new Service.UserService(repo);
    first := service.RegisterUser(username, email, password, hasher, salt);
    assert Users.UsernameTaken(repo.users, username) by {
      assert repo.users[0].username == username;
    }
    second := service.RegisterUser(username, email, password, hasher, salt);
    login := service.Login(username, password, hasher, token, now);
    assert Users.Usernames(repo.users) == [username];
  }

  /** After one registration, a wrong password and an unknown name are
      answered alike: `InvalidCredentials`, and no token is issued. */
  method LoginFailuresAlike(username: Text, email: Text, password: Text, hasher: Users.Hasher, salt: Text,
                            wrong: Text, stranger: Text, token: Uuid, now: Service.Timestamp)
    returns (badPassword: Result<Uuid, Users.Error>, badName: Result<Uuid, Users.Error>, issued: map<Uuid, Service.UserInfo>)
    requires |username| != 0 && |email| != 0 && |password| >= Users.MinPasswordLength
    requires RoundTrips(hasher, password, salt)
    requires |wrong| != 0 && !hasher.matches(wrong, hasher.hash(password, salt).value)
    requires |stranger| != 0 && stranger != username
    ensures badPassword == Err(Users.InvalidCredentials)
    ensures badName == Err(Users.InvalidCredentials)
    ensures issued == map[]
  {
    var repo := new Users.MemoryUserRepository();
    var service := new Service.UserService(repo);
    var registered := service.RegisterUser(username, email, password, hasher, salt);
    assert Users.Usernames(repo.users) == [username];
    badPassword := service.Login(username, wrong, hasher, token, now);
    badName := service.Login(stranger, password, hasher, token, now);
    issued := service.tokens;
  }
}
