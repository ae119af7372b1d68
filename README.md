# Product catalogue and user login stores, modelled in Dafny

This project models the in-memory core of a small Rust web backend. The core has three parts:
- a product store (`MemoryProductsRepository`), an ordered vector of products with unique names;
- a user store (`MemoryUserRepository`), an ordered vector of users with unique usernames, increasing numeric ids and Argon2 password hashes;
- the user service (`UserService`), which registers users, logs them in against the store and records a session token for each successful login.

Each store is a Dafny `class` whose field is the vector as a `seq`. Each operation is a `method` whose `ensures` give the result and the whole new state for every branch of the source, in the source's order of checks. A ghost `Valid()` predicate is each class's invariant:
- products: ids are distinct, and every stored id has been drawn;
- users: ids strictly increase along the vector, and usernames are distinct.

Every mutating method keeps `Valid()`. The session table is a `map<Uuid, UserInfo>` field of the service.

Strings are sequences of bytes (`Common.Text`). Rust's `is_empty()` and `len()` therefore match `|s| == 0` and `|s|`, and the 8-character password minimum is counted in bytes, as Rust counts it. Prices are `real`, since the source only compares them with `0.0`.

Values from outside the program become parameters:
- the UUID that `Uuid::new_v4()` returns (`id` for a product, `token` for a login);
- the instant that `Utc::now()` returns (`now`);
- the salt that `SaltString::generate(&mut OsRng)` draws (`salt`).

The Argon2 hasher is the datatype `Users.Hasher`. It holds three function values:
- `hash(password, salt)`: `None` when hashing fails;
- `parses(origin)`: whether the stored hash string parses;
- `matches(password, origin)`: whether verification accepts the password.

The modules follow the source files:
- `Common` (common.dfy): bytes, `Text`, `Uuid`, `Option`, `Result`, first-index search and removal at a position;
- `Products` (products.dfy): src/products/product.rs, errors.rs and products_repository.rs;
- `Users` (users.dfy): src/user/user.rs and user_repository.rs;
- `Service` (service.dfy): src/user/user_service.rs;
- `Scenarios` (scenarios.dfy): properties that take several calls, each proved from the contracts above alone.

In four places the code is weaker than a store of this kind would ideally be, or differs from its usual layering. The model follows the code:
- `update_product` does not re-check that the new name is unused. `Products.RenameCanDuplicateNames` shows that an update can leave two products with one name.
- A new user's id is the *last* user's id plus one, not one above the largest id ever issued. The user store has no delete operation, so the two agree here: ids still strictly increase and never repeat (`Users.NextUserId`, `Users.AppendKeepsInvariants`).
- Hashing is done by the repository's `add_user` while it holds the store's lock, not by the service outside it. In the sequential model only the order of the checks is observable: input checks, then the name check, then hashing.
- The service's checks in `register_user` cover all of the repository's input checks. So the repository's `InvalidInput` never reaches a caller of the service.

## Model

| member | source | states |
|---|---|---|
| `Common.IndexOf` | src/products/products_repository.rs:85 | The result is the position of the first occurrence of the value, or `None` exactly when the value does not occur. This is what `position`/`find` give. |
| `Common.RemoveAt` | src/products/products_repository.rs:86 | `Vec::remove(k)` leaves one element fewer. Elements before `k` keep their place, and those after it move down by one. |
| `Products.AppendKeepsNamesDistinct` | src/products/products_repository.rs:42-46 | If names are distinct and the new name is not taken, then names are still distinct after the push. |
| `Products.RenameKeepsNamesDistinct` | src/products/products_repository.rs:70-76 | Renaming one product to a name that no other product uses keeps names distinct. |
| `Products.RenameCanDuplicateNames` | src/products/products_repository.rs:70-76 | Renaming a product to another product's name leaves two products with that name. The update does not re-check uniqueness. |
| `Products.RemoveKeepsIdsDistinct` | src/products/products_repository.rs:85-86 | Removing one product keeps ids distinct, and the removed id no longer occurs in the store. |
| `Products.MemoryProductsRepository.constructor` | src/products/products_repository.rs:26-30 | A new store is empty and satisfies its invariant. |
| `Products.MemoryProductsRepository.AddProduct` | src/products/products_repository.rs:35-49 | An empty name or a price `<= 0` gives `InvalidInput`, and no id is drawn. A taken name gives `AlreadyExists` whatever the (positive) price. Otherwise the result is `Product(id, name, price)` (product.rs:12-18), the store becomes `old + [p]`, and the result is its last element. Nothing changes on an error. Distinct names and distinct ids are kept. |
| `Products.MemoryProductsRepository.GetProducts` | src/products/products_repository.rs:51-54 | Returns the whole store in insertion order and changes nothing. |
| `Products.MemoryProductsRepository.GetProductById` | src/products/products_repository.rs:56-66 | Returns the first product with the id. It gives `NotFound` exactly when no product has the id. |
| `Products.MemoryProductsRepository.UpdateProduct` | src/products/products_repository.rs:68-81 | An absent id gives `NotFound`, even with invalid input. A present id with invalid input gives `InvalidInput`. Either error leaves the store unchanged. Otherwise only the first matching product gets the new name and price, and its id and every other product stay the same. Distinct names stay distinct when no other product already has the new name (`RenameKeepsNamesDistinct`). |
| `Products.MemoryProductsRepository.DeleteProduct` | src/products/products_repository.rs:83-91 | A present id removes exactly the first matching product and keeps the order of the rest. Afterwards the id is absent, and it stays among the ids already drawn. An absent id gives `NotFound` and changes nothing. |
| `Users.HashPassword` | src/user/user_repository.rs:96-106 | Succeeds exactly when the hasher does and returns its hash. A hasher failure gives `HashingError`. |
| `Users.VerifyPassword` | src/user/user_repository.rs:108-123 | A stored hash that does not parse gives `HashingError`, and that is the only error. Otherwise the result is `Ok(matches)`, so a rejected password is `Ok(false)`. |
| `Users.NextUserId` | src/user/user_repository.rs:49 | The new id is at least 1. When ids increase it is above every id in the store. |
| `Users.IncreasingIdsAreDistinct` | src/user/user_repository.rs:49-53 | Strictly increasing ids are pairwise distinct. |
| `Users.AppendKeepsInvariants` | src/user/user_repository.rs:42-53 | Pushing a user with the next id and an unused name keeps ids strictly increasing and usernames distinct. |
| `Users.Authenticate` | src/user/user_repository.rs:69-86 | This is the outcome of `control_user`, as four cases on the first user with the name. An unknown name gives `InvalidCredentials`. A stored hash that does not parse gives `HashingError`. A hash that parses but does not match gives `InvalidCredentials`. A hash that parses and matches gives `Ok` of that user. Conversely, success returns the first user with the name, with a hash that parses and matches, and `HashingError` only comes from a hash that does not parse. No other error occurs. With distinct usernames, success holds exactly when some user with the name has a hash that parses and matches. |
| `Users.MemoryUserRepository.constructor` | src/user/user_repository.rs:90-94 | A new store is empty and satisfies its invariant. |
| `Users.MemoryUserRepository.AddUser` | src/user/user_repository.rs:29-58 | Checks run in this order. An empty username or email gives `InvalidInput`. A password shorter than 8 bytes gives `InvalidInput`. A taken username gives `AlreadyExists`. A failing hasher gives `HashingError`. Any error leaves the store unchanged. Otherwise exactly one user is pushed and returned: its id is `NextUserId`, and its password is the hasher's output, not the plaintext. The invariant is kept. |
| `Users.MemoryUserRepository.GetUserByUsername` | src/user/user_repository.rs:60-67 | Returns the first user with the name. It gives `NotFound` exactly when no user has it. |
| `Users.MemoryUserRepository.ControlUser` | src/user/user_repository.rs:69-86 | Returns `Authenticate`'s outcome for the current store and does not change the store. |
| `Service.UserService.constructor` | src/user/user_service.rs:39-44 | The service wraps the given store and starts with no tokens. |
| `Service.UserService.RegisterUser` | src/user/user_service.rs:46-62 | An empty username, email or password gives `InvalidInput`. A password shorter than 8 bytes gives `InvalidInput`. Neither touches the store. Otherwise the store's `AlreadyExists` or `HashingError` passes through unchanged. On success the user is stored with the hash, and the result carries the username and email with no last login. |
| `Service.UserService.Login` | src/user/user_service.rs:64-81 | An empty username or password gives `InvalidCredentials` and leaves the tokens unchanged. An error from `control_user` passes through and leaves the tokens unchanged. On success the tokens become `old[token := (username, email, Some(now))]` and the result is `Ok(token)`. Every other entry stays the same. |
| `Service.UserService.GetUserInfo` | src/user/user_service.rs:83-90 | Returns the first stored user's name and email with no last login. It gives `NotFound` exactly when the name is unknown. |
| `Scenarios.AddAll` | src/products/products_repository.rs:35-49 | Consecutive adds of valid products with distinct, unused names and fresh ids all succeed. The store ends up as the old store followed by exactly these products, in order. |
| `Scenarios.AddThenGet` | src/products/products_repository.rs:35-66 | `get_product_by_id` on the id of a product just added returns that product. |
| `Scenarios.DeleteThenAdd` | src/products/products_repository.rs:83-91 | After a delete, a later add never reuses the deleted id. |
| `Scenarios.RegisterThenLogin` | src/user/user_service.rs:46-81 | On a new service with a hasher that accepts its own hashes, the first registration succeeds and a second one gives `AlreadyExists`. A login with the registered password then returns the token. |
| `Scenarios.LoginFailuresAlike` | src/user/user_repository.rs:69-86 | A wrong password and an unknown username both give `InvalidCredentials`, and neither issues a token. |

## Left out

- HTTP routing (src/product_routes.rs, src/web/product_routes.rs, src/routes/user_routes.rs): actix handlers and status-code mapping only. user_routes.rs also calls a `create_user` that does not exist.
- Bootstrap and wiring (src/main.rs, `add_users` in src/user/mod.rs): construction only. The service is modelled over the one concrete user store, in place of `Arc<dyn UserRepository>`.
- Authorization middleware (src/web/authorization.rs): the file is entirely commented out.
- Argon2 internals and src/utils/password_handler.rs: a foreign library with operating-system randomness. `Users.Hasher` leaves the hashing, parsing and verification functions uninterpreted.
- Concurrency: `Arc<Mutex<..>>`, `lock().unwrap()` and `async`. Each operation is one atomic step, so lock poisoning and interleavings are not modelled.
- `Uuid::new_v4()`, `Utc::now()` and the salt are parameters. `token.to_string()` is not modelled, and `Login` returns the UUID itself.
- Floating point: `price` is a `real`. A NaN price, which passes the `price <= 0.0` check in Rust, has no counterpart.
- Error message strings: only the error variant is modelled.
- `get_all_users` and `get_user_by_id` (src/user/user_service.rs:92-108): they call repository methods that the `UserRepository` trait does not declare, so they do not compile.
- src/user/errors.rs is not part of this model. The user error variants are the ones the core files use.
- `User::new` is not among the source files. `AddUser` assumes that `User::new(id, username, email, hashed_password)` (src/user/user_repository.rs:52) fills the four fields of `User` in that order.
- `Users.User`: ids are unbounded naturals. The `u32` overflow of `last.id + 1` would need 2^32 - 1 registrations and is not modelled.
- Products.MemoryProductsRepository.AddProduct: requires the drawn `id` to be fresh (not in `issued`). This stands for the uniqueness that version-4 UUIDs provide, which the source relies on and does not check.
- Products.MemoryProductsRepository.GetProducts: returns the sequence itself, not the source's `Result<Vec<Product>>`. That result is always `Ok`, so no behaviour is lost.
- Service.UserService.Login: states that the store is unchanged when the credentials are empty. It cannot state that the store was not consulted.
