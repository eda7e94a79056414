# Product, cart and user stores with login checks, modelled in Dafny

This project models the data layer of a small e-commerce backend. That layer is made of three collection managers, each backed by a JSON file, and the two passport strategies built on the user collection:

- `ProductManager` keeps the products and a `nextId` counter in memory. It rebuilds the counter from the file as the largest id plus one. It validates required properties, refuses a duplicate `code`, assigns ids in sequence, merges update patches without touching the id, and removes products by id. Every change is saved by writing the whole array.
- `CartManager` keeps the carts in memory. It creates empty carts under a fresh opaque id. It adds a product to a cart by incrementing that product's line or by appending a line with quantity 1. It never checks that the product exists.
- `UserManager` re-reads the user file on every call. It finds users by email or id (`null` when absent), and it creates, updates and deletes users.
  - `createUser` refuses an email that another user has. `updateUser` refuses it only when the new email is truthy, so uniqueness holds for truthy emails only.
  - `createUser` stores a bcrypt hash, and `updateUser` hashes a truthy new password. A falsy new password (`""`, `null`, `0`, `false`) is stored over the hash as it is.
  - `createUser` and `updateUser` return records without the hash. `getByEmail` and `getById` return the stored record, hash included.
- The `local` strategy turns away an unknown email and a wrong string password with the same message. A password that is not a string makes `compareSync` throw for a known email, so that case differs. The `jwt` strategy takes its token from the bearer header first, then from the `jwt` cookie, and rejects a token whose user no longer exists.

Files:

- `values.dfy` (module `Values`) defines JavaScript values, truthiness, `===`, object spread and `Number()`.
- `store.dfy` (module `Store`) defines the state of a JSON file, the thrown errors and `Result`.
- `products.dfy`, `carts.dfy`, `users.dfy` and `passport.dfy` define one module each: `Products`, `Carts`, `Users` and `Passport`.

How the model represents the source:

- A stored product or user is its id plus a map holding every other property. `{ ...a, ...b }` is map override.
- `ProductManager` and `CartManager` are classes. Their fields are the in-memory array (`products`, `carts`), the counter `nextId`, and `file`, which stands for the JSON file.
  - A save that fails throws after the in-memory change has been made, as in the source. The array then stays changed in memory while the file keeps its old contents.
- `UserManager` has no state of its own. Each operation takes the snapshot its read finds.
  - `createUser` and `updateUser` are methods that change a local array step by step.
  - They return what they return or throw, together with the array they hand to the write.
- Parameters stand for the parts the model leaves abstract:
  - the result of each write (`writeOk`);
  - the fresh id that `uuid`/`randomUUID` produces;
  - bcrypt's salted hash for the call (`hash`);
  - bcrypt's comparison (`compare`);
  - the token that passport-jwt's bearer-header extractor finds.

Behaviours of the code that the model keeps as written:

- Required product properties are checked by truthiness. A price or a stock of 0 is refused.
- `addProductToCart` does not check that the product exists.
- The product counter is recomputed from the file whenever `initialize` runs, and the routers run it on every request. Deleting the product with the largest id while another product remains therefore lowers the counter, and that id can be handed out again. `Products.ReloadAfterDeleteReusesId` proves this.
- `updateProduct` does not check codes, so it can break code uniqueness. `Products.UpdateCanDuplicateCode` proves this.
- `updateUser` hashes a new password only when it is truthy. A falsy one replaces the stored hash, and after `null` every login for that user throws in `compareSync`. `Users.UpdatePasswordOutcome` and `Passport.NullPasswordBreaksLogin` prove this.
- The `local` strategy hands a password that is not a string (a number from a JSON body, say) to `compareSync`, which throws for a known email, while an unknown email gets the usual rejection. The error reaches the client differently from the rejection, so such a request tells registered emails apart. `Passport.NonStringPasswordRevealsAccount` proves this.
- `createUser` accepts any truthy email, but an object or array email is never `===` to a stored one. Such a user is never found by `getByEmail`, and the same email can be registered again. `Users.ObjectEmailNeverTaken` proves this.
- No operation is serialized.

## Model

| member | source | states |
|---|---|---|
| Values.Spread | managers/ProductManager.js:104 | `{ ...target, ...patch }` has the keys of both, and each property of the patch overrides the target's |
| Values.ToNumber | managers/UserManager.js:60 | `Number(age)` is a number or NaN, and a number is kept as it is |
| Products.ZeroPriceOrStockRefused | managers/ProductManager.js:49-51 | the required-property guard tests truthiness: a price or stock of 0 is refused, while any non-zero numeric price and stock pass when the other required properties are truthy |
| Products.AddedCodeIsTaken | managers/ProductManager.js:54-56 | once a product with a string or numeric code is stored, that code is taken and a second `addProduct` with it is refused; a NaN code is never taken |
| Products.NewProduct | managers/ProductManager.js:47-69 | the new product carries the assigned id and exactly the eight destructured properties, with title, description, code, price, stock and category taken from the input; `status` defaults to `true` and `thumbnails` to `[]` when undefined |
| Products.MaxId | managers/ProductManager.js:20 | `Math.max` over the ids is at least every stored id and is one of them |
| Products.LoadedNextId | managers/ProductManager.js:19-21 | after a non-empty load, `nextId` is above every stored id and equals the largest plus one; an empty load keeps the previous counter |
| Products.IndexOfId | managers/ProductManager.js:92 | `findIndex` by id gives the first position holding the id, or -1 exactly when no product has it |
| Products.Patched | managers/ProductManager.js:98-104 | the merged product keeps its id and has the keys of the product and of the patch less `id`; every other property comes from the patch when the patch names it and from the old product otherwise |
| Products.WithoutId | managers/ProductManager.js:112 | `filter` keeps exactly the products with another id, never grows, and changes nothing exactly when no product had the id |
| Products.AddKeepsInvariants | managers/ProductManager.js:54-71 | appending the new product under the counter keeps the counter above every id and keeps ids distinct; it also keeps codes distinct when the code was not taken |
| Products.WithoutIdKeepsDistinctIds | managers/ProductManager.js:112 | deleting keeps ids pairwise distinct |
| Products.WithoutIdKeepsDistinctCodes | managers/ProductManager.js:112 | deleting keeps codes pairwise distinct |
| Products.AddThenGet | managers/ProductManager.js:59-88 | after `addProduct` assigns an id, looking that id up finds the product just appended |
| Products.DeleteThenGetFails | managers/ProductManager.js:110-120 | after `deleteProduct(id)` no product with that id is found |
| Products.DeleteKeepsOrder | managers/ProductManager.js:112 | with distinct ids, deleting the product at position k leaves the others in their original order |
| Products.WithoutIdAppend | managers/ProductManager.js:112 | the filter distributes over concatenation, so the surviving products keep their order for any array, repeated ids included |
| Products.NoneWithId | managers/ProductManager.js:112-116 | filtering out an id that no product has leaves the array as it was |
| Products.ReloadAfterDeleteReusesId | managers/ProductManager.js:19-21 | once the product with the strictly largest id, at any position, is deleted while another product remains, reloading lowers the counter to that id or below, so the id can be assigned again; when it was the only product, the reload keeps the counter |
| Products.UpdateCanDuplicateCode | managers/ProductManager.js:91-104 | a patch can give a product the code of another, which breaks code uniqueness |
| Products.ProductManager.constructor | managers/ProductManager.js:5-10 | a new manager starts with no products and `nextId` 1 |
| Products.ProductManager.Save | managers/ProductManager.js:35-44 | the file receives the whole in-memory array, or the call throws and the file is unchanged |
| Products.ProductManager.Initialize | managers/ProductManager.js:13-32 | a present file replaces the array and recomputes the counter; a missing file is created from memory; any other read failure changes nothing; the counter stays above every id |
| Products.ProductManager.AddProduct | managers/ProductManager.js:47-74 | a falsy required property or a taken code throws and changes nothing; otherwise one product is appended under the old counter and the counter grows by one; ids and codes stay distinct |
| Products.ProductManager.GetProducts | managers/ProductManager.js:77-79 | returns the in-memory array |
| Products.ProductManager.GetProductById | managers/ProductManager.js:82-88 | returns the first product with the id, and throws not-found exactly when there is none |
| Products.ProductManager.UpdateProduct | managers/ProductManager.js:91-107 | an unknown id throws and changes nothing; otherwise only that product is replaced by the merge, and the length and every id stay the same |
| Products.ProductManager.DeleteProduct | managers/ProductManager.js:110-120 | keeps the products with another id in order; throws without saving when none was removed; ids and codes stay distinct |
| Carts.IndexOfCart | managers/CartManager.js:63 | gives the first cart with the id, or -1 exactly when there is none |
| Carts.IndexOfLine | managers/CartManager.js:70 | gives the first line for the product, or -1 exactly when there is none |
| Carts.TotalQuantityAppend | managers/CartManager.js:77 | appending a line adds its quantity to the cart's total |
| Carts.TotalQuantityUpdate | managers/CartManager.js:74 | replacing a line changes the total by the difference of the two quantities |
| Carts.AddLineAddsOneUnit | managers/CartManager.js:70-78 | adding a product raises the cart's total quantity by exactly 1 |
| Carts.AddLine | managers/CartManager.js:70-78 | the cart then has a line for the product; the first existing line for the product gets one more unit and nothing else changes; a missing one is appended with quantity 1; lines for other products are untouched |
| Carts.AddLineKeepsLinesWellFormed | managers/CartManager.js:70-78 | one line per product and positive quantities are preserved |
| Carts.AddTwiceGivesOneLine | managers/CartManager.js:70-78 | adding the same product twice to a cart without it gives a single line with quantity 2 |
| Carts.CartManager.constructor | managers/CartManager.js:5-9 | a new manager starts with no carts |
| Carts.CartManager.Save | managers/CartManager.js:30-39 | the file receives the whole in-memory array, or the call throws and the file is unchanged |
| Carts.CartManager.Initialize | managers/CartManager.js:12-27 | a present file replaces the array; a missing file is created from memory; any other read failure changes nothing |
| Carts.CartManager.CreateCart | managers/CartManager.js:42-50 | exactly one empty cart with the fresh id is appended, other carts unchanged, and distinct ids and well-formed lines are preserved |
| Carts.CartManager.GetCartById | managers/CartManager.js:53-59 | returns the first cart with the id, and throws not-found exactly when there is none |
| Carts.CartManager.AddProductToCart | managers/CartManager.js:62-82 | an unknown cart throws and changes nothing; otherwise only that cart changes, by one unit of the product, for any product id; well-formedness is preserved |
| Users.WithoutPassword | managers/UserManager.js:69-70 | the returned record has the same id, exactly the keys less `password`, and the same values for them |
| Users.ReadData | managers/UserManager.js:15-23 | a missing file reads as no users; any other read or parse failure is thrown |
| Users.IndexOfEmail | managers/UserManager.js:35 | gives the first user whose email is `===` to the argument, or -1 exactly when there is none |
| Users.IndexOfUserId | managers/UserManager.js:40 | gives the first user whose id is `===` to the argument, or -1 exactly when there is none |
| Users.GetByEmail | managers/UserManager.js:33-36 | gives the first user with the email, or `null` exactly when none has it; only a failed read throws |
| Users.GetById | managers/UserManager.js:38-41 | gives the first user with the id, or `null` exactly when none has it; only a failed read throws |
| Users.AgeNeedsOnlyBeDefined | managers/UserManager.js:44-46 | the `createUser` guard lets an age of 0 through, refuses a missing age, and refuses an empty password |
| Users.EmailTakenIffFound | managers/UserManager.js:35-49 | the `some` of `createUser` and the `find` of `getByEmail` agree: an email is taken exactly when the search finds a user |
| Users.NewUser | managers/UserManager.js:53-64 | the stored record has the fresh id, the given names and email, the hash as password, `Number(age)`, and `cart` defaulting to `null` and `role` to `'user'` |
| Users.AppendKeepsUnique | managers/UserManager.js:48-66 | appending a user whose email is not taken and whose id is fresh keeps emails unique and ids distinct |
| Users.CreateUser | managers/UserManager.js:43-71 | a failed guard, a failed read, a taken email or a non-string password throws with nothing written; otherwise one user is appended after the others, with the hash of the given password as its password, and is returned without it; email uniqueness and distinct ids are preserved |
| Users.PreparedPatch | managers/UserManager.js:79-86 | the patch loses `id` and keeps every other key; a truthy string password is replaced by its hash; the other values are kept |
| Users.Merged | managers/UserManager.js:88 | the merged user keeps its id and has the keys of both; each property comes from the patch when it names it and from the user otherwise |
| Users.EmailClashOnlyWithOthers | managers/UserManager.js:80-82 | the email check skips the updated user itself: re-sending one's own email is no clash, a falsy email never clashes, and a truthy email held by another user always does |
| Users.UpdatePasswordOutcome | managers/UserManager.js:84-88 | the stored password stays when the patch has none, becomes the hash of a truthy string, and becomes a falsy patch value as it is |
| Users.UpdateKeepsUnique | managers/UserManager.js:80-88 | with distinct ids, replacing one user by a merge that passed the email check keeps truthy emails unique |
| Users.UpdateUser | managers/UserManager.js:73-92 | an unknown id, an email held by another user or a non-string password throws with nothing written; otherwise only that user is replaced by the merge and returned without password; the stored password is kept when the patch has none and is the hash of a truthy one; uniqueness is preserved |
| Users.WithoutUserId | managers/UserManager.js:97 | `filter` keeps exactly the users with another id, and returns the same array exactly when no user had the id |
| Users.DeleteUserKeepsOrder | managers/UserManager.js:97 | with distinct ids, deleting the user at position k leaves the others in their original order |
| Users.WithoutUserIdAppend | managers/UserManager.js:97 | the filter distributes over concatenation, so the surviving users keep their order for any file, repeated ids included |
| Users.DeleteUser | managers/UserManager.js:94-101 | writes the users with another id and returns the id; throws, writing nothing, when no user had it |
| Users.CreateThenGetByEmail | managers/UserManager.js:33-66 | for an email that is `===` to itself (a string, number, boolean or `null`), after `createUser` writes, `getByEmail` finds the new user and a second `createUser` with that email is refused |
| Users.ObjectEmailNeverTaken | managers/UserManager.js:33-66 | for an object or array email, after `createUser` writes, `getByEmail` finds nobody and the email does not count as taken |
| Users.DeleteThenGetById | managers/UserManager.js:38-41 | after `deleteUser(id)` writes, `getById(id)` gives `null` |
| Passport.CookieExtractor | config/passport.js:8-14 | gives the `jwt` cookie when the request has a truthy one, and `null` otherwise |
| Passport.FirstTruthy | config/passport.js:42-45 | the extracted token is the first truthy extractor result in list order |
| Passport.JwtFromRequest | config/passport.js:42-45 | a bearer token wins over the cookie; without one, the cookie's token is used |
| Passport.CompareSync | config/passport.js:30 | the comparison is bcrypt's verdict when both arguments are strings, and throws otherwise |
| Passport.LocalVerify | config/passport.js:20-38 | an unreadable file fails; an unknown email is rejected; for a known email the first stored match is accepted, without password, exactly when bcrypt's comparison holds, and rejected otherwise; a non-string password or hash throws; every rejection carries the one message 'Credenciales inválidas' |
| Passport.FailuresIndistinguishable | config/passport.js:22-31 | for a string password, an unknown email and a wrong password give the very same rejection |
| Passport.NonStringPasswordRevealsAccount | config/passport.js:22-36 | for a password that is not a string, an unknown email is rejected with the usual message while a known email makes `compareSync` throw |
| Passport.RegisterThenLogin | config/passport.js:22-34 | a user created by `createUser` with an email that is `===` to itself logs in with that password and gets the stored record without its hash |
| Passport.JwtVerify | config/passport.js:47-55 | fails exactly when the file is unreadable; rejects without a message exactly when no user has the payload's id; otherwise accepts the first stored user with that id |
| Passport.JwtVerifyExposesHash | config/passport.js:49-51 | the user the `jwt` strategy yields still carries its password hash |
| Passport.JwtVerifySafe | config/passport.js:47-51 | the corrected callback accepts exactly when the original does, yielding that user without password, and otherwise gives the original's verdict |
| Passport.DeletedUserTokenRejected | config/passport.js:49-50 | a token naming a deleted user is rejected, by the callback as written and by the corrected one |
| Passport.NullPasswordBreaksLogin | config/passport.js:30 | in any store, after `updateUser` gives `password: null` to the first user with its email (every user, when emails are unique), every login with that email throws in `compareSync` |

## Findings

| source | as written | input that shows it | evidently intended | confidence | as-written member | corrected member |
|---|---|---|---|---|---|---|
| config/passport.js:49-51 | The `jwt` verify callback hands on the record from `getById`, which keeps the bcrypt hash. A `GET /sessions/current` route (rutes/sessions.router.js:49-50) would send that record back to the client. That router imports a `cartManager` export which CartManager.js does not have, so it belongs to another version of the managers. The callback's own output carries the hash either way. | any user stored by `createUser`, with a valid token whose payload names that user's id | the record without `password`, as the `local` strategy hands on (config/passport.js:33) | medium; not executed | Passport.JwtVerifyExposesHash | Passport.JwtVerifySafe |

## Left out

- HTTP routing and page rendering (`rutes/`, `express.js`, `app.js`, `managers/Mainpage.js`): these are status-code mapping and templates. The `limit` slicing of the product list and registration, which creates a cart and then a user, are route code and are not part of this model.
- The socket.io broadcast of the product list and the browser scripts under `public/`: network fan-out and DOM code.
- File I/O and JSON encoding: a file is a `Snapshot` (missing, unreadable, or an array of documents). The model leaves out the following:
  - `JSON.stringify` dropping `undefined` properties and writing `NaN` as `null`;
  - partial writes;
  - a file that parses to something other than an array of records with integer (product) or string (user, cart) ids.
- Concurrency: there is no locking, and the routers re-run `initialize` on every request. The constructors start `initialize` without awaiting it. The model treats `Initialize` as a separate call and each operation as running alone.
- Aliasing: the model works on values. A product or cart returned by a manager is, in the source, the same object held in memory, so later changes show through it. `delete updatedFields.id` also removes `id` from the caller's own patch object. `updateUser` likewise deletes `fields.id` and overwrites `fields.password` with the hash on the caller's object.
- Products.Patched: a patch whose `id` holds `undefined` would overwrite the id in the source, because the code deletes `id` only when it is not `undefined`. A JSON request body cannot produce such a value, and the model always drops the key.
- Values.ToNumber: `Number()` of strings with spaces, signs, fractions, exponents, hex or `Infinity`, and of arrays whose one element is not a number, gives NaN in the model, while JavaScript converts some of these.
- Cart quantities and product ids are unbounded integers. JavaScript number precision and a non-numeric quantity loaded from the file are not modelled.
- bcrypt's hashing and comparison, uuid generation, JWT signing, signature and expiry checks, and the parsing of the bearer `Authorization` header are library code. They are parameters of the model.
- passport-local's own "missing credentials" check runs before the verify callback, and `done`'s mapping to HTTP responses follows it. Neither is modelled.
- Errors are kinds (`Store.Error`), not message strings. The one exception is the login message, which callers can observe.
- `config/env.js` and the role middleware `middlewares/auth.js` are not modelled. The environment lookups are plain defaults. Role gating lives in `middlewares/auth.js`, whose code is not part of this model, so the model states no property about roles.
