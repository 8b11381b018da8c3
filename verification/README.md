# Bookworm backend: request handlers as pure functions

This project models the backend of a book-logging app. The backend has:

- an authentication gate (`protectRoute`) in front of every book route;
- a `/register` and a `/login` handler that issue session tokens;
- four book handlers: create, paginated list, delete by owner, and "my books".

Each handler is a pure function from a store and a request to the new store and a response (`Http.Handled`). The store is an immutable value (`Model.Store`). It holds the users and the books in the database's natural order, plus a counter that stands in for the database's fresh document ids.

The external services are parameters:

- `verify: string -> Option<Id>` checks a token's signature and expiry and yields its user id.
- `sign: Claims -> string` signs the `{userId}` payload with the `"15d"` expiry.
- `matches(stored, candidate)` is the password comparison of the user schema.
- `upload` is the image host's upload. It yields the stored image's `secure_url` or a failure message.
- `destroy` is the image host's delete. It yields true on success.
- `now` is the creation timestamp.

Modules:

- `Text`: the JavaScript string operations used. These are `replace` with a string pattern (first occurrence only, anywhere in the string), `includes`, and `split` on one character followed by `pop()` or `[0]`.
- `Model`: users, books, the store, `findOne`-style lookups (the first match in natural order), filtering, and the store invariant `Valid`. `Valid` means distinct ids below the counter, unique emails and usernames, and every book's owner resolves to a user.
- `Ordering`: the newest-first sort on `createdAt`, proved sorted and a permutation.
- `AuthGate`, `AuthRoutes`, `BookRoutes`: the handlers, with their exact statuses and messages.
- `Routes`: the book handlers behind the gate, and the properties that span handlers. These are: every route keeps the store valid, a freshly issued token gets its user through the gate, and registering then logging in succeeds.

Behaviours of the code that are easy to misread, modelled as written:

- An absent `Authorization` header makes `.replace` throw inside the gate's `try`. The catch-all then answers 401 "Token is not valid..", not the "no authentication token" message. Only a header that is present but empty after the removal gets "No Authentication token, Access Denied..".
- `"Bearer "` is removed at its first occurrence, which need not be at the start of the header. It is not stripped only as a prefix.
- The two login credential failures do not share one message. An unknown email gives "Invalid Credentails.." and a wrong password gives "Invalid Credentials..". Both are 400.
- A failed create answers 500 with the failure's own message. The other handlers answer with fixed texts.

## Model

| member | source | states |
|---|---|---|
| Text.ReplaceFirst | src/middleware/auth.middleware.js:7 | `replace` with a string pattern changes only the first occurrence of the pattern, wherever it is, and leaves a string without the pattern unchanged |
| Text.ReplaceFirstOfPrefix | src/middleware/auth.middleware.js:7 | a string that starts with the pattern loses exactly that prefix |
| Text.Contains | src/routes/bookRoutes.js:89 | `includes` is true exactly when the pattern occurs at some index |
| Text.Split | src/routes/bookRoutes.js:91 | `split` on one character yields at least one piece, none of which contains the separator; with Text.JoinSplit and Text.SplitJoin, the pieces are exactly the maximal separator-free runs |
| Text.JoinSplit | src/routes/bookRoutes.js:91 | `split` loses nothing: joining the pieces with the separator gives the string back |
| Text.SplitJoin | src/routes/bookRoutes.js:91 | splitting a join of separator-free pieces gives the same pieces back |
| Text.SplitFirst | src/routes/bookRoutes.js:91 | `split(sep)[0]` is the longest separator-free prefix |
| Text.SplitLast | src/routes/bookRoutes.js:91 | `split(sep).pop()` is the longest separator-free suffix |
| Model.FindFirst | src/routes/authRoutes.js:32-38 | a `findOne` lookup yields the first matching document, and nothing exactly when no document matches |
| Model.Filter | src/routes/bookRoutes.js:115 | a `find` filter keeps each matching document as often as it is stored and drops every other one |
| Model.FilterInOrder | src/routes/bookRoutes.js:99 | the documents a filter keeps stay in their stored order |
| Model.UniqueUserById | src/middleware/auth.middleware.js:16 | in a valid store, the lookup by id finds the one user with that id |
| Model.UniqueUserByEmail | src/routes/authRoutes.js:82 | in a valid store, the lookup by email finds the one user with that email |
| Model.FilterDropsUnique | src/routes/bookRoutes.js:99 | removing an id that exactly one book holds shortens the books by one |
| Model.FilterKeepsDistinct | src/routes/bookRoutes.js:99 | removing books keeps book ids distinct |
| Ordering.SortNewest | src/routes/bookRoutes.js:54 | the result is ordered by `createdAt` descending and is a permutation of the input |
| AuthGate.ProtectRoute | src/middleware/auth.middleware.js:4-29 | yields an outcome and no store, so it never changes the store; absent header gives 401 "Token is not valid.."; empty token gives 401 "No Authentication token"; a token that fails to verify gives 401 "Token is not valid.."; a verified token whose user id no stored user has gives 401 "Token is invalid.."; the request proceeds exactly when all checks pass, with the stored user minus its password |
| AuthGate.BearerHeaderCarriesToken | src/middleware/auth.middleware.js:7 | the header "Bearer t" yields exactly the token t |
| AuthGate.TokenOf | src/middleware/auth.middleware.js:7 | an absent header has no token string; a header without "Bearer " is the token unchanged; a header starting with "Bearer " yields the rest of it |
| AuthGate.BearerRemovedAfter | src/middleware/auth.middleware.js:7 | for any text `x` without an earlier "Bearer ", the header `x` + "Bearer " + `t` yields `x` + `t`: the removed occurrence need not be a prefix |
| AuthGate.BearerRemovedAnywhere | src/middleware/auth.middleware.js:7 | "xBearer t" yields "xt": the removed occurrence need not be a prefix |
| AuthGate.OnlyFirstBearerRemoved | src/middleware/auth.middleware.js:7 | "Bearer Bearer t" yields "Bearer t": only the first occurrence goes |
| AuthGate.BareBearerHasNoToken | src/middleware/auth.middleware.js:7-10 | the header "Bearer " alone is rejected with "No Authentication token, Access Denied.." |
| AuthRoutes.AvatarUrl | src/routes/authRoutes.js:43 | the avatar URL is the DiceBear seed URL followed by exactly the username |
| AuthRoutes.AvatarUrlInjective | src/routes/authRoutes.js:43 | two usernames share an avatar URL exactly when they are equal |
| AuthRoutes.Register | src/routes/authRoutes.js:12-65 | the five checks run in order and the first failure decides the 400 message; any rejection leaves the store unchanged; 201 exactly when all checks pass; then exactly one user is appended with a fresh id, the request's fields and the avatar URL, and the response carries a token signed over `{userId}` for "15d" and the user without its password |
| AuthRoutes.Login | src/routes/authRoutes.js:74-100 | never changes the store; answers 200 or 400; only missing fields give "Email and password are required.."; an unknown email gives "Invalid Credentails.."; for filled fields and a known email, 200 exactly when the password of the first user with that email matches, and "Invalid Credentials.." otherwise; a 200 carries the first user with that email, whose password matched, and a token for that user |
| AuthRoutes.CredentialFailuresDiffer | src/routes/authRoutes.js:83-88 | the unknown-email and wrong-password messages are different strings |
| BookRoutes.CreateBook | src/routes/bookRoutes.js:10-41 | a falsy field (empty string, absent, rating 0) gives 400 "Please fill all fields"; a failed upload gives 500 with its message; 201 exactly otherwise, appending exactly one book with the uploaded URL, the caller as owner and a fresh id; nothing else changes |
| BookRoutes.TotalPages | src/routes/bookRoutes.js:63 | `ceil(total / limit)`: the fewest pages of `limit` that hold `total` books |
| BookRoutes.OwnerOf | src/routes/bookRoutes.js:55 | `populate("user", "username profileImage")`: null exactly when no stored user has the book's owner id, otherwise that user's id, username and profile image only |
| BookRoutes.Populate | src/routes/bookRoutes.js:55 | every listed book keeps its position and carries its populated owner |
| BookRoutes.Window | src/routes/bookRoutes.js:55 | skip/limit yields at most `limit` consecutive items starting at `skip` |
| BookRoutes.ListBooks | src/routes/bookRoutes.js:48-64 | page and limit default to 1 and 5; the page is the window at (page-1)*limit of all books sorted newest first, each with its populated owner; totalBooks counts all books; totalPages is the ceiling; the store is unchanged |
| BookRoutes.PageNonEmptyIff | src/routes/bookRoutes.js:52-63 | a page has books exactly when its number is at most totalPages |
| BookRoutes.SecondPageOfTwelve | src/routes/bookRoutes.js:50-63 | with 12 books, page 2 of limit 5 holds the 6th to 10th newest, and there are 3 pages |
| BookRoutes.PublicId | src/routes/bookRoutes.js:91 | the public id contains neither '/' nor '.'; BookRoutes.PublicIdSpec pins where in the URL it comes from |
| BookRoutes.PublicIdSpec | src/routes/bookRoutes.js:91 | the public id is the URL's piece after its last '/', cut before the first following '.', and holds neither character |
| BookRoutes.CleanupFor | src/routes/bookRoutes.js:89-96 | a delete on the image host is issued exactly for a non-empty URL containing "cloudinary", with the URL's public id |
| BookRoutes.DeleteBook | src/routes/bookRoutes.js:77-105 | an unknown id gives 404 and another user's book gives 401 "Unauthorized", both with the store unchanged and no image delete; the owner's delete removes exactly the books with that id, keeps the others in their order, and answers "Book Deleted Successfully" |
| BookRoutes.DeleteIgnoresDestroyResult | src/routes/bookRoutes.js:93-100 | the image delete's success or failure changes neither the store nor the response |
| BookRoutes.DeleteRemovesOneBook | src/routes/bookRoutes.js:99 | with distinct book ids, a successful delete removes one book |
| BookRoutes.BooksOfUser | src/routes/bookRoutes.js:113-121 | answers exactly the caller's books, each as often as stored, newest first, and leaves the store unchanged |
| Routes.PostBook | src/routes/bookRoutes.js:10-41 | the gate runs first: its rejection is answered 401 with the gate's message, and a caller it lets through gets exactly the create handler's outcome for the authenticated user; a created book's owner is the id the header's token verifies to, and that user is in the store |
| Routes.GetBooks | src/routes/bookRoutes.js:48-64 | never changes the store; a gate rejection is answered 401 with the gate's message; a caller the gate lets through gets exactly the list handler's page |
| Routes.DeleteBookRoute | src/routes/bookRoutes.js:77-105 | a gate rejection is answered 401 with the gate's message and no image delete; a caller the gate lets through gets exactly the delete handler's outcome; only a book owned by the user the token verifies to is removed, and only the books with that id |
| Routes.GetUserBooks | src/routes/bookRoutes.js:113-121 | never changes the store; a gate rejection is answered 401 with the gate's message; a caller the gate lets through gets exactly the my-books handler's answer: 200 with exactly the books owned by the token's user, newest first |
| Routes.UnverifiedTokenRejectedEverywhere | src/middleware/auth.middleware.js:13 | a token that fails verification gets 401 "Token is not valid.." on all four book routes, with the store unchanged |
| Routes.RegisterPreservesValid | src/routes/authRoutes.js:32-53 | registration keeps ids, emails and usernames unique |
| Routes.PostBookPreservesValid | src/routes/bookRoutes.js:25-33 | creating a book keeps ids distinct and every owner resolving to a user |
| Routes.DeletePreservesValid | src/routes/bookRoutes.js:99 | deleting a book keeps the store valid |
| Routes.DeleteBookPreservesValid | src/routes/bookRoutes.js:79-99 | the owner's delete keeps the store valid |
| Routes.ValidAfterDroppingBooks | src/routes/bookRoutes.js:99 | keeping a subset of the books with distinct ids keeps the store valid |
| Routes.RegisteredTokenAuthenticates | src/routes/authRoutes.js:55-65 | the token from a successful registration, sent as "Bearer <token>", gets the new user through the gate |
| Routes.LoginTokenAuthenticates | src/routes/authRoutes.js:91-100 | the token from a successful login gets the logged-in user through the gate |
| Routes.SecondRegisterSameEmailFails | src/routes/authRoutes.js:32-35 | registering again with a registered email fails with "Email already exists..", whatever the username |
| Routes.SecondRegisterSameUsernameFails | src/routes/authRoutes.js:37-40 | registering again with a registered username and a new email fails with "Username already exists.." |
| Routes.RegisterThenLogin | src/routes/authRoutes.js:74-100 | logging in with the credentials just registered answers 200 with the same token and user, when the password check accepts the stored password |

## Left out

- Database internals: the query engine, `populate`, `countDocuments` and schema hooks. The store is a pair of sequences, and `findOne`/`findById` return the first match in natural order.
- Password hashing and `comparePassword` live in the user schema, which is not part of this model. The model stores the password exactly as submitted. `matches(stored, candidate)` stands for hashing the submitted password and `comparePassword` together, so `matches(p, p)` reads as "`comparePassword` accepts `p` against the hash of `p`".
- Token signing, signature checking and expiry are parameters (`sign`, `verify`). The lemmas about issued tokens assume that `verify` inverts `sign` and that `sign` never yields the empty string. This stands for "within the validity window".
- Network calls to the image host. `upload` and `destroy` are parameters. A throwing `destroy` is modelled as a failed one, and its failure is swallowed as in the code.
- Infrastructure failures of the database (the catch-all 500 paths, and the gate's catch of a failing user lookup) are not modelled. Only the failed upload's 500 is modelled.
- The Express router, async scheduling and logging.
- BookRoutes.ListBooks: page and limit are naturals and at least 1 when given. The code takes raw query strings. Their JavaScript coercion is not modelled: `currentPage` echoing the string, the string "0" being truthy, a limit of 0 giving `Infinity` pages, non-numeric values.
- Routes.GetBooks: carries the same requirement on page and limit as BookRoutes.ListBooks, for the same reason.
- Routes.UnverifiedTokenRejectedEverywhere: carries the same requirement on page and limit as BookRoutes.ListBooks, for the same reason.
- AuthRoutes.Register: string lengths are counted in characters, not UTF-16 code units. Non-string request fields (a numeric password without `.length`) are not modelled; fields are optional strings. Emails and usernames are compared exactly. Any normalisation by the user schema is not part of this model.
- BookRoutes.CreateBook: rating is an optional integer. Fractional and non-numeric ratings are not modelled. Any validation the book schema applies on save (a rating range, say) is not part of this model.
- Ordering.SortNewest: books with equal `createdAt`, whose relative order the database leaves open, come out in one fixed order.
- BookRoutes.DeleteBook: a malformed book id (a database cast error, 500) is not modelled; ids are naturals.
- `generateToken` has no contract of its own. Its payload `{userId}` and the "15d" expiry are stated in the contracts of Register and Login.
