# Book-sharing microservices: a Dafny model of the route handlers

The repository is an Express/Mongoose backend with three collections and an authorization
middleware.

- **Users** can sign up, sign in, update their profile and delete their account. Passwords are stored as bcrypt hashes. A session is a JWT over `{id, email, username}`.
- **Contents** are books. A user can publish a book under a unique title, or update or delete a book they own. `/new` lists the books newest first. `/top` merges the book list with the interaction summaries and ranks the merged list by the number of interactions.
- **Interactions** are per-book documents holding two lists, `likes` and `reads`. `/like` toggles the caller's like. `/read` records a read once. `/` projects each document to its counts.
- **The auth middleware** takes the token out of the `Authorization` header and verifies it. It then either attaches the claims to the request or answers with one of three errors.

## How the model is built

Each route handler is a pure function from the collection, as a sequence of records, and the request fields to an `Outcome`. The outcome holds the new collection and the reply.

- The function's contract gives the new collection and the reply for every branch of the handler, in the handler's order.
- Lemmas relate several calls: round trips, invariants kept and ordering.
- Each collection is also a class whose route methods change a `seq` field step by step. Each method's `ensures` ties the new field and its reply to the function. Its `Valid()` invariant is distinctness of keys and at most one entry per user.

Modules:

- `Common`: `Option`, validation errors and a generic `findOne`, called `FirstIndex`.
- `Sorting`: a stable descending sort on an integer key. It is proved to return a sorted permutation and to keep the order of equal keys.
- `Auth`: src/util/auth.js.
- `Interactions`: src/routes/interactions.js.
- `Contents`: src/routes/contents.js.
- `Users`: src/routes/users.js.

Code outside the model becomes parameters:

- The clock: `now`, `at`.
- The bcrypt salt, and bcrypt's `hash` and `compare` (`Users.Bcrypt`).
- JWT verification: `verify: string -> Option<Claims>`, where `None` stands for a thrown error.
- The express-validator checks `isEmail`, `isMobilePhone`, `normalizeEmail` and the rest of `isStrongPassword` (`Users.Validators`).

A signed token is modelled as the claims it is signed over (`Users.Token`). Database ids are natural numbers, handed out by a counter in each store class. A body field that is missing is modelled as the empty string. Express-validator treats the two alike.

The model follows the code in these places, where a reader might expect otherwise:

- An empty `Authorization` header counts as absent, because it is falsy. It gets "Authorization header is required".
- A header that holds `Bearer ` with nothing after it gets the "should contain 'Bearer [token]" error.
- Book update runs the title/story validation first, then the lookup and ownership checks, then the duplicate-title check.
- Two likes in a row restore the `likes` list only when the user had not liked the book yet. From the liked state, the like moves to the end of the list with the new time.

## Model

| member | source | states |
|---|---|---|
| Auth.ExtractToken | src/util/auth.js:8 | `split('Bearer ')[1]` is undefined exactly when the header holds no marker; otherwise the result holds no marker and is shorter than the header |
| Auth.IndexOfMarker | src/util/auth.js:8 | the position found from `from` on holds the marker and no earlier position from `from` does; none exactly when no position there holds it |
| Auth.ExtractTokenOf | src/util/auth.js:8 | a header made of a marker-free prefix, the marker, a marker-free token and either nothing or a further marker yields exactly that token; the marker need not open the header |
| Auth.Gate | src/util/auth.js:5-22 | absent or empty header gives "Authorization header is required"; no marker or an empty token gives the Bearer-format error; it proceeds exactly when a non-empty token is extracted and verifies, and then with the verified claims; a non-empty token that fails verification gives "Invalid/Expired Token", wherever the marker stands; every rejection is one of the three messages |
| Auth.BearerHeader | src/util/auth.js:8-15 | for a header `Bearer <t>` the request proceeds with `verify(t)`'s claims when it succeeds and is rejected with "Invalid/Expired Token" otherwise |
| Auth.CheckAuth | src/util/auth.js:5-20 | the middleware's early-exit run returns the gate's decision and sets `req.user` to the claims only when it proceeds |
| Common.FirstIndex | src/routes/users.js:65 | `findOne`: the index found matches and no earlier record does; none is found exactly when no record matches |
| Sorting.SortDesc | src/routes/contents.js:37-39 | the result is a permutation of the input with non-increasing keys |
| Sorting.SortDescStable | src/routes/contents.js:37-39 | elements with equal keys keep their input order (the engine's sort is stable) |
| Interactions.HasEntry | src/routes/interactions.js:47 | the list holds an entry of the user exactly when `find` by username returns one |
| Interactions.FindRecord | src/routes/interactions.js:45 | `findOne({bookId})`: the index found has that book id and no earlier one does; none exactly when no document has it |
| Interactions.BookIdErrors | src/routes/interactions.js:35 | no error exactly when `bookId` is non-empty |
| Interactions.Without | src/routes/interactions.js:48 | the filter leaves no entry of the user, changes nothing when there was none and keeps only entries that were there |
| Interactions.WithoutKeepsOthers | src/routes/interactions.js:48 | removing one user's likes keeps every other user's likes in their order |
| Interactions.OneEntryEach | src/routes/interactions.js:47-61 | under the at-most-once invariant a user has exactly one entry when they have any |
| Interactions.ToggleLike | src/routes/interactions.js:47-61 | with a like of the user present, afterwards there is none; with none, exactly one `{user, at}` is appended; other users' entries are unchanged; at most one entry per user is kept; the length moves by one |
| Interactions.ToggleTwice | src/routes/interactions.js:47-61 | on a list without the user's like, a like then a dislike give back the list |
| Interactions.AddRead | src/routes/interactions.js:95-104 | afterwards the user has a read; a present read changes nothing; otherwise one entry is appended; at most one per user is kept |
| Interactions.Like | src/routes/interactions.js:35-75 | empty `bookId`: validation error, store unchanged; no document: one new document with `likes == [user]` and no reads, "You liked this book"; a document: its likes toggled, liked/disliked message by the prior state; reads and every other document unchanged |
| Interactions.Read | src/routes/interactions.js:83-122 | empty `bookId`: validation error, store unchanged; no document: one new document with one read and no likes; a document: read added once, "You already read this book" with nothing changed when present; likes and other documents unchanged |
| Interactions.LikeKeepsWellFormed | src/routes/interactions.js:45-75 | like keeps book ids distinct and at most one like and one read per user |
| Interactions.ReadKeepsWellFormed | src/routes/interactions.js:93-122 | read keeps book ids distinct and at most one like and one read per user |
| Interactions.LikeLeavesRecord | src/routes/interactions.js:45 | after a like, `findOne({bookId})` finds the document that was changed or created |
| Interactions.ReadLeavesRecord | src/routes/interactions.js:93 | after a read, `findOne({bookId})` finds the document that was changed or created |
| Interactions.LikeTwiceRestores | src/routes/interactions.js:45-62 | two likes on a document the user had not liked answer liked then disliked and restore the store |
| Interactions.LikeTwiceFromNothing | src/routes/interactions.js:45-75 | starting from no document, two likes leave a document with empty likes and reads rather than none |
| Interactions.LikeTwiceFromLiked | src/routes/interactions.js:47-61 | starting from a liked state, two likes move the user's like to the end with the later time |
| Interactions.ReadTwice | src/routes/interactions.js:93-108 | a second read by the same user changes nothing and answers "You already read this book" |
| Interactions.LikeReadLike | src/routes/interactions.js:45-108 | on an existing document the user had not liked, like, read, like gives the same store as the read alone: like and read never touch each other's list |
| Interactions.Summarize | src/routes/interactions.js:11-18 | `_id` is the book id; `likeCount`/`readCount` are the lengths of the lists; `numberOfInteractions` is their sum |
| Interactions.Aggregate | src/routes/interactions.js:9-20 | exactly one summary per document, in store order |
| Interactions.AggregateAfterLike | src/routes/interactions.js:9-61 | a like moves its book's like count by one (up or down by the prior state), leaving its read count and every other summary alone |
| Interactions.AggregateAfterRead | src/routes/interactions.js:93-108 | a read raises its book's read count by one unless already read, leaving the like count and every other summary alone |
| Interactions.Store.PostLike | src/routes/interactions.js:34-79 | the route's new store and reply are those of `Like` for the authenticated username; the invariant is kept |
| Interactions.Store.PostRead | src/routes/interactions.js:82-126 | the route's new store and reply are those of `Read`; the invariant is kept |
| Interactions.Store.GetAll | src/routes/interactions.js:7-20 | one summary per stored document with its counts |
| Contents.TitleTaken | src/routes/contents.js:70-71 | the title is taken exactly when `findOne({title})` finds a book |
| Contents.BookErrors | src/routes/contents.js:57-58 | no error exactly when both title and story are non-empty |
| Contents.FindId | src/routes/contents.js:106 | `findById`: the index found carries the id; none exactly when no book has it |
| Contents.Publish | src/routes/contents.js:56-92 | validation errors leave the store alone; a taken title gives "Same title book is already exist" with no change; success appends exactly one book with the given title, story, the author's id and username and the supplied time |
| Contents.Update | src/routes/contents.js:95-130 | validation first; unknown id gives "Book not found", another owner's book the not-authorized message, for the owner, a taken title (its own included) gives the duplicate message, all refusals with no change; the owner's update to a free title succeeds and replaces only title and story of that one book |
| Contents.Delete | src/routes/contents.js:133-153 | unknown id or another owner: refusal, no change; the owner's delete of an existing book succeeds, removes exactly that book and replies with its snapshot |
| Contents.PublishKeepsWellFormed | src/routes/contents.js:70-81 | publish keeps ids below the counter, ids distinct and titles distinct |
| Contents.UpdateKeepsWellFormed | src/routes/contents.js:115-122 | update keeps ids and titles distinct |
| Contents.DeleteKeepsWellFormed | src/routes/contents.js:135-142 | delete keeps ids and titles distinct |
| Contents.UpdateKeepingTitleFails | src/routes/contents.js:115-118 | the owner re-submitting a book's own title is refused as a duplicate |
| Contents.PublishSameTitleTwice | src/routes/contents.js:70-73 | a second publish under the same title is refused and changes nothing |
| Contents.DeleteRemovesId | src/routes/contents.js:142 | after a successful delete no book carries that id |
| Contents.PublishThenDelete | src/routes/contents.js:135-149 | the author deleting a just-published book restores the store and replies with that book |
| Contents.Merge | src/routes/contents.js:36 | `_.merge` of the two arrays has length max of both; element i has book i's fields and summary i's fields, whose `_id` wins |
| Contents.MergeCounted | src/routes/contents.js:36-38 | every merged element has a count exactly when there are no more books than summaries |
| Contents.Top | src/routes/contents.js:34-39 | when every element is counted, the ranking is a permutation of the merged list, non-increasing in `numberOfInteractions` |
| Contents.TopStable | src/routes/contents.js:37-39 | books with the same number of interactions keep their merged order |
| Contents.Library.PostPublish | src/routes/contents.js:56-92 | the route's new collection and reply are those of `Publish` with the next id; the counter advances only on success; the invariant is kept |
| Contents.Library.PutUpdate | src/routes/contents.js:95-130 | the route's new collection and reply are those of `Update`; the invariant is kept |
| Contents.Library.DeleteById | src/routes/contents.js:133-153 | the route's new collection and reply are those of `Delete`; the invariant is kept |
| Contents.Library.GetNew | src/routes/contents.js:9-21 | the listing is a permutation of the books, newest `published` first |
| Users.SignupErrors | src/routes/users.js:36-54 | no error exactly when name and username are non-empty, email and phone pass their checks and both passwords are strong |
| Users.UpdateErrors | src/routes/users.js:123-141 | the same conditions, for the update's chain |
| Users.SigninErrors | src/routes/users.js:93-94 | no error exactly when username and password are non-empty |
| Users.FindUser | src/routes/users.js:65 | `findOne({username})`: the index found has that username and no earlier one does; none exactly when nobody has it |
| Users.Signup | src/routes/users.js:55-85 | validation errors first; an existing username gives "Username already exists" before the password comparison; a mismatch gives "Passwords do not match"; nothing is stored on failure; success appends exactly one user with `hash(password, salt)`, the normalized email and the supplied time; the token's claims are the saved user's id, email and username, valid 1h; any accepted password meets the stated policy |
| Users.Signin | src/routes/users.js:103-114 | validation errors first; unknown user gives "User not found"; a failed comparison gives "Invalid credentials"; a passing comparison signs in; success returns the stored user with that username whose hash accepted the password, and a token over its claims |
| Users.UpdateProfile | src/routes/users.js:143-172 | validation first; an identity whose username differs from the body's is refused with no change, and no identity skips the check; then an unknown username gives "User not found", differing passwords "Passwords do not match", and otherwise the update succeeds; success touches only that user, setting name, normalized email, phone and a fresh hash, keeping id, username and creation time |
| Users.DeleteAccount | src/routes/users.js:182-201 | empty username is a validation error; a claim username that differs is refused; unknown user gives "User not found"; success removes exactly that user and replies with it |
| Users.SignupKeepsWellFormed | src/routes/users.js:65-78 | signup keeps ids below the counter, ids distinct and usernames distinct |
| Users.UpdateKeepsWellFormed | src/routes/users.js:158-168 | update keeps ids and usernames distinct |
| Users.DeleteKeepsWellFormed | src/routes/users.js:195-197 | delete keeps ids and usernames distinct |
| Users.SignupTwice | src/routes/users.js:65-66 | once a username is taken, a valid signup under it is refused and stores nothing |
| Users.UpdateWithoutIdentity | src/routes/users.js:151-155 | without an identity the update behaves as for the user it names |
| Users.SigninAfterSignup | src/routes/users.js:105-109 | when `compare` accepts a password against its own hash, a new user signs in with that password and receives a token over the new user's claims |
| Users.SigninAfterUpdate | src/routes/users.js:158-168 | likewise after a profile update, with the new password |
| Users.SigninAfterDelete | src/routes/users.js:195-197 | after a delete the username is not found by sign-in |
| Users.GenerateToken | src/routes/users.js:8-18 | the token's claims are exactly the user's id, email and username, and it expires after 1h |
| Users.Status | src/routes/users.js:57-85 | validation errors and refusals are 400, a sign-up is 201, sign-in, update and delete are 200 |
| Users.Utf16Length | src/routes/users.js:41-42 | the password length as JavaScript counts it lies between the number of characters and twice that |
| Users.SurrogatePairCountsTwice | src/routes/users.js:41-47 | a seven-character password with one character above U+FFFF has length 8 and meets the policy |
| Users.Profiles | src/routes/users.js:23 | one entry per stored user, every field but the password |
| Users.Accounts.PostSignup | src/routes/users.js:36-89 | the route's new collection and reply are those of `Signup` with the next id; the counter advances only on success; the invariant is kept |
| Users.Accounts.PostSignin | src/routes/users.js:92-118 | the route's early-exit run replies as `Signin` does |
| Users.Accounts.PatchUpdate | src/routes/users.js:123-176 | the route's new collection and reply are those of `UpdateProfile` with `req.user` as identity; the invariant is kept |
| Users.Accounts.DeleteUser | src/routes/users.js:179-205 | the route's new collection and reply are those of `DeleteAccount`; the invariant is kept |
| Users.Accounts.GetAll | src/routes/users.js:21-33 | the listing is a permutation of the password-free profiles, newest `createdAt` first |

## Left out

- index.js (server start-up, environment and database connection) is not part of this model. The schemas in src/models shape the record datatypes only.
- The two HTTP fetches of `/top` are left out. `Contents.Top` takes the two fetched arrays as arguments. The checks on their `message` fields, which end the request without a reply when they fail, are not modelled.
- `Contents.Top`: when there are more books than summaries, some merged elements have no `numberOfInteractions`. The comparator then yields NaN and the order is the engine's. The model returns `None` there and claims nothing about that order.
- `Contents.Top` is a function on values. The in-place update of the fetched book array by `_.merge` and the in-place sort are not modelled. Only the resulting list is. `_.merge` is modelled at the level of whole elements: a summary field overrides a book field, and nothing deeper.
- `Contents.Library.GetNew` and `Users.Accounts.GetAll`: the database sort only promises descending order. The model states a sorted permutation, not the order the database picks among equal keys.
- JWT signing, verification and expiry, and bcrypt hashing and comparison, are uninterpreted parameters. So is the salt. `Users.SigninAfterSignup` and `Users.SigninAfterUpdate` assume the comparison accepts a password against its own hash.
- The internals of express-validator are parameters: `isEmail`, `isMobilePhone`, `normalizeEmail`, and whatever `isStrongPassword` checks beyond the options the routes pass. The listed error objects carry the field name and the message, not the value or location.
- `Users.StatedPolicy` is only a necessary condition for passwords the routes accept. The length is counted in UTF-16 code units, as JavaScript does.
- The HTTP status is given by `Users.Status` for the user routes. The other replies carry only their messages: 400 for validation errors and refusals, 200 otherwise.
- Responses sent after the first one in src/util/auth.js, and every 500 catch-all path, are left out. So are database failures and ObjectId cast errors for malformed `:id` values.
- Concurrency is left out: each handler runs atomically on the store.
- Time stamps are opaque: ISO strings for interactions, naturals for `published` and `createdAt`. The `phone` field is kept as the submitted string, not as mongoose's Number cast.
- Sub-document `_id` values that mongoose adds to like and read entries are left out.
- `Users.Accounts.PatchUpdate` takes `req.user` as an option, mirroring the route's `if (user)` guard. Behind the middleware it is always present.
