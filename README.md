# Tulk social network: the friendship graph, posts, verification codes and sign-up steps

This project models the core rules of Tulk, a small social network with a Laravel back end and
a React front end, and proves properties of the model:

- **The Amitie table** (`amitie_model.dfy`). It holds one row `(id_1, id_2, statut)` per friend
  request or friendship, with `statut` either *en attente* (pending) or *ami*. The model covers
  the query scopes of the Amitie model, `areFriends` and `hasPendingRequest`. It also covers the
  primary key, which is the *ordered* pair `(id_1, id_2)`, and the stronger
  one-row-per-unordered-pair invariant that only the request check maintains.
- **The friendship endpoints** (`amitie_controller.dfy`). `FriendshipTable` is a class whose
  `edges` field the three transitions update: `sendRequest`, `acceptRequest` and `removeFriend`.
  Its methods also model `getFriends` and the nested loops of `getSuggestions`.
  `countMutualFriends`, `getMutualFriendsList`, `getPendingRequests` and `search` are
  functions.
- **The post endpoints** (`post_controller.dfy`). `PostStore` holds the Article, Liker and
  Commentaire tables as sequences. Its methods model `createPost`, `getFeedPosts`, `toggleLike`,
  `addComment` and `deletePost`. `getFriendIds` is a method with the source's loop.
- **`getImageUrl` and `getApiBaseUrl`** (`image_urls.dfy`): the client's path normaliser and
  the API base constant.
- **The verification-code store** (`verification_controller.dfy`). It models the six-digit,
  zero-padded code, and a `CodeStore` class whose cache map `sendVerificationCode` writes and
  `verifyCode` only reads.
- **The sign-up wizard** (`signup.dfy`). It models `validateStage` as a function and the stage
  counter moved by `handleNextStage` and `handlePrevStage` as a class.
- **Shared helpers:** `common.dfy` (Option, Result, HTTP error kinds, duplicate-freedom, an
  order-keeping filter, `array_intersect`) and `sorting.dfy` (a descending insertion sort,
  proved sorted and a permutation, used for `usort` and for `orderBy(..., 'desc')`).

Storage is modelled as in-memory sequences in table order. The authenticated caller is
the parameter `me`. The following are parameters too:

- the clock (`now`);
- the outcome of the image upload;
- the outcome of the mail transport;
- the number `random_int` draws;
- the outcome of the friend-id query;
- the outcome of the send-verification request in the wizard;
- the SQL `LIKE` comparison;
- Laravel's `email` format rule.

These points of the model follow the code:

- Every exception in the post endpoints becomes a 500 answer. This includes a failed
  `validate()` and a missing article from `findOrFail`, because both sit inside the `try` block.
- `first()` returns the first matching row in table order.
- A request to oneself is not rejected.

## Model

| member | source | states |
|---|---|---|
| AmitieModel.FriendsOfUser | back/app/Models/Amitie.php:38-44 | the selected rows are exactly the accepted rows with u as id_1 or id_2 |
| AmitieModel.PendingForUser | back/app/Models/Amitie.php:47-51 | the selected rows are exactly the pending rows whose recipient id_2 is u; rows u sent are excluded |
| AmitieModel.FriendIdsMembership | back/app/Models/Amitie.php:38-44 | x is among u's friend ids iff an accepted row joins u and x in either orientation |
| AmitieModel.FriendIdsSymmetric | back/app/Models/Amitie.php:38-44 | x is a friend of u iff u is a friend of x, whatever the table holds |
| AmitieModel.SelfFriendship | back/app/Http/Controllers/AmitieController.php:174-204 | no check keeps a self-request out: u lists itself exactly when an accepted row (u, u) exists |
| AmitieModel.FriendIdsNoDup | back/app/Models/Amitie.php:38-44 | under the one-row-per-pair invariant the friend-id list has no duplicates |
| AmitieModel.AreFriends | back/app/Models/Amitie.php:54-64 | as written: true exactly when a request from u1 to u2 is pending or the two are friends, i.e. any row (u1, u2), or an accepted row (u2, u1) |
| AmitieModel.AreFriendsPendingCounterexample | back/app/Models/Amitie.php:54-64 | as written, areFriends(1, 2) holds on a table holding only the pending request (1, 2), areFriends(2, 1) does not, and 2 is not among 1's friends |
| AmitieModel.AreFriendsVersusIntended | back/app/Models/Amitie.php:54-64 | the written predicate holds whenever the intended one does, and the two agree unless a request from u1 to u2 is pending |
| AmitieModel.AreFriendsIntendedCorrect | back/app/Models/Amitie.php:54-64 | the intended predicate is symmetric and holds iff u2 is among u1's friend ids |
| AmitieModel.HasPendingRequest | back/app/Models/Amitie.php:67-73 | true exactly when `from` is the requester of one of the pending rows addressed to `to` that the pending scope selects |
| AmitieModel.PendingIsDirectional | back/app/Models/Amitie.php:67-73 | under the one-row-per-pair invariant, hasPendingRequest(a, b) and hasPendingRequest(b, a) never both hold for a != b |
| AmitieModel.KeyAdmitsReversePair | back/app/Models/Amitie.php:23 | the ordered key admits both (a, b) and (b, a), which the one-row-per-pair invariant excludes |
| AmitieModel.OnePerPairIsKeyUnique | back/database/migrations/2025_11_30_202329_add_foreign_keys_to_french_tables.php:13 | the one-row-per-pair invariant implies uniqueness of the primary key |
| AmitieModel.FindBetween | back/app/Http/Controllers/AmitieController.php:257-263 | the row found between a and b is absent exactly when no row joins them; when present it is a stored row on that pair |
| AmitieModel.FindBetweenUnique | back/app/Http/Controllers/AmitieController.php:257-263 | under the invariant the row found is the only row on the pair |
| AmitieController.CountMutualFriends | back/app/Http/Controllers/AmitieController.php:309-338 | the count of a's friend ids that are also b's, keeping a's multiplicity: at most the length of a's list, and 0 exactly when the two friend lists share no id |
| AmitieController.MutualCountSymmetric | back/app/Http/Controllers/AmitieController.php:309-338 | under the invariant the count is the size of the intersection of the two friend sets, the same in both argument orders |
| AmitieController.MutualCountNeedsInvariant | back/app/Http/Controllers/AmitieController.php:309-338 | with reverse accepted rows (1, 2) and (2, 1), which the key allows, the count is 2 one way and 1 the other |
| AmitieController.MutualFriendsList | back/app/Http/Controllers/AmitieController.php:341-382 | the list holds exactly the users that are friends of both, and no others |
| AmitieController.FriendEntriesSpec | back/app/Http/Controllers/AmitieController.php:19-46 | each entry is the other endpoint of one of the rows, as found in Utilisateur; each row whose other endpoint is found has its entry |
| AmitieController.FriendEntriesAreFriends | back/app/Http/Controllers/AmitieController.php:19-46 | every entry of getFriends comes from an accepted row, names a friend id of me and, for anyone other than me, an intended friend, so pending rows never contribute; every friend with a user record is listed |
| AmitieController.FriendshipTable.GetFriends | back/app/Http/Controllers/AmitieController.php:14-52 | the loop builds exactly the entry list FriendEntries of the accepted rows touching me |
| AmitieController.PendingRequests | back/app/Http/Controllers/AmitieController.php:282-306 | one requester id per pending row addressed to me; x is listed exactly when the request (x, me) is pending |
| AmitieController.FriendshipTable.GetSuggestions | back/app/Http/Controllers/AmitieController.php:55-122 | at most 10 entries, sorted non-increasing by mutual count, no candidate twice; each entry is a known user who is neither me nor a friend, is a friend of a friend, and carries the mutual count and list; a candidate is left out only when 10 entries with at least its count are listed |
| AmitieController.FriendshipTable.ScanFriendsOf | back/app/Http/Controllers/AmitieController.php:73-111 | the inner loop keeps the found list sound and duplicate-free, and covers every qualifying friend of the scanned friend |
| AmitieController.RankProperties | back/app/Http/Controllers/AmitieController.php:114-120 | usort plus array_slice keeps a sound, duplicate-free list sound and duplicate-free, sorted and at most 10 long, and drops only candidates dominated by a full list |
| AmitieController.SortKeepsSoundDistinct | back/app/Http/Controllers/AmitieController.php:114-116 | sorting keeps every suggestion correct and the ids distinct |
| AmitieController.Search | back/app/Http/Controllers/AmitieController.php:125-171 | fails with 422 iff the query is missing, blank once trimmed, or shorter than 2 characters; any other query gets exactly the SearchHits for it |
| AmitieController.SearchHits | back/app/Http/Controllers/AmitieController.php:132-165 | at most 20 hits, each a matching user other than me with sound flags and the mutual count; the hits are the first matching users in table order, distinct when the users are, and every matching user is listed when fewer than 20 are |
| AmitieController.SearchValidation | back/app/Http/Controllers/AmitieController.php:127-129 | a missing query, the blank query `"  "` and a one-character query answer 422; `"ab"` is searched |
| AmitieController.AnnotateSound | back/app/Http/Controllers/AmitieController.php:143-163 | is_friend and has_pending_request are never both set, both are clear exactly when no row joins the two users, and each is backed by a row of its status |
| AmitieController.SearchAnnotationExact | back/app/Http/Controllers/AmitieController.php:143-163 | under the invariant is_friend is exactly the intended areFriends, and has_pending_request is exactly a pending request in either direction |
| AmitieController.FriendshipTable.SendRequest | back/app/Http/Controllers/AmitieController.php:174-211 | an unknown target answers 422 and a row in either orientation or status answers 400, both leaving the table unchanged; otherwise exactly the row (me, target, pending) is appended; the key and the one-row-per-pair invariant are kept |
| AmitieController.SendKeepsInvariants | back/app/Http/Controllers/AmitieController.php:184-204 | appending a pending row where none joins the two users keeps both the key and the one-row-per-pair invariant |
| AmitieController.RequestThenRequestConflicts | back/app/Http/Controllers/AmitieController.php:184-197 | after a request, a second request in either direction finds a row |
| AmitieController.FriendshipTable.AcceptRequest | back/app/Http/Controllers/AmitieController.php:214-244 | an unknown requester answers 422; without a pending row (requester, me) the answer is 404; both leave the table unchanged; otherwise only that row becomes accepted; the key and the one-row-per-pair invariant are kept |
| AmitieController.AcceptEffect | back/app/Http/Controllers/AmitieController.php:224-243 | after accepting, each lists the other as friend, the request is no longer pending, and every other row is unchanged |
| AmitieController.AcceptOwnRequestFails | back/app/Http/Controllers/AmitieController.php:224-233 | under the invariant the sender of a pending request finds no pending row addressed to them, so their accept answers 404 |
| AmitieController.AcceptKeepsInvariants | back/app/Http/Controllers/AmitieController.php:235-236 | accepting changes only statuses, so the key and the one-row-per-pair invariant survive |
| AmitieController.FriendshipTable.RemoveFriend | back/app/Http/Controllers/AmitieController.php:247-279 | an unknown user answers 422 and no row in either orientation 404, both leaving the table unchanged; otherwise the row found is deleted by its key; the key and the one-row-per-pair invariant are kept |
| AmitieController.RemoveEffect | back/app/Http/Controllers/AmitieController.php:257-278 | under the invariant exactly one row goes; afterwards no row joins the two users, neither lists the other, and every row on another pair stays |
| AmitieController.RemoveKeyCount | back/app/Http/Controllers/AmitieController.php:273 | under the key, deleting by the key of a stored row removes exactly one row |
| AmitieController.RemoveKeyKeepsKeyUnique | back/app/Http/Controllers/AmitieController.php:273 | deleting rows keeps the key unique |
| AmitieController.RemoveKeyKeepsOnePerPair | back/app/Http/Controllers/AmitieController.php:273 | deleting rows keeps the one-row-per-pair invariant |
| PostController.RequiredMaxCases | back/app/Http/Controllers/PostController.php:22-25 | a missing, empty or blank field fails `required`, one longer than the limit fails `max`, and a short field with a non-blank first character passes |
| PostController.PostStore.CreatePost | back/app/Http/Controllers/PostController.php:19-99 | an invalid description or a failed upload answers 500 and stores nothing; otherwise the article with the next id is appended and reported with 0 likes, 0 comments, not liked and owned |
| PostController.CreateKeepsValid | back/app/Http/Controllers/PostController.php:62-88 | a new article keeps the ids unique and the foreign keys intact, and its view has zero counts, is not liked and is owned |
| PostController.PostStore.GetFeedPosts | back/app/Http/Controllers/PostController.php:102-149 | the feed is exactly Feed over the caller's friend ids, or over no friends when the friend query fails |
| PostController.Feed | back/app/Http/Controllers/PostController.php:114-134 | one item per selected article in feed order; is_owner iff the caller wrote it; is_liked iff the caller's like exists; the counts are the article's like and comment counts |
| PostController.FeedSelects | back/app/Http/Controllers/PostController.php:108-117 | the feed holds exactly the articles whose author is the caller or an accepted friend, sorted by date descending, each once if the table has no duplicate |
| PostController.GetFriendIds | back/app/Http/Controllers/PostController.php:324-346 | the loop yields the other endpoint of every accepted row touching u, in order, or the empty list when the query throws |
| PostController.PostStore.ToggleLike | back/app/Http/Controllers/PostController.php:152-192 | a missing article answers 500; otherwise the caller's like is deleted if present and created if absent; liked reports which, and likes_count is the article's like count afterwards |
| PostController.ToggleFlips | back/app/Http/Controllers/PostController.php:159-174 | with no duplicate rows, the like is present afterwards iff it was absent, every other like is kept, and no duplicate appears |
| PostController.ToggleKeepsOtherPosts | back/app/Http/Controllers/PostController.php:159-174 | the likes of every other article are unchanged, in order |
| PostController.ToggleTwice | back/app/Http/Controllers/PostController.php:159-174 | toggling twice restores the likes: the same rows when the like was absent, the same multiset of rows when it was present |
| PostController.ToggleCount | back/app/Http/Controllers/PostController.php:176-183 | the like count goes down by one when the like was removed and up by one when it was created |
| PostController.PostStore.AddComment | back/app/Http/Controllers/PostController.php:233-280 | an invalid text or a missing article answers 500 and stores nothing; otherwise the comment with the next id is appended and comments_count is one more than before |
| PostController.CommentKeepsValid | back/app/Http/Controllers/PostController.php:241-254 | a new comment on an existing article keeps the tables valid and adds one to that article's comment count |
| PostController.PostStore.DeletePost | back/app/Http/Controllers/PostController.php:283-321 | a missing article answers 500 and another user's article 403, both changing nothing; the owner's delete removes the article with all its likes and comments and nothing else |
| PostController.DeleteKeepsValid | back/app/Http/Controllers/PostController.php:302-307 | after the cascade, every remaining like and comment still refers to a stored article, and exactly one article fewer is stored |
| PostController.DeleteKeepsOtherLikes | back/app/Http/Controllers/PostController.php:303 | the cascade leaves no like on the deleted article and the likes of every other article unchanged |
| PostController.DeleteKeepsOtherComments | back/app/Http/Controllers/PostController.php:304 | the cascade leaves no comment on the deleted article and the comments of every other article unchanged |
| PostController.DeleteRemovesOnePost | back/app/Http/Controllers/PostController.php:307 | with unique ids exactly one article goes, the ids stay unique and the article is gone |
| ImageUrls.GetImageUrl | front/src/utils/imageUrls.js:1-17 | null exactly for a missing or empty path; a path starting with `http` or `/storage/` is returned unchanged; any other path becomes `/storage/` followed by the path |
| ImageUrls.GetImageUrlIdempotent | front/src/utils/imageUrls.js:1-17 | resolving a resolved URL again changes nothing |
| ImageUrls.DatabasePathRoundTrip | front/src/utils/imageUrls.js:14-16 | a database path without a prefix becomes `/storage/` followed by the path, from which the path is read back |
| ImageUrls.PrefixIsLiteral | front/src/utils/imageUrls.js:5-16 | the prefix tests are literal: `/storage` is prefixed again, `httpdocs/a.png` is kept, `images/a.png` becomes `/storage/images/a.png` |
| VerificationController.Code | back/app/Http/Controllers/VerificationController.php:19 | the padded code of any draw in 0..999999 is exactly six decimal digits |
| VerificationController.CodeValue | back/app/Http/Controllers/VerificationController.php:19 | the code denotes the number drawn |
| VerificationController.CodeInjective | back/app/Http/Controllers/VerificationController.php:19 | two draws give the same code iff they are equal |
| VerificationController.CodeExamples | back/app/Http/Controllers/VerificationController.php:19 | the draws 0 and 42 give `000000` and `000042` |
| VerificationController.DecimalValue | back/app/Http/Controllers/VerificationController.php:19 | PHP's decimal string of n denotes n |
| VerificationController.CacheKeyInjective | back/app/Http/Controllers/VerificationController.php:22 | two emails share a cache key iff they are equal |
| VerificationController.OtherEmailsKept | back/app/Http/Controllers/VerificationController.php:22-34 | storing or forgetting one email's code leaves every other email's entry as it was |
| VerificationController.PutThenForget | back/app/Http/Controllers/VerificationController.php:22-34 | forgetting right after storing leaves the map without that key and otherwise unchanged |
| VerificationController.CodeStore.SendVerificationCode | back/app/Http/Controllers/VerificationController.php:12-40 | a missing, blank or malformed email, or a name that is not a string, answers 422 and changes nothing; otherwise the email's entry becomes the code, and a mail failure instead removes the entry (the earlier code included) and answers 500 |
| VerificationController.CodeStore.VerifyCode | back/app/Http/Controllers/VerificationController.php:42-62 | validation fails iff the email or the six-character code is missing or malformed; verified iff the email's entry exists and equals the code; the store is never changed |
| Signup.TrimEmptyIffBlank | front/src/components/auth/Signup.jsx:98 | `s.trim()` is empty exactly when s is blank |
| Signup.ValidateStage | front/src/components/auth/Signup.jsx:95-126 | stage 1 passes iff name and email are not blank; stage 2 reports empty fields, then a password under 6, then a mismatch, and passes iff the password has at least 6 characters and matches; stage 4 passes iff the code has exactly 6 characters; every other stage passes |
| Signup.PasswordStagePasses | front/src/components/auth/Signup.jsx:103-116 | a passing password stage has a filled password and a confirmation of at least six characters |
| Signup.SignupWizard.NextStage | front/src/components/auth/Signup.jsx:128-152 | the stage advances by one only when validation passes, and from stage 3 only once the verification request succeeds; otherwise it stays; the stage stays in 1..4 |
| Signup.SignupWizard.PrevStage | front/src/components/auth/Signup.jsx:154-158 | the stage goes back by one and stays in 1..4 |
| Sorting.SortDesc | back/app/Http/Controllers/AmitieController.php:114-116 | the result is sorted non-increasing by the key and is a permutation of the input |
| Sorting.InsertPermutes | back/app/Http/Controllers/AmitieController.php:114-116 | inserting into a sorted list adds exactly that one element to its multiset |
| Sorting.TopOmitsOnlyDominated | back/app/Http/Controllers/AmitieController.php:114-120 | an element left out of the first n is beaten by a full list whose last element's key is at least its own |

## Left out

- HTTP plumbing, authentication, JSON shapes and log messages are not modelled. The caller is
  a parameter, and every answer is an `Ok` value or an HTTP error kind.
- User profile columns beyond id, nom, prenom and email are not modelled: image, role, and the
  author block of a feed item.
- The file store is not modelled. The upload in `createPost` is reduced to its outcome, and
  the image deletion in `deletePost` is left out. A failed `image` rule (type, format or
  size) is folded into the outcome `UploadFailed`, since it also answers 500.
- Mail sending, the cache TTL of 600 seconds and the clock are outside the model. Mail is an
  outcome parameter and the date is a parameter. An entry is never expired in the model.
- `random_int` is not modelled: the drawn number is a parameter in 0..999999.
- SQL `LIKE` is a parameter of `Search`. Collation, case and the `%`/`_` wildcards belong to
  the database.
- Laravel's `email` rule is a parameter `isEmail`, and `exists:Utilisateur,id` is a lookup in
  the user sequence.
- `AmitieController.FriendshipTable.SendRequest`: the race between the existence check and the
  insert is not modelled. The model is sequential.
- `AmitieController.Search`: the query is an optional string. A query of another JSON type,
  which the `string` rule rejects with 422, cannot be written in the model.
- `AmitieController.FriendshipTable.AcceptRequest` and `AmitieController.FriendshipTable.RemoveFriend`
  assume that `update` and `delete` act on exactly the row found, identified by its composite
  key `(id_1, id_2)`. Laravel's own code is not part of this model. Stock Eloquent builds those
  queries from a single scalar key, so with the declared array key both success paths may
  instead throw and answer 500 with the table unchanged. The model does not capture that
  outcome.
- `VerificationController.CodeStore.SendVerificationCode`: the `name` field is modelled only by
  its rule `nullable|string`. Its use in the mail body is not modelled, because mail is an
  outcome parameter.
- `getComments` is not modelled. It is not among the modelled endpoints.
- `handleSubmit`, `handleResendCode`, the error and success messages, and the JSX of the
  sign-up form are not modelled. The wizard keeps only the stage counter and whether a code was
  sent, and `StageCheck` says which message would be shown.
- `Signup.ValidateStage`: lengths are counted in characters, not in UTF-16 code units as
  JavaScript counts them.
- `Signup.TrimEmptyIffBlank`: JavaScript's white-space set is written out by code point. There
  is no Unicode database behind it.
- `Common.Filled` follows PHP's `trim` character set for `required`. The TrimStrings middleware,
  which would trim before validation, is not modelled.
- `PostController.PostStore.ToggleLike`: the Liker table's migration is not part of this model,
  so it has no key. The like found by `first()` is the first matching row, and the delete
  removes that row.
- `PostController.PostStore.DeletePost`: the ownership test uses integer equality. PHP's strict
  `!==` would also fail on a type mismatch between the stored author id and the caller's id.
- `PostController.FeedSelects`: `orderBy('date', 'desc')` leaves the order of equal dates to the
  database. The model fixes one stable order, and the lemma states only what any order shares:
  sorted, and these articles.
- `AmitieController.FriendshipTable.GetSuggestions`: `usort` sorts in place. The model ranks
  with a pure function on the collected list. That function is a stable insertion sort, as
  `usort` is since PHP 8.0, so entries with equal counts keep their discovery order. The
  contract states the order and the cut to 10, not the stability itself.
- `VerificationController.CodeStore.SendVerificationCode`: the put followed by forget on mail
  failure is modelled by its net effect on the map. `PutThenForget` proves the two agree.
- `getApiBaseUrl` is the constant `ImageUrls.ApiBaseUrl`. It has no contract to state.

## Findings

| source | as written | input that shows it | evidently intended | confidence | as-written member | corrected member |
|---|---|---|---|---|---|---|
| back/app/Models/Amitie.php:54-64 | `where(A)->orWhere(B)->where('statut','ami')` is `A OR (B AND statut = 'ami')`, so a row (u1, u2) of any status counts | table holding only the pending request (1, 2): areFriends(1, 2) is true, areFriends(2, 1) is false | an accepted row in either orientation, `(A OR B) AND statut = 'ami'`, symmetric | not executed | AmitieModel.AreFriendsPendingCounterexample | AmitieModel.AreFriendsIntendedCorrect |
