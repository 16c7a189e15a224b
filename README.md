# A verified model of the mominul social-connection backend core

This project models the request handlers of a small social-network backend in Dafny. The
backend is an Express application over three MongoDB collections: users, posts and comments.
The model covers:

- **accounts** (`userController.js`): registration with its password policy, activation by
  e-mailed token, the eight-step login chain, and the refresh-token exchange;
- **the access guard** `isLoggedIn` (`authUser.js`);
- **comments** (`commentController.js`): add, list, delete one's own, hide as the post's owner;
- **posts** (`postController.js`): add with an optional image, a searchable paginated listing,
  read one post;
- **Google sign-in** (`passportConfig.js`): find-or-create, serialise and deserialise;
- **the upload filter** (`multer.js`).

The three collections are the `seq` fields of the class `Collections.Db`, kept in natural
order. `findOne` is "first match" (`Seqs.FindFirst`). `$inc` on the first match is
`Collections.BumpFirst`. Handlers that write take the `Db` and are methods with `modifies db`.
Handlers that only read are functions.

Foreign code appears only through what the handlers observe of it:

- A bcrypt digest remembers its preimage; `bcrypt.compare` reads the first 72 bytes of the
  UTF-8 encoding of both passwords.
- `jwt.verify` is a parameter of type `string -> Verdict`.
- `validator.isEmail` is a parameter of type `string -> bool`.
- The random codes are parameters constrained to be lower-case hex of the right length.
- Mail delivery, the image host's answer, insert acknowledgements and the clock are plain
  parameters.

Two invariants of the database are proved to be kept by every handler that writes:

- `Collections.NumberedUsers`: the user at position `i` has an id starting with `i+1-`. It
  implies that user ids are distinct, which is what makes session deserialisation exact.
- `Collections.CommentCountsAgree`: every post's `total_comment` counts the stored comments
  on it. This holds as long as post ids are distinct. For deletion by the author it also needs
  comment ids to be distinct.

Where the code and its written description disagree, the model follows the code:

- Errors thrown by `jwt.verify` carry no HTTP status, so the central responder answers them
  with 500. This affects activation with a malformed token and the refresh exchange with an
  expired or malformed cookie.
- When the registration e-mail cannot be sent, the answer is 500, but the new user stays
  stored.

## Model

| member | source | states |
|---|---|---|
| Text.StripSpaces | src/app/controllers/userController.js:42 | the stripped password has no whitespace, keeps every non-whitespace character, adds none, and leaves whitespace-free input unchanged |
| Text.StripAfterTrim | src/app/controllers/userController.js:168 | trimming before removing all whitespace changes nothing |
| Text.StripDropsSpace | src/app/controllers/userController.js:174 | a whitespace character anywhere is invisible after stripping |
| Text.LowerIsLower | src/app/controllers/userController.js:168 | lower-casing leaves no upper-case ASCII letter and is idempotent |
| Text.NatToStringInjective | src/app/controllers/userController.js:64 | different counts render as different decimal prefixes |
| Text.ParseNatToString | src/app/controllers/userController.js:64 | the decimal rendering of the count reads back as the count |
| Text.IdPrefixOfJoined | src/app/controllers/userController.js:64 | the part of `count+1-code` before the first dash is the rendered number |
| Text.Trim | src/app/controllers/userController.js:168 | `trim` leaves no whitespace at either end, never lengthens its input, and leaves an input already bounded by non-whitespace unchanged |
| Text.TrimIsSlice | src/app/controllers/userController.js:168 | what `trim` keeps is one stretch of the input, and everything cut away on either side is whitespace |
| Text.Lower | src/app/controllers/userController.js:30 | lower-casing keeps the length and maps every character through the ASCII case mapping |
| Text.Utf16Length | src/app/controllers/userController.js:43 | JavaScript's `length` counts UTF-16 code units: at least the number of characters, at most twice it, and equal to it when no character lies above U+FFFF |
| Text.Utf16LengthAppend | src/app/controllers/commentController.js:39 | the length of a concatenation is the sum of the lengths |
| Text.AsciiUtf8Injective | src/app/controllers/userController.js:198 | different ASCII strings have different UTF-8 encodings |
| Seqs.Count | src/app/controllers/userController.js:60 | `countDocuments` counts at most every document, and zero exactly when none matches |
| Seqs.RemoveAt | src/app/controllers/commentController.js:138 | deleting one document keeps the others in order and removes exactly that one from the collection's multiset |
| Seqs.FindFirst | src/app/controllers/commentController.js:28 | `findOne` yields the first matching document, and nothing exactly when none matches |
| Seqs.Filter | src/app/controllers/commentController.js:102-105 | `find` returns exactly the matching documents, as many as `countDocuments` counts |
| Seqs.SortBy | src/app/controllers/postController.js:79-83 | the sorted result is ordered by the key and is a permutation of its input |
| Seqs.Window | src/app/controllers/postController.js:84-85 | `skip`/`limit` returns at most `limit` consecutive documents starting at `skip` |
| Seqs.WindowKeepsSorted | src/app/controllers/postController.js:81-86 | a page of a sorted result is sorted |
| Seqs.SortFilterMembers | src/app/controllers/postController.js:81-86 | the sorted matches are documents of the collection that match the query |
| Foreign.BcryptKey | src/app/controllers/userController.js:198 | bcrypt reads at most the first 72 bytes of the UTF-8 encoding, and the whole encoding when it is that short |
| Foreign.CompareOwnDigest | src/app/controllers/userController.js:198 | a password always matches its own digest |
| Foreign.CompareShortAsciiExact | src/app/controllers/userController.js:198 | for ASCII passwords of at most 72 characters, `compare` succeeds exactly for the hashed password |
| Foreign.LongPasswordIgnoresTail | src/app/controllers/userController.js:198 | whatever follows the first 72 bytes of a hashed password is ignored by `compare` |
| Foreign.Requester | src/app/controllers/commentController.js:11 | the requester is the nested `user` claims when present, else the claims themselves |
| Foreign.RequesterOfEitherToken | src/app/controllers/commentController.js:11 | a login token and a refreshed token resolve to the same requester |
| Collections.BumpFirst | src/app/controllers/commentController.js:33-36 | `$inc` raises the counter of the first post with that id by `delta`, leaves every other post as it was, keeps every id, and changes nothing when no post has that id |
| Collections.AgreeAfterViewBump | src/app/controllers/postController.js:119-122 | raising `views` keeps every comment counter exact |
| Collections.AgreeAfterAdd | src/app/controllers/commentController.js:59-67 | storing a comment and raising its post's `total_comment` keeps every counter exact |
| Collections.AgreeAfterRemove | src/app/controllers/commentController.js:187-198 | deleting a comment and lowering its post's `total_comment` keeps every counter exact |
| Collections.AppendKeepsNumbering | src/app/controllers/userController.js:60-64 | a user whose id is made from the current count keeps users numbered by position |
| Collections.NumberedUsersAreDistinct | src/app/controllers/userController.js:64 | numbered users never share an id |
| UserController.PasswordPolicy | src/app/controllers/userController.js:42-55 | a password passes exactly when, stripped of whitespace, it has 8 to 30 UTF-16 code units, a lower-case letter and a digit; length is checked first |
| UserController.SurrogatePairsCountTwice | src/app/controllers/userController.js:43 | a lower-case letter, a digit and three characters above U+FFFF (as in "a1" and three emoji) are five characters but eight code units, and pass the policy |
| UserController.PolicyIgnoresWhitespace | src/app/controllers/userController.js:174-188 | inserting whitespace never changes the policy's verdict |
| UserController.UpperCaseOnlyPasswordRefused | src/app/controllers/userController.js:50 | a password without a lower-case ASCII letter is always refused |
| UserController.NormalizeLoginEmail | src/app/controllers/userController.js:168 | the login e-mail is the lower-cased input with all whitespace removed |
| UserController.ValidateRegistration | src/app/controllers/userController.js:25-55 | each refusal (missing field, name length, e-mail format, duplicate, password policy with 400 and the policy's reason) happens exactly for its inputs, in source order; success yields the name, the lower-cased e-mail and the stripped password |
| UserController.DuplicateBeforePassword | src/app/controllers/userController.js:35-55 | a taken e-mail is refused before the password is looked at |
| UserController.HandleCreateUser | src/app/controllers/userController.js:22-112 | a refused registration stores nothing; an accepted one appends exactly the new user, whose id is numbered by the count; user numbering is kept |
| UserController.HandleActivateUserAccount | src/app/controllers/userController.js:114-159 | each token outcome gives its answer; only `email_verified` of the first user with the token's `user_id` changes; ids and numbering are kept |
| UserController.LoginAccount | src/app/controllers/userController.js:191 | the login lookup finds a stored account with the normalised e-mail, and nothing exactly when no account has it |
| UserController.HandleLoginUser | src/app/controllers/userController.js:161-274 | each outcome holds exactly for its inputs, in source order (a policy refusal with 400 and the policy's reason); success yields the session of the account found |
| UserController.SessionShape | src/app/controllers/userController.js:248-263 | the session carries `user_id` and `role`, a 10-minute access token, and a 7-day httpOnly, secure, cross-site refresh cookie |
| UserController.WhitespacePasswordLocksOut | src/app/controllers/userController.js:174-201 | an account registered with an ASCII password of at most 72 characters containing whitespace is refused with 401 for that password |
| UserController.SpacelessPasswordMatches | src/app/controllers/userController.js:198 | a whitespace-free password matches the digest registration stored |
| UserController.UnverifiedComesBeforeBanned | src/app/controllers/userController.js:204-247 | an unverified account is answered as unverified even when banned and deleted |
| UserController.HandleRefreshToken | src/app/controllers/userController.js:276-306 | each cookie outcome gives its answer; success yields a 10-minute access token that nests the decoded claims under `user` |
| UserController.RefreshKeepsIdentity | src/app/controllers/userController.js:290-296 | exchanging a login's refresh cookie yields the same requester as the login's access token |
| AuthUser.SplitSpace | src/app/middlewares/authUser.js:26 | a header splits into one piece exactly when it has no space |
| AuthUser.BearerToken | src/app/middlewares/authUser.js:26 | a token is found exactly when the header has a space, and it contains no space |
| AuthUser.IncomingHeader | src/app/middlewares/authUser.js:19-20 | the lower-case header is used when non-empty, otherwise the capitalised one; a header is present when either is |
| AuthUser.BearerTokenIsSecondWord | src/app/middlewares/authUser.js:26 | the token is the word after the first space |
| AuthUser.IsLoggedIn | src/app/middlewares/authUser.js:17-50 | each of the five outcomes holds exactly for its header and verdict; success passes on the decoded claims |
| AuthUser.SchemeNeverChecked | src/app/middlewares/authUser.js:26 | the word before the token is never inspected |
| AuthUser.HeaderWithoutSpaceRefused | src/app/middlewares/authUser.js:26-29 | a header without a space is refused with 401 |
| AuthUser.DoubleSpaceRefused | src/app/middlewares/authUser.js:26-29 | two spaces after the scheme leave no token: 401 |
| Multer.TestMeansMention | src/app/middlewares/multer.js:12-13 | the left-to-right regular-expression scan succeeds exactly when one of the four words occurs |
| Multer.ExtName | src/app/middlewares/multer.js:15 | an extension is empty or a `.` followed by characters that are neither `.` nor `/`; a path without `.` has none |
| Multer.ExtNameOfName | src/app/middlewares/multer.js:14-16 | the extension of `stem.ext` is `.ext` |
| Multer.FileFilter | src/app/middlewares/multer.js:11-23 | a file is accepted exactly when its mimetype and its lower-cased extension both mention an image word |
| Multer.FilterOnName | src/app/middlewares/multer.js:14-18 | for `stem.ext`, the decision depends only on the mimetype and on `.ext` lower-cased |
| Multer.ExtensionCaseIgnored | src/app/middlewares/multer.js:14-16 | the case of the extension never changes the decision |
| Multer.UpperCaseMimetypeRefused | src/app/middlewares/multer.js:13 | a mimetype without lower-case letters is always refused |
| Multer.MatchIsUnanchored | src/app/middlewares/multer.js:12 | an image word anywhere in the mimetype and in the extension is enough |
| CommentController.CheckComment | src/app/controllers/commentController.js:38-44 | a comment passes exactly when it is present and has 2 to 2000 UTF-16 code units |
| CommentController.CommentEntry | src/app/controllers/commentController.js:49-57 | the stored comment copies the author's name and avatar from the first user with the requester's id, or leaves them absent |
| CommentController.ViewBumpKeepsInvariants | src/app/controllers/commentController.js:33-36 | raising `views` keeps post ids distinct and counters exact |
| CommentController.AddKeepsInvariants | src/app/controllers/commentController.js:59-67 | adding a fresh-id comment on an existing post keeps every invariant |
| CommentController.HandleAddComment | src/app/controllers/commentController.js:10-75 | each refusal gives its status; `views` rises once the post is found, even when the comment is refused; success appends the entry and raises `total_comment`; the invariants are kept |
| CommentController.CommentsOfPost | src/app/controllers/commentController.js:102-105 | the listing is exactly the post's comments, newest first |
| CommentController.AddedCommentIsListed | src/app/controllers/commentController.js:59-105 | a stored comment appears in its post's listing, which grows by one |
| CommentController.HandleGetCommentByPost | src/app/controllers/commentController.js:77-115 | refusals change nothing; success raises `views` and returns the listing; the invariants are kept |
| CommentController.FirstWithIdIsAuthors | src/app/controllers/commentController.js:130-140 | with distinct comment ids, the comment deleted by id is the one the author's lookup found |
| CommentController.RemoveKeepsDistinctIds | src/app/controllers/commentController.js:138-140 | deleting a comment keeps comment ids distinct |
| CommentController.HandleDeleteCommentFromPost | src/app/controllers/commentController.js:117-158 | only a comment found for the requester leads to a deletion, of the first comment with that id; with distinct ids it is the requester's own; the invariants are kept |
| CommentController.HandleHideCommentByPostOwner | src/app/controllers/commentController.js:160-207 | a comment is removed only when the requester owns its post; the counter of that post falls by one; the invariants are kept |
| PostController.ImageOf | src/app/controllers/postController.js:38-43 | the stored image takes the host's id and url, each falling back to an empty string |
| PostController.HandleAddPost | src/app/controllers/postController.js:8-59 | each refusal happens exactly for its inputs and stores nothing; a request passing every check succeeds and appends the post under the requester's id; the invariants are kept for a fresh id |
| PostController.NewPostKeepsInvariants | src/app/controllers/postController.js:38-49 | a fresh post without comments keeps both post invariants |
| PostController.AddedPostIsFound | src/app/controllers/postController.js:114 | a post stored under a fresh id is the one a lookup by that id finds |
| PostController.EffectivePage | src/app/controllers/postController.js:64 | a missing or zero page reads as page 1; any other page is kept |
| PostController.TotalPages | src/app/controllers/postController.js:95 | the page count is the least number of `limit`-sized pages that hold every match |
| PostController.TotalPagesUnique | src/app/controllers/postController.js:95 | the page count is the only number with those bounds |
| PostController.Paginate | src/app/controllers/postController.js:93-99 | previous and next pages are offered exactly when they exist |
| PostController.PageNonEmptyIffWithinTotal | src/app/controllers/postController.js:84-95 | a page holds posts exactly when its number is at most the page count |
| PostController.NextPageHoldsPosts | src/app/controllers/postController.js:98 | `nextPage` is offered exactly when the next page holds posts |
| PostController.SearchMatches | src/app/controllers/postController.js:67-77 | a post matches exactly when the search is empty or its description or id contains the search text, ignoring case |
| PostController.Results | src/app/controllers/postController.js:71-83 | the results are a permutation of the matching posts, oldest first, as many as are counted |
| PostController.PageOf | src/app/controllers/postController.js:84-85 | page `page` holds the results from position `(page - 1) * limit` on, in order, `limit` of them or as many as remain; it is sorted and non-empty exactly within the page count |
| PostController.HandleGetAllPosts | src/app/controllers/postController.js:61-105 | a negative page fails; otherwise the count, pagination and page agree with the query; every listed post matches it |
| PostController.EmptySearchListsAll | src/app/controllers/postController.js:63-77 | without a search every post is counted and listed |
| PostController.SearchIgnoresCase | src/app/controllers/postController.js:67 | the search ignores the case of its text |
| PostController.EveryResultIsOnAPage | src/app/controllers/postController.js:84-95 | every result lies on some page within the page count |
| PostController.HandleGetSinglePost | src/app/controllers/postController.js:107-132 | refusals change nothing; success returns the post as found and raises its `views` by one; the invariants are kept |
| PassportConfig.FirstValue | src/app/config/passportConfig.js:31-32 | the first entry's value, or null when there is none or it is empty |
| PassportConfig.GoogleUser | src/app/config/passportConfig.js:25-38 | the created account is verified, has no password, is numbered by the count, and is absent when the profile lacks a list |
| PassportConfig.GoogleVerify | src/app/config/passportConfig.js:19-54 | a known Google id reuses its account; otherwise exactly one account is appended and returned, or the answer is an error with nothing stored; numbering is kept |
| PassportConfig.CreatedAccountIsFoundAgain | src/app/config/passportConfig.js:22-29 | a second sign-in with the same Google id finds the account the first created |
| PassportConfig.EmptyGoogleIdIsNeverFound | src/app/config/passportConfig.js:22-29 | an empty Google id is stored as null, so every such sign-in creates a new account |
| PassportConfig.MissingGoogleIdTakesLocalAccount | src/app/config/passportConfig.js:22 | a profile without an id is answered with the first account that has no Google id |
| PassportConfig.Serialize | src/app/config/passportConfig.js:58-60 | the session keeps the account's `user_id` and nothing else |
| PassportConfig.Deserialize | src/app/config/passportConfig.js:62-69 | deserialisation finds an account with that id, and null exactly when there is none |
| PassportConfig.SessionRoundTrip | src/app/config/passportConfig.js:58-69 | with numbered users, deserialising a serialised account gives that account back |

## Left out

- I/O and foreign code are parameters, not models:
  - mail delivery, the image upload, insert acknowledgements, `crypto.randomBytes`, `new Date()`;
  - signature checking in `jwt.verify`, and `validator.isEmail`;
  - bcrypt salts and cost, and token `iat`/`exp` fields.
- The helpers `requiredField`, `validateString` and `duplicateChecker` are not part of this
  model.
  - `requiredField` is taken to refuse an absent or empty value with 400.
  - `validateString` is taken to check length bounds only.
  - `duplicateChecker` is taken to refuse with 409.
- HTML bodies of e-mails, response messages, the rate limiter, `app.js`, the router,
  `likeCommentController.js` and the image-host helpers are not modelled. They are outside
  the core.
- Concurrency between requests is not modelled: each handler runs atomically on the collections.
- Text.Utf16Length: strings holding a lone surrogate cannot be written as Dafny strings, so
  their lengths are not modelled.
- Foreign.Compare: the NUL byte bcrypt appends and its cyclic use of a short key are not
  modelled, so collisions between passwords that contain NUL characters are not captured.
- UserController.WhitespacePasswordLocksOut: stated for ASCII passwords of at most 72
  characters. A longer password can match after all when its whitespace lies beyond the
  72nd byte (`Foreign.LongPasswordIgnoresTail`). Short non-ASCII passwords are not covered,
  since that would need injectivity of the full UTF-8 encoding.
- Text.Lower: only ASCII letters are lower-cased, not the full Unicode case mapping of
  `toLowerCase`.
- PostController.SearchMatches: the search text is read as a literal string. Regular-expression
  metacharacters in it are not interpreted.
- PostController.HandleGetAllPosts: requires a positive whole `limit`. A missing, zero,
  negative, fractional (such as `?limit=2.5`) or non-numeric `limit` makes the driver's
  behaviour depend on its own defaults. A non-integer `page` is not modelled.
- UserController.HandleCreateUser: `createJWT` is taken never to fail. A failure would
  answer 500 before the insert, so nothing would be stored and no mail sent.
- UserController.HandleLoginUser: `createJWT` is taken never to fail. A failure, while
  minting the token for the verification mail or the session tokens, would answer 500.
- UserController.HandleRefreshToken: `createJWT` is taken never to fail. A failure would
  answer 500 instead of the new access token.
- UserController.HandleActivateUserAccount: the 500 for `modifiedCount === 0` is not
  modelled. It cannot happen, since only an unverified user is updated.
- The `!user` checks of the comment and post handlers are not modelled. The requester is
  always a decoded claims object, so they never fire.
- CommentController.HandleDeleteCommentFromPost: the 500 for a failed `findOneAndDelete` is
  not modelled. A comment with that id was just found, so it cannot happen. The same holds for
  the hide handler.
- PassportConfig.GoogleVerify: an error passed to `done` is reported as a `Fail` with status
  500, or 400 for the refused insert. What passport then sends is not modelled.
- Multer: the 10 MiB size limit is a constant (`Multer.FileSizeLimit`). The size check itself
  is done by the upload library and is not modelled.
