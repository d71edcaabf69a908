# Multi-user blog: credentials, form validation and sessions

This project models the core of a small multi-user blog built on webapp2 and
ndb for Python 2. Three pieces are modelled:

- **Credential digests** (`crypto.py`). A password becomes the record
  `"<sha256 hex of name+pw+salt>,<salt>"`, and the salt is 20 distinct random
  ASCII letters. `unsalt` recovers the digest part. `valid_pw` re-checks a
  password against a record.
- **Form validators** (`validators.py`). There are three regular expressions.
  Each validator returns its argument unchanged or `None`.
- **Handlers** (`main.py`), run against an in-memory store that stands in for
  ndb:
  - the `user=<id>|<digest part>; Path=/` session cookie that `set_user`
    writes, `get_user` reads and `clear_user` empties;
  - user registration and the sign-up form check;
  - the login decision;
  - creating posts;
  - the like toggle and the comment counter.

Files:

- `wrappers.dfy`: `Option`, `Result` and the Python exceptions that can
  escape (`ValueError`, `IndexError`, `AttributeError`).
- `pystr.dfy`: `str.split`, `str(n)` and `int(s)` in base 10.
- `crypto.dfy`: `make_salt`, `make_pw_hash`, `unsalt` and `valid_pw`.
  - SHA-256 is a parameter `sha: Sha256`. The model knows only that every
    output is 64 lower-case hex characters.
  - The random draw of `random.sample` is an input: 20 pairwise-distinct
    positions in `ascii_letters`.
- `regex.dfy`: the fragment of `re` the three patterns use. Each pattern is a
  sequence of single-character atoms under repetition counts. The model keeps
  Python's rule that `$` also matches just before a final newline.
- `validators.dfy`: the patterns, the validators, and lemmas that restate
  each pattern as an explicit predicate on characters and lengths.
- `models.dfy`: the ndb entities as datatypes, with the counter defaults of 0.
- `setcookie.dfy`: how the browser reads a `Set-Cookie` header, following the
  parsing algorithm in section 5.2 of RFC 6265. It is used to state the
  cookie round trip.
- `session.dfy`: `set_user`, `clear_user` and `get_user`.
- `handlers.dfy`: the store as a class `Datastore`, with maps for users, posts,
  likes and comments. The handlers are methods on it.
  - Its invariant `Valid()` says:
    - every Like and Comment points at a stored post;
    - each post's `likes` and `comments` counters equal the number of its
      records;
    - a user likes a post at most once;
    - users are keyed by integer ids.
  - Each handler returns an `Outcome`: a redirect, a chosen status, a
    rendered template with its params, or the exception that escapes.

Three behaviours of the code are easy to misread, and the model keeps them
as the code has them:

- `get_user` raises on a malformed cookie or an unknown id. It does not
  resolve these to "no session".
- The cookie value is split on `|` into exactly two parts. It is not matched
  against a word-character pattern.
- `unsalt` needs exactly one comma. It does not cut at the first comma.

## Model

| member | source | states |
|---|---|---|
| PyStr.Split | crypto.py:21 | `s.split(sep)` has one more piece than `s` has separators, and no piece contains the separator |
| PyStr.JoinSplit | crypto.py:21 | joining the pieces of a split with the separator gives back the string |
| PyStr.SplitPair | crypto.py:21 | `a + sep + b` with no separator in `a` or `b` splits into exactly `[a, b]` |
| PyStr.SplitPairInverse | crypto.py:21 | a string whose split has two pieces is those two pieces around the single separator |
| PyStr.ParseInt | main.py:48 | `int()` raises only `ValueError`, and a plain string of digits reads as its value |
| PyStr.BlankFails | main.py:48 | a blank string, `""` included, raises `ValueError` |
| PyStr.BlankAfterSign | main.py:48 | as in Python 2, blanks between the sign and the digits are skipped: `int("- " + d)` is minus the value of `d` |
| PyStr.DecimalString | main.py:57 | `str(n)` is non-empty, starts with a digit or `-`, and has only digits after its first character |
| PyStr.DecimalRoundTrip | main.py:48 | `int(str(n)) == n` for every integer, negative ones included |
| PyStr.NatToDecimalValue | main.py:57 | the decimal numeral of `n` has the value `n` |
| PyStr.ParseNumeral | main.py:48 | `int()` reads a string of digits as its value |
| PyStr.ParseNegatedNumeral | main.py:48 | `int()` reads `-` followed by digits as the negated value |
| Crypto.MakeSalt | crypto.py:9-10 | the salt has 20 characters, all ASCII letters, pairwise distinct |
| Crypto.MakeSaltInjective | crypto.py:9-10 | different draws give different salts |
| Crypto.SaltHasNoComma | crypto.py:9-10 | a salt is non-empty and contains no comma |
| Crypto.DigestHasNoComma | crypto.py:16 | a hex digest contains no comma |
| Crypto.MakePwHash | crypto.py:13-17 | the record is 64 hex digits, a comma, and the salt used: the given one when truthy, otherwise a drawn one |
| Crypto.Unsalt | crypto.py:20-22 | `unsalt` raises `ValueError` exactly when the record does not contain exactly one comma; otherwise its result has no comma and is the record's prefix before that comma |
| Crypto.ValidPw | crypto.py:25-27 | `valid_pw` raises `IndexError` exactly when the record has no comma; a record it accepts has exactly one comma, so `unsalt` succeeds on it |
| Crypto.MakePwHashLayout | crypto.py:13-17 | the record is `digest(name+pw+s) + "," + s` and splits into exactly those two parts; a truthy salt is kept verbatim; `None` or `""` is replaced by a 20-letter salt |
| Crypto.UnsaltRoundTrip | crypto.py:13-22 | `unsalt(make_pw_hash(n, p, s))` is `digest(n+p+s)` for every comma-free salt, and for a drawn one |
| Crypto.UnsaltFailure | crypto.py:20-22 | `unsalt` raises exactly when the record does not contain exactly one comma; on success the result has no comma |
| Crypto.ValidPwAcceptsOwnRecord | crypto.py:25-27 | a record written with a non-empty comma-free salt verifies for its password, whatever the current draw, because the stored salt is reused |
| Crypto.ValidPwAcceptsFreshRecord | crypto.py:13-27 | a record written with a freshly drawn salt verifies for its password |
| Crypto.ValidPwOtherPassword | crypto.py:25-27 | another password verifies against a record exactly when its digest under the same salt is the same |
| Crypto.ValidPwNoComma | crypto.py:26 | a record without a comma raises `IndexError` instead of returning false |
| Crypto.ValidPwEmptySalt | crypto.py:14-27 | a record whose salt part is empty never verifies |
| Crypto.ValidPwSound | crypto.py:25-27 | a successful check means the record has exactly one comma, a non-empty salt, and equals `digest(n+p+salt) + "," + salt` |
| Crypto.FreshRecordsDiffer | crypto.py:9-17 | two registrations with different draws store different records |
| Regex.TrailingNewline | validators.py:3-5 | anything a pattern matches exactly still matches with one newline appended |
| Validators.ValidateUsername | validators.py:3-12 | the result is `None` or the argument unchanged; it is the argument exactly when the text (minus at most one final newline) is 3 to 20 characters from `[A-Za-z0-9_-]` |
| Validators.ValidatePassword | validators.py:4-19 | the result is `None` or the password unchanged; it is the password exactly when password equals verify and the text is 3 to 20 characters other than newline, a final newline aside |
| Validators.ValidateEmail | validators.py:5-26 | the result is `None` or the address unchanged; it is the address exactly when the text is a non-blank run, `@`, a non-blank run, any non-newline character, and a non-blank run |
| Validators.UserPatternMeaning | validators.py:3 | `USER_RE` matches its whole input exactly when the input is 3 to 20 username characters |
| Validators.PasswordPatternMeaning | validators.py:4 | `PASSWORD_RE` matches its whole input exactly when the input is 3 to 20 non-newline characters |
| Validators.EmailPatternMeaning | validators.py:5 | `EMAIL_RE` matches its whole input exactly when the input is `A@B c C`, with `A`, `B`, `C` non-empty runs of non-whitespace and `c` one non-newline character |
| Validators.EmailTextMatches | validators.py:5 | every text of that shape is matched by `EMAIL_RE` |
| Validators.EmailMatchIsText | validators.py:5 | everything `EMAIL_RE` matches exactly has that shape |
| Validators.MismatchedVerifyFails | validators.py:16 | a verify value different from the password always gives `None` |
| Validators.ShortEmailFails | validators.py:5 | every address shorter than 5 characters, `""` included, is rejected |
| Validators.EmailWithoutDotPasses | validators.py:5 | the unescaped `.` lets `a@bcd`, which has no dot, pass |
| Validators.ValidatorsAcceptTrailingNewline | validators.py:3-5 | each validator accepts its text followed by one newline and returns it with that newline |
| SetCookie.ParseNameValuePath | main.py:56-60 | a header `name=value; Path=/` with plain name and value sets exactly that cookie with the attribute `Path=/` |
| Session.GetUser | main.py:41-54 | a returned user is stored under the cookie's id; the cookie splits into two parts on the bar character; its id part reads as that id; its hash part is `unsalt` of the stored record |
| Session.SetUserHeader | main.py:56-60 | `set_user` raises `ValueError`, from `unsalt`, exactly when the stored record does not contain exactly one comma |
| Session.ClearUserHeader | main.py:62-63 | the `clear_user` header sets the `user` cookie to the empty value with path `/` |
| Session.SetUserCookieContents | main.py:56-60 | for a well-formed record, the browser keeps `user` = `<id>`, a bar, and the digest part with path `/`; the salt never reaches the cookie |
| Session.CookieRoundTrip | main.py:41-58 | the cookie `set_user` writes for a stored user makes `get_user` return that same user |
| Session.SessionResolves | main.py:46-53 | a session value resolves to the stored user exactly when its hash part equals the digest part of that user's current record; otherwise it gives no user |
| Session.ClearedCookieIsAnonymous | main.py:42-63 | `clear_user` leaves an empty `user` value, which `get_user` treats as no session |
| Session.GetUserAnonymous | main.py:42-54 | `get_user` returns no user when: the cookie is absent or empty; the id part is empty; or the hash part differs from `unsalt` of the stored record |
| Session.GetUserRaises | main.py:46-51 | `get_user` raises `ValueError` when the value does not split into two parts or the id is not an integer, and `AttributeError` when no user has that id |
| Session.StaleCookieRejected | main.py:50-54 | a record change to another digest part invalidates every cookie issued for the old record |
| Handlers.Toggled | main.py:275-284 | one toggle flips the membership of that like and keeps every other like as it was |
| Handlers.ToggleInvolutive | main.py:271-284 | toggling the same like twice restores the like set |
| Handlers.LikesOfInsert | main.py:281-283 | a new Like record raises its post's Like count by one and leaves other posts' counts alone |
| Handlers.LikesOfRemove | main.py:276-278 | deleting a Like record lowers its post's Like count by one and leaves other posts' counts alone |
| Handlers.CommentsOfInsert | main.py:239-245 | a new Comment record raises its post's Comment count by one and leaves other posts' counts alone |
| Handlers.LikeSetInsert | main.py:281-282 | storing a new Like adds exactly that like to the like set |
| Handlers.LikeSetRemove | main.py:276-277 | with at most one record per like, deleting a record removes exactly its like from the like set |
| Handlers.RegisterKeepsUsernamesUnique | main.py:335-340 | storing a user under a fresh key keeps usernames unique exactly when the name was not taken |
| Handlers.DuplicateNameUndetected | main.py:335-340 | in a store holding "alice" under an integer id, the lookup by the name string finds nothing, though the name is taken; a second "alice" breaks uniqueness |
| Handlers.FillSignupParams | main.py:311-342 | the form is valid exactly when the username, the password with verify, and the email (or `""`) all pass, and no existing user was found; `params` holds each field's value or its failure flag, and `user_already_exists` clears the username |
| Handlers.AcceptedParams | main.py:351-357 | an accepted form passes on the submitted username and password, and the validated email, or `None` when it was left empty |
| Handlers.Datastore.ValidateParams | main.py:305-342 | as written, the existing-user check is a key lookup by the username string; the form is valid exactly when the three field checks pass and that lookup finds nothing |
| Handlers.Datastore.ValidateParamsByUsername | main.py:305-342 | with the existing-user check by username, the form is valid exactly when the three field checks pass and no stored user has that name |
| Handlers.Datastore.NameLookupMisses | main.py:336 | in a valid store the lookup by username string never finds a user |
| Handlers.Datastore.RegisterUser | main.py:65-72 | the new user is stored under a fresh integer id with the record `make_pw_hash(username, password)` under a drawn salt; nothing else changes |
| Handlers.Datastore.RegisterAndSetUser | main.py:354-358 | exactly one new user is stored with its `make_pw_hash` record; the `set_user` header authenticates that user; in a store with unique usernames, they stay unique exactly when the name was free |
| Handlers.Datastore.Signup | main.py:350-361 | as written: a form passing the three field checks is accepted even when the username is taken; it stores exactly one new user, redirects to `/welcome`, and sets a cookie that authenticates that user; usernames then stay unique exactly when the name was free; a rejected form changes nothing and renders the form with its flags, never with `user_already_exists` |
| Handlers.Datastore.SignupByUsername | main.py:350-361 | corrected: with the existing-user check by username, an accepted form stores the user, redirects and sets the cookie as above; a rejected one changes nothing and renders the form, with `user_already_exists` for a taken name; usernames stay unique |
| Handlers.LoginDecision | main.py:375-389 | login succeeds exactly when a user has that name and `valid_pw` holds for the first match, and then yields that match; it raises when that record has no comma |
| Handlers.LoginEstablishesSession | main.py:379-389 | after a successful login, the cookie `set_user` writes authenticates the same account |
| Handlers.QueryOfUniqueName | main.py:379-383 | with unique usernames a username query has at most one match |
| Handlers.LoginAfterRegistration | main.py:379-389 | a registered user logs in with their password, and with another password only when its digest under the stored salt collides |
| Handlers.LikeVerdict | main.py:264-269 | a missing post gives 404; otherwise a missing user gives 403; otherwise the author of the post gives 400; otherwise the request proceeds |
| Handlers.CommentVerdict | main.py:238-253 | the request proceeds exactly when the post exists, the user is signed in and the text is non-empty; otherwise a missing user gives 403 before a missing post gives 404, and either before empty text gives 400 |
| Handlers.VerdictsNeedStoredPost | main.py:238-269 | a like or comment proceeds only on a stored post with a signed-in user, and never for the post's own author for a like |
| Handlers.Datastore.constructor | models.py:3-34 | the store starts empty and valid |
| Handlers.Datastore.NewPost | main.py:110-137 | a signed-in user with a title and a text stores exactly one new post with both counters at 0 and is redirected to it; a missing field renders the form with its flags; without a session, filled-in fields raise `AttributeError` and otherwise the handler redirects to `/signup` |
| Handlers.Datastore.LikePost | main.py:260-285 | a refused request changes nothing and returns its status; otherwise the user's like of the post is toggled, the post's `likes` moves by exactly -1 or +1 with it, and the counter invariant holds |
| Handlers.Datastore.LikeTwice | main.py:271-285 | two like requests from the same session restore the like set and every post, counters included |
| Handlers.Datastore.CommentPost | main.py:233-253 | a refused request changes nothing and returns its status; otherwise exactly one Comment with the user's id and name is stored under a fresh id, and the post's `comments` goes up by exactly one |

## Left out

- Template rendering, `write`/`render`, the routing table and the HTTP
  machinery. A handler's result is its `Outcome`. The route patterns
  `/posts/(\d+)/…` become the requirement that the post id text is a numeral.
- The `Set-Cookie` header is returned as text. Its delivery through webapp2,
  and the way the framework splits the request's `Cookie` header, are not
  modelled. The request's cookie is an input.
- ndb is replaced by maps. The model leaves out `put()`, `delete()`,
  transactions, query ordering by `created`, and the `created` timestamps.
  - One counter assigns ids to all kinds, where ndb allocates them per kind.
  - The order of results of `User.query(...)` is left open: any sequence
    listing each matching user once.
  - ndb's errors for out-of-range ids are not modelled.
- The read-modify-write races on the `likes` and `comments` counters. These
  are concurrency concerns.
- The internals of SHA-256 and of the PRNG behind `random.sample`. They are
  a parameter and an input.
- Reading the `secret` file at import time (crypto.py:5-6). It is I/O, and
  the value is never used.
- PyStr.ParseInt: `int()` is modelled for ASCII digits and ASCII whitespace
  only. Unicode digits and blanks, which `int()` of a unicode string also
  accepts, are not.
- Crypto.MakePwHash: webapp2 hands the form fields over as unicode, and
  `hashlib.sha256(name + pw + salt)` encodes unicode as ASCII. A name or
  password with a non-ASCII character therefore raises `UnicodeEncodeError`
  in the source; the digest parameter of the model is total on all strings
  and does not raise.
- Crypto.ValidPw: for the same reason, `valid_pw` on a non-ASCII name or
  password raises in the source and returns a verdict in the model.
- Handlers.Datastore.RegisterUser: stores a user with a non-ASCII password,
  which `PASSWORD_RE` lets through, where `register_user` raises
  `UnicodeEncodeError`. The same holds for `Handlers.Datastore.Signup`,
  `Handlers.Datastore.SignupByUsername` and
  `Handlers.Datastore.RegisterAndSetUser`.
- Handlers.LoginDecision: a non-ASCII name or password makes `valid_pw`
  raise in the source; the model gives a verdict.
- The error branches of the like and comment handlers call
  `response.set_status`, and `response` is an undefined global. At run time
  they would raise `NameError`. The model keeps only the status each branch
  chooses.
- Redirects that do not return (main.py:106-108, 112-113, 151-156). For
  `NewPostPage.post` without a session, the model records the redirect to
  `/signup` and, when both fields are filled, the `AttributeError` that
  follows. The page rendered after a redirect is not modelled.
  `LoginPage.post` always renders `login.html` after its decision
  (main.py:393). That rendering is not modelled.
- `MainPage`, `EditPage`, `PermalinkPage`, `DeletePage`, `WelcomePage`,
  `LogoutPage`, and the `get` methods of the form pages. These are rendering
  and routing. `DeletePage` reads a missing attribute (`blog_post.user_id`,
  main.py:294).
- Debug `print` calls (main.py:44, 49, 88).

## Findings

| source | as written | input that shows it | evidently intended | confidence | as-written member | corrected member |
|---|---|---|---|---|---|---|
| main.py:335-340 | the existing-user check is `User.get_by_id(params['username'])`, a key lookup by the username string, while `register_user` stores users under auto-assigned integer ids (main.py:67-71) | a store holding user "alice" under id 1, and a sign-up for "alice": the lookup finds nothing, the form is accepted, and a second "alice" is stored | reject a username that a stored user already carries, so usernames stay unique | not executed | Handlers.Datastore.ValidateParams, Handlers.Datastore.Signup, Handlers.DuplicateNameUndetected | Handlers.Datastore.ValidateParamsByUsername, Handlers.Datastore.SignupByUsername, Handlers.RegisterKeepsUsernamesUnique |
