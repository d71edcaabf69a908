/** main.py's request handlers, over an in-memory store in place of ndb.

    A handler's response is an `Outcome`: the redirect it issues, the status
    it chooses, the template it renders with its `params`, or the exception
    that escapes it. The request's `user` cookie is an input; `get_user`
    is `Session.GetUser` on the store's users. */
module Handlers {
  import opened Wrappers
  import opened PyStr
  import opened Crypto
  import opened Validators
  import opened Models
  import opened SetCookie
  import opened Session

  const BadRequest: int := 400
  const Forbidden: int := 403
  const NotFound: int := 404

  /** The keys of the `params` dicts the handlers hand to their templates:
      `username`, `invalid_username`, `password`, `invalid_password`,
      `email`, `invalid_email`, `user_already_exists`, `missing_title` and
      `missing_text`. */
  datatype Field =
    | UsernameField | InvalidUsername | PasswordField | InvalidPassword
    | EmailField | InvalidEmail | UserAlreadyExists | MissingTitle | MissingText

  /** A value in a `params` dict handed to a template. */
  datatype PVal = Text(s: string) | Flag(b: bool) | NoneVal

  datatype Outcome =
    | Redirect(location: string)
    | Status(code: int)
    | Render(template: string, params: map<Field, PVal>)
    | Raised(error: PyError)

  /** The branch a like or comment request takes before touching the store. */
  datatype Verdict = Proceed | Refuse(code: int)

  function GetPost(posts: map<int, BlogPost>, id: int): Option<BlogPost>
  {
    if id in posts then Some(posts[id]) else None
  }

  /* ---------------------------------------------------------------------
     Counters and the like set
     --------------------------------------------------------------------- */

  /** Keys of the Like records that point at post `p`. */
  function LikesOf(likes: map<int, Like>, p: int): set<int>
  {
    set k | k in likes && likes[k].postId == p
  }

  /** Keys of the Comment records that point at post `p`. */
  function CommentsOf(comments: map<int, Comment>, p: int): set<int>
  {
    set k | k in comments && comments[k].postId == p
  }

  /** No two Like records for the same post and user. */
  predicate LikesUnique(likes: map<int, Like>)
  {
    forall a, b :: a in likes && b in likes && likes[a] == likes[b] ==> a == b
  }

  /** Which users like which posts: the values of the Like records. */
  function LikeSet(likes: map<int, Like>): set<Like>
  {
    set k | k in likes :: likes[k]
  }

  /** The like set after one toggle of `l`. */
  function Toggled(likeSet: set<Like>, l: Like): (r: set<Like>)
    ensures l in r <==> l !in likeSet
    ensures forall m :: m != l ==> (m in r <==> m in likeSet)
  {
    if l in likeSet then likeSet - {l} else likeSet + {l}
  }

  /** Toggling twice restores the like set. */
  lemma ToggleInvolutive(likeSet: set<Like>, l: Like)
    ensures Toggled(Toggled(likeSet, l), l) == likeSet
  {
  }

  lemma LikesOfInsert(likes: map<int, Like>, k: int, l: Like, p: int)
    requires k !in likes
    ensures |LikesOf(likes[k := l], p)| == |LikesOf(likes, p)| + (if l.postId == p then 1 else 0)
  {
    if l.postId == p {
      assert LikesOf(likes[k := l], p) == LikesOf(likes, p) + {k};
    } else {
      assert LikesOf(likes[k := l], p) == LikesOf(likes, p);
    }
  }

  lemma LikesOfRemove(likes: map<int, Like>, k: int, p: int)
    requires k in likes
    ensures |LikesOf(likes - {k}, p)| == |LikesOf(likes, p)| - (if likes[k].postId == p then 1 else 0)
  {
    if likes[k].postId == p {
      assert LikesOf(likes - {k}, p) == LikesOf(likes, p) - {k};
    } else {
      assert LikesOf(likes - {k}, p) == LikesOf(likes, p);
    }
  }

  lemma CommentsOfInsert(comments: map<int, Comment>, k: int, c: Comment, p: int)
    requires k !in comments
    ensures |CommentsOf(comments[k := c], p)| == |CommentsOf(comments, p)| + (if c.postId == p then 1 else 0)
  {
    if c.postId == p {
      assert CommentsOf(comments[k := c], p) == CommentsOf(comments, p) + {k};
    } else {
      assert CommentsOf(comments[k := c], p) == CommentsOf(comments, p);
    }
  }

  lemma LikeSetInsert(likes: map<int, Like>, k: int, l: Like)
    requires k !in likes
    ensures LikeSet(likes[k := l]) == LikeSet(likes) + {l}
  {
    forall m | m in LikeSet(likes) ensures m in LikeSet(likes[k := l]) {
      var j :| j in likes && likes[j] == m;
      assert likes[k := l][j] == m;
    }
    assert likes[k := l][k] == l;
  }

  lemma LikeSetRemove(likes: map<int, Like>, k: int)
    requires k in likes && LikesUnique(likes)
    ensures LikeSet(likes - {k}) == LikeSet(likes) - {likes[k]}
  {
    forall m | m in LikeSet(likes) && m != likes[k] ensures m in LikeSet(likes - {k}) {
      var j :| j in likes && likes[j] == m;
      assert (likes - {k})[j] == m;
    }
  }

  /* ---------------------------------------------------------------------
     Usernames
     --------------------------------------------------------------------- */

  /** Some stored user already carries this username. */
  predicate UsernameTaken(users: map<Key, User>, name: string)
  {
    exists k :: k in users && users[k].username == name
  }

  /** No two stored users share a username. */
  predicate UniqueUsernames(users: map<Key, User>)
  {
    forall a, b :: a in users && b in users && users[a].username == users[b].username ==> a == b
  }

  /** Storing a user under a fresh key keeps usernames unique exactly when
      the name was not taken. */
  lemma RegisterKeepsUsernamesUnique(users: map<Key, User>, key: Key, u: User)
    requires UniqueUsernames(users) && key !in users
    ensures UniqueUsernames(users[key := u]) <==> !UsernameTaken(users, u.username)
  {
    if UsernameTaken(users, u.username) {
      var k :| k in users && users[k].username == u.username;
      assert users[key := u][k].username == users[key := u][key].username;
    }
  }

  /** The lookup `validate_params` performs, `User.get_by_id(username)`,
      is keyed by the username string, while users are stored under
      auto-assigned integer ids: a store holding "alice" is not seen by it,
      and storing a second "alice" breaks the uniqueness of usernames. */
  lemma DuplicateNameUndetected(record: string)
    ensures var users := map[IntId(1) := User("alice", record, None)];
      && GetById(users, NameId("alice")).None?
      && UsernameTaken(users, "alice")
      && !UniqueUsernames(users[IntId(2) := User("alice", record, None)])
  {
    var users := map[IntId(1) := User("alice", record, None)];
    assert users[IntId(1)].username == "alice";
    var more := users[IntId(2) := User("alice", record, None)];
    assert more[IntId(1)].username == more[IntId(2)].username;
  }

  /* ---------------------------------------------------------------------
     Signup form
     --------------------------------------------------------------------- */

  /** The `params` dict `validate_params` builds, given whether the lookup
      for an existing user found one. */
  predicate SignupParams(params: map<Field, PVal>, username: string, password: string,
                         verify: string, email: string, existing: bool)
  {
    var u := ValidateUsername(username);
    var p := ValidatePassword(password, verify);
    var e := ValidateEmail(email);
    && params.Keys <= {UsernameField, InvalidUsername, PasswordField, InvalidPassword,
                       EmailField, InvalidEmail, UserAlreadyExists}
    && (InvalidUsername in params <==> u.None?)
    && (InvalidUsername in params ==> params[InvalidUsername] == Flag(true))
    && (UsernameField in params <==> u.Some?)
    && (u.Some? ==> params[UsernameField] == if existing then NoneVal else Text(username))
    && (UserAlreadyExists in params <==> u.Some? && existing)
    && (UserAlreadyExists in params ==> params[UserAlreadyExists] == Flag(true))
    && (InvalidPassword in params <==> p.None?)
    && (InvalidPassword in params ==> params[InvalidPassword] == Flag(true))
    && (PasswordField in params <==> p.Some?)
    && (p.Some? ==> params[PasswordField] == Text(password))
    && (InvalidEmail in params <==> e.None? && email != "")
    && (InvalidEmail in params ==> params[InvalidEmail] == Flag(true))
    && (EmailField in params <==> e.Some? || email == "")
    && (e.Some? ==> params[EmailField] == Text(email))
    && (email == "" ==> params[EmailField] == NoneVal)
  }

  /** The three field checks and the existing-user flag, filled in step by
      step as `validate_params` does; `existing` is what the lookup found. */
  method FillSignupParams(username: string, password: string, verify: string, email: string,
                          existing: bool)
    returns (params: map<Field, PVal>, valid: bool)
    ensures SignupParams(params, username, password, verify, email, existing)
    ensures valid <==> && ValidateUsername(username).Some?
                       && ValidatePassword(password, verify).Some?
                       && (ValidateEmail(email).Some? || email == "")
                       && !existing
  {
    params := map[];
    valid := true;

    var validUsername := ValidateUsername(username);
    if validUsername.Some? {
      params := params[UsernameField := Text(validUsername.value)];
    } else {
      params := params[InvalidUsername := Flag(true)];
      valid := false;
    }

    var validPassword := ValidatePassword(password, verify);
    if validPassword.Some? {
      params := params[PasswordField := Text(validPassword.value)];
    } else {
      params := params[InvalidPassword := Flag(true)];
      valid := false;
    }

    var validEmail := ValidateEmail(email);
    if email == "" { ShortEmailFails(email); }
    if validEmail.Some? || email == "" {
      params := params[EmailField := if validEmail.Some? then Text(validEmail.value) else NoneVal];
    } else {
      params := params[InvalidEmail := Flag(true)];
      valid := false;
    }

    if validUsername.Some? && existing {
      params := params[UserAlreadyExists := Flag(true)][UsernameField := NoneVal];
      valid := false;
    }
  }

  /** An accepted form carries the submitted username and password and the
      validated email, `None` when it was left empty. */
  lemma AcceptedParams(params: map<Field, PVal>, username: string, password: string,
                       verify: string, email: string)
    requires SignupParams(params, username, password, verify, email, false)
    requires ValidateUsername(username).Some? && ValidatePassword(password, verify).Some?
    requires ValidateEmail(email).Some? || email == ""
    ensures params[UsernameField] == Text(username) && params[PasswordField] == Text(password)
    ensures ValidateEmail(email) == if params[EmailField].Text? then Some(params[EmailField].s) else None
  {
    if email == "" { ShortEmailFails(email); }
  }

  /** A user just stored with a `make_pw_hash` record gets a session cookie
      that authenticates them. */
  lemma RegisteredUserSession(sha: Sha256, users: map<Key, User>, acc: Account,
                              username: string, password: string, draw: seq<int>)
    requires IsDraw(draw) && GetById(users, IntId(acc.id)) == Some(acc.user)
    requires acc.user.hashedPassword == MakePwHash(sha, username, password, None, draw)
    ensures SetUserHeader(acc).Ok?
    ensures GetUser(users, ValueSet(SetUserHeader(acc).value, CookieName)) == Ok(Some(acc))
  {
    MakePwHashLayout(sha, username, password, None, draw);
    CookieRoundTrip(users, acc);
  }

  /** The three field checks of `validate_params` pass; an empty email is
      allowed. */
  predicate FieldsAccepted(username: string, password: string, verify: string, email: string)
  {
    && ValidateUsername(username).Some?
    && ValidatePassword(password, verify).Some?
    && (ValidateEmail(email).Some? || email == "")
  }

  /** Whether the signup form is accepted once the existing-user check looks
      usernames up as intended. */
  predicate SignupAccepted(users: map<Key, User>, username: string, password: string,
                           verify: string, email: string)
  {
    FieldsAccepted(username, password, verify, email) && !UsernameTaken(users, username)
  }

  /* ---------------------------------------------------------------------
     Login
     --------------------------------------------------------------------- */

  /** `matches` is what `User.query(User.username == username).fetch()`
      returns: every stored user with that name, each once, in some order. */
  predicate IsUsernameQuery(users: map<Key, User>, username: string, matches: seq<Account>)
  {
    && (forall i :: 0 <= i < |matches| ==>
          GetById(users, IntId(matches[i].id)) == Some(matches[i].user)
          && matches[i].user.username == username)
    && (forall k :: k in users && users[k].username == username ==>
          exists i :: 0 <= i < |matches| && k == IntId(matches[i].id))
    && (forall i, j :: 0 <= i < j < |matches| ==> matches[i].id != matches[j].id)
  }

  /** `LoginPage.post`'s decision: the first match logs in when `valid_pw`
      accepts the password for it; `valid_pw` raises on a record without a
      comma. */
  function LoginDecision(sha: Sha256, username: string, password: string, matches: seq<Account>,
                         draw: seq<int>): (r: Result<Option<Account>>)
    requires IsDraw(draw)
    ensures r.Ok? && r.value.Some? <==>
      |matches| > 0 && ValidPw(sha, username, password, matches[0].user.hashedPassword, draw) == Ok(true)
    ensures r.Ok? && r.value.Some? ==> r.value.value == matches[0]
    ensures r.Err? <==> |matches| > 0 && ',' !in matches[0].user.hashedPassword
  {
    if |matches| == 0 then Ok(None)
    else
      var record := matches[0].user.hashedPassword;
      if ',' !in record then
        ValidPwNoComma(sha, username, password, record, draw);
        Err(IndexError)
      else
        assert Count(record, ',') > 0 by { NoCommaCount(record); }
        match ValidPw(sha, username, password, record, draw)
        case Err(e) => Err(e)
        case Ok(ok) => if ok then Ok(Some(matches[0])) else Ok(None)
  }

  lemma {:induction false} NoCommaCount(s: string)
    ensures Count(s, ',') == 0 <==> ',' !in s
  {
    if s != [] {
      NoCommaCount(s[1..]);
      assert s == [s[0]] + s[1..];
    }
  }

  /** A successful login yields an account whose `set_user` cookie
      authenticates that same account on the next request. */
  lemma LoginEstablishesSession(sha: Sha256, users: map<Key, User>, username: string, password: string,
                                matches: seq<Account>, draw: seq<int>)
    requires IsDraw(draw) && IsUsernameQuery(users, username, matches)
    requires LoginDecision(sha, username, password, matches, draw).Ok?
    requires LoginDecision(sha, username, password, matches, draw).value.Some?
    ensures var acc := LoginDecision(sha, username, password, matches, draw).value.value;
      && SetUserHeader(acc).Ok?
      && GetUser(users, ValueSet(SetUserHeader(acc).value, CookieName)) == Ok(Some(acc))
  {
    var acc := matches[0];
    ValidPwSound(sha, username, password, acc.user.hashedPassword, draw);
    CookieRoundTrip(users, acc);
  }

  /** With unique usernames a username query has at most one match. */
  lemma QueryOfUniqueName(users: map<Key, User>, username: string, matches: seq<Account>)
    requires UniqueUsernames(users) && IsUsernameQuery(users, username, matches)
    ensures |matches| <= 1
  {
    if |matches| > 1 {
      SameNameSameId(users, username, matches, 0, 1);
    }
  }

  lemma SameNameSameId(users: map<Key, User>, username: string, matches: seq<Account>, i: int, j: int)
    requires UniqueUsernames(users) && IsUsernameQuery(users, username, matches)
    requires 0 <= i < |matches| && 0 <= j < |matches|
    ensures matches[i].id == matches[j].id
  {
    assert GetById(users, IntId(matches[i].id)) == Some(matches[i].user);
    assert GetById(users, IntId(matches[j].id)) == Some(matches[j].user);
  }

  /** A user registered with password `pw` logs in with `pw`, and with
      another password only when its digest under the stored salt collides. */
  lemma LoginAfterRegistration(sha: Sha256, acc: Account, pw: string, other: string,
                               d1: seq<int>, d2: seq<int>)
    requires IsDraw(d1) && IsDraw(d2)
    requires acc.user.hashedPassword == MakePwHash(sha, acc.user.username, pw, None, d1)
    ensures LoginDecision(sha, acc.user.username, pw, [acc], d2) == Ok(Some(acc))
    ensures var salt := MakeSalt(d1); var name := acc.user.username;
      LoginDecision(sha, name, other, [acc], d2).Ok?
      && (LoginDecision(sha, name, other, [acc], d2).value.Some?
          <==> sha(name + other + salt) == sha(name + pw + salt))
  {
    var name := acc.user.username;
    var salt := MakeSalt(d1);
    ValidPwAcceptsFreshRecord(sha, name, pw, d1, d2);
    SaltHasNoComma(d1);
    assert MakePwHash(sha, name, pw, None, d1) == MakePwHash(sha, name, pw, Some(salt), d1);
    ValidPwOtherPassword(sha, name, pw, other, salt, d1, d2);
    MakePwHashLayout(sha, name, pw, None, d1);
    DigestHasNoComma(sha(name + pw + salt));
    assert acc.user.hashedPassword[64] == ',';
  }

  /* ---------------------------------------------------------------------
     Like and comment verdicts
     --------------------------------------------------------------------- */

  /** `LikeHandler.post`: a missing post comes first, then a missing user,
      then the author liking their own post. */
  function LikeVerdict(post: Option<BlogPost>, user: Option<Account>): (v: Verdict)
    ensures v == Refuse(NotFound) <==> post.None?
    ensures v == Refuse(Forbidden) <==> post.Some? && user.None?
    ensures v == Refuse(BadRequest) <==> post.Some? && user.Some? && user.value.id == post.value.authorId
    ensures v == Proceed <==> post.Some? && user.Some? && user.value.id != post.value.authorId
  {
    if post.None? then Refuse(NotFound)
    else if user.None? then Refuse(Forbidden)
    else if user.value.id == post.value.authorId then Refuse(BadRequest)
    else Proceed
  }

  /** `CommentHandler.post`: a missing user comes first, then a missing post,
      then empty text. */
  function CommentVerdict(post: Option<BlogPost>, user: Option<Account>, text: string): (v: Verdict)
    ensures v == Proceed <==> post.Some? && user.Some? && text != ""
    ensures v == Refuse(Forbidden) <==> user.None?
    ensures v == Refuse(NotFound) <==> user.Some? && post.None?
    ensures v == Refuse(BadRequest) <==> user.Some? && post.Some? && text == ""
  {
    if post.Some? && user.Some? && text != "" then Proceed
    else if user.None? then Refuse(Forbidden)
    else if post.None? then Refuse(NotFound)
    else Refuse(BadRequest)
  }

  /** A post's author can never like it, and nobody can like or comment on a
      post that is not stored. */
  lemma VerdictsNeedStoredPost(post: Option<BlogPost>, user: Option<Account>, text: string)
    ensures LikeVerdict(post, user).Proceed? ==> post.Some? && user.Some? && user.value.id != post.value.authorId
    ensures CommentVerdict(post, user, text).Proceed? ==> post.Some? && user.Some?
    ensures post.None? && user.None? ==>
      LikeVerdict(post, user) == Refuse(NotFound) && CommentVerdict(post, user, text) == Refuse(Forbidden)
  {
  }

  /* ---------------------------------------------------------------------
     The store
     --------------------------------------------------------------------- */

  /** Users are keyed by integer ids below `bound`. */
  predicate UserKeysBelow(users: map<Key, User>, bound: int)
  {
    forall k :: k in users ==> k.IntId? && 0 < k.n < bound
  }

  predicate KeysBelow<V>(m: map<int, V>, bound: int)
  {
    forall k :: k in m ==> 0 < k < bound
  }

  /** Every Like and Comment record refers to a stored post. */
  predicate PointAtPosts(posts: map<int, BlogPost>, likes: map<int, Like>, comments: map<int, Comment>)
  {
    && (forall k :: k in likes ==> likes[k].postId in posts)
    && (forall k :: k in comments ==> comments[k].postId in posts)
  }

  /** Each post's `likes` and `comments` equal the number of its records. */
  predicate CountersMatch(posts: map<int, BlogPost>, likes: map<int, Like>, comments: map<int, Comment>)
  {
    forall p :: p in posts ==>
      posts[p].likes == |LikesOf(likes, p)| && posts[p].comments == |CommentsOf(comments, p)|
  }

  class Datastore {
    var users: map<Key, User>
    var posts: map<int, BlogPost>
    var likes: map<int, Like>
    var comments: map<int, Comment>
    /** The id the store assigns to the next entity it creates. */
    var nextId: int

    /** Users live under integer ids; every Like and Comment points at a
        stored post; a post's counters equal the number of its Like and
        Comment records; a user likes a post at most once. */
    ghost predicate Valid()
      reads this
    {
      && 0 < nextId
      && UserKeysBelow(users, nextId)
      && KeysBelow(posts, nextId) && KeysBelow(likes, nextId) && KeysBelow(comments, nextId)
      && PointAtPosts(posts, likes, comments)
      && LikesUnique(likes)
      && CountersMatch(posts, likes, comments)
    }

    constructor ()
      ensures Valid()
      ensures users == map[] && posts == map[] && likes == map[] && comments == map[]
    {
      users, posts, likes, comments := map[], map[], map[], map[];
      nextId := 1;
    }

    /** In a store kept valid, no user lives under a string key, so the
        lookup `get_by_id(username)` never finds one. */
    lemma NameLookupMisses(name: string)
      requires Valid()
      ensures GetById(users, NameId(name)).None?
    {
    }

    /** `register_user`: stores a new user under a fresh id, with the record
        `make_pw_hash(username, password)` under a freshly drawn salt. */
    method RegisterUser(sha: Sha256, username: string, password: string, email: Option<string>,
                        draw: seq<int>)
      returns (acc: Account)
      requires Valid() && IsDraw(draw)
      modifies this
      ensures Valid()
      ensures acc == Account(old(nextId), User(username, MakePwHash(sha, username, password, None, draw), email))
      ensures IntId(acc.id) !in old(users)
      ensures users == old(users)[IntId(acc.id) := acc.user] && nextId == old(nextId) + 1
      ensures posts == old(posts) && likes == old(likes) && comments == old(comments)
    {
      var hashedPassword := MakePwHash(sha, username, password, None, draw);
      acc := Account(nextId, User(username, hashedPassword, email));
      users := users[IntId(nextId) := acc.user];
      nextId := nextId + 1;
    }

    /** `validate_params` as written: the existing-user check looks the
        username up as a key id. */
    method ValidateParams(username: string, password: string, verify: string, email: string)
      returns (params: map<Field, PVal>, valid: bool)
      ensures SignupParams(params, username, password, verify, email, GetById(users, NameId(username)).Some?)
      ensures valid <==> && ValidateUsername(username).Some?
                         && ValidatePassword(password, verify).Some?
                         && (ValidateEmail(email).Some? || email == "")
                         && GetById(users, NameId(username)).None?
    {
      var existing := false;
      if ValidateUsername(username).Some? {
        existing := GetById(users, NameId(username)).Some?;
      }
      params, valid := FillSignupParams(username, password, verify, email, existing);
    }

    /** `validate_params` with the existing-user check made by username, as
        the flag `user_already_exists` intends. */
    method ValidateParamsByUsername(username: string, password: string, verify: string, email: string)
      returns (params: map<Field, PVal>, valid: bool)
      ensures SignupParams(params, username, password, verify, email, UsernameTaken(users, username))
      ensures valid <==> SignupAccepted(users, username, password, verify, email)
    {
      var existing := false;
      if ValidateUsername(username).Some? {
        existing := UsernameTaken(users, username);
      }
      params, valid := FillSignupParams(username, password, verify, email, existing);
    }

    /** The accepted branch of `SignupPage.post`: `register_user`, then
        `set_user`, whose header authenticates the new user. Usernames stay
        unique exactly when the name was free. */
    method RegisterAndSetUser(sha: Sha256, username: string, password: string, email: Option<string>,
                              draw: seq<int>)
      returns (acc: Account, header: string)
      requires Valid() && IsDraw(draw)
      modifies this
      ensures Valid()
      ensures acc == Account(old(nextId), User(username, MakePwHash(sha, username, password, None, draw), email))
      ensures users == old(users)[IntId(acc.id) := acc.user] && nextId == old(nextId) + 1
      ensures posts == old(posts) && likes == old(likes) && comments == old(comments)
      ensures UniqueUsernames(old(users)) ==>
        (UniqueUsernames(users) <==> !UsernameTaken(old(users), username))
      ensures GetUser(users, ValueSet(header, CookieName)) == Ok(Some(acc))
    {
      ghost var before := users;
      acc := RegisterUser(sha, username, password, email, draw);
      if UniqueUsernames(before) {
        RegisterKeepsUsernamesUnique(before, IntId(acc.id), acc.user);
      }
      RegisteredUserSession(sha, users, acc, username, password, draw);
      header := SetUserHeader(acc).value;
    }

    /** `SignupPage.post` as written: an accepted form registers the user,
        sets the session cookie and redirects to `/welcome`; otherwise the
        form is shown again with its flags. Returns the `Set-Cookie` header,
        if any. The existing-user lookup never finds anyone, so the form is
        accepted on its three field checks alone, a taken username included,
        and the `user_already_exists` flag is never shown. */
    method Signup(sha: Sha256, username: string, password: string, verify: string, email: string,
                  draw: seq<int>)
      returns (out: Outcome, setCookie: Option<string>)
      requires Valid() && IsDraw(draw)
      modifies this
      ensures Valid()
      ensures posts == old(posts) && likes == old(likes) && comments == old(comments)
      ensures FieldsAccepted(username, password, verify, email) ==>
        var acc := Account(old(nextId), User(username, MakePwHash(sha, username, password, None, draw),
                                             ValidateEmail(email)));
        && users == old(users)[IntId(acc.id) := acc.user]
        && out == Redirect("/welcome")
        && setCookie.Some?
        && GetUser(users, ValueSet(setCookie.value, CookieName)) == Ok(Some(acc))
        && (UniqueUsernames(old(users)) ==>
              (UniqueUsernames(users) <==> !UsernameTaken(old(users), username)))
      ensures !FieldsAccepted(username, password, verify, email) ==>
        && users == old(users) && nextId == old(nextId) && setCookie == None
        && out.Render? && out.template == "signup.html"
        && SignupParams(out.params, username, password, verify, email, false)
    {
      NameLookupMisses(username);
      var params, valid := ValidateParams(username, password, verify, email);
      if valid {
        AcceptedParams(params, username, password, verify, email);
        var mail := if params[EmailField].Text? then Some(params[EmailField].s) else None;
        var acc, header := RegisterAndSetUser(sha, params[UsernameField].s, params[PasswordField].s, mail, draw);
        out := Redirect("/welcome");
        setCookie := Some(header);
      } else {
        out := Render("signup.html", params);
        setCookie := None;
      }
    }

    /** `SignupPage.post` with the existing-user check made by username: a
        taken name renders the form with `user_already_exists`, so usernames
        stay unique. */
    method SignupByUsername(sha: Sha256, username: string, password: string, verify: string, email: string,
                            draw: seq<int>)
      returns (out: Outcome, setCookie: Option<string>)
      requires Valid() && IsDraw(draw)
      modifies this
      ensures Valid()
      ensures posts == old(posts) && likes == old(likes) && comments == old(comments)
      ensures UniqueUsernames(old(users)) ==> UniqueUsernames(users)
      ensures SignupAccepted(old(users), username, password, verify, email) ==>
        var acc := Account(old(nextId), User(username, MakePwHash(sha, username, password, None, draw),
                                             ValidateEmail(email)));
        && users == old(users)[IntId(acc.id) := acc.user]
        && out == Redirect("/welcome")
        && setCookie.Some?
        && GetUser(users, ValueSet(setCookie.value, CookieName)) == Ok(Some(acc))
      ensures !SignupAccepted(old(users), username, password, verify, email) ==>
        && users == old(users) && nextId == old(nextId) && setCookie == None
        && out.Render? && out.template == "signup.html"
        && SignupParams(out.params, username, password, verify, email, UsernameTaken(old(users), username))
    {
      var params, valid := ValidateParamsByUsername(username, password, verify, email);
      if valid {
        AcceptedParams(params, username, password, verify, email);
        var mail := if params[EmailField].Text? then Some(params[EmailField].s) else None;
        var acc, header := RegisterAndSetUser(sha, params[UsernameField].s, params[PasswordField].s, mail, draw);
        out := Redirect("/welcome");
        setCookie := Some(header);
      } else {
        out := Render("signup.html", params);
        setCookie := None;
      }
    }

    /** `NewPostPage.post`: a signed-in user with a title and a text stores a
        new post and is redirected to it; a missing field shows the form
        again. Without a session the handler redirects to `/signup` and runs
        on, so filled-in fields then reach `user.username` on `None`. */
    method NewPost(cookie: Option<string>, title: string, text: string) returns (out: Outcome)
      requires Valid()
      modifies this
      ensures Valid()
      ensures users == old(users) && likes == old(likes) && comments == old(comments)
      ensures GetUser(old(users), cookie).Err? ==>
        out == Raised(GetUser(old(users), cookie).error) && posts == old(posts)
      ensures GetUser(old(users), cookie) == Ok(None) ==>
        posts == old(posts)
        && out == if title != "" && text != "" then Raised(AttributeError) else Redirect("/signup")
      ensures GetUser(old(users), cookie).Ok? && GetUser(old(users), cookie).value.Some? ==>
        var acc := GetUser(old(users), cookie).value.value;
        if title != "" && text != "" then
          && old(nextId) !in old(posts)
          && posts == old(posts)[old(nextId) := NewBlogPost(title, text, acc.user.username, acc.id)]
          && out == Redirect("/posts/" + DecimalString(old(nextId)))
        else
          && posts == old(posts)
          && out == Render("newpost.html", map[MissingTitle := Flag(title == ""), MissingText := Flag(text == "")])
    {
      var session := GetUser(users, cookie);
      if session.Err? {
        return Raised(session.error);
      }
      var user := session.value;
      var params := map[MissingTitle := Flag(title == ""), MissingText := Flag(text == "")];
      if title != "" && text != "" {
        if user.None? {
          return Raised(AttributeError);
        }
        var id := nextId;
        var post := NewBlogPost(title, text, user.value.user.username, user.value.id);
        ghost var oldPosts := posts;
        assert id !in posts;
        forall k | k in likes ensures likes[k].postId != id { }
        forall k | k in comments ensures comments[k].postId != id { }
        assert LikesOf(likes, id) == {};
        assert CommentsOf(comments, id) == {};
        posts := posts[id := post];
        nextId := nextId + 1;
        forall p | p in posts
          ensures posts[p].likes == |LikesOf(likes, p)| && posts[p].comments == |CommentsOf(comments, p)|
        {
          if p != id { assert posts[p] == oldPosts[p]; }
        }
        out := Redirect("/posts/" + DecimalString(id));
      } else if user.None? {
        out := Redirect("/signup");
      } else {
        out := Render("newpost.html", params);
      }
    }

    /** `LikeHandler.post` for the route `/posts/<digits>/like`: on `Proceed`
        the like of this user for this post is toggled, and the post's
        `likes` counter moves with it. */
    method LikePost(postIdText: string, cookie: Option<string>) returns (out: Outcome)
      requires Valid() && IsNumeral(postIdText)
      modifies this
      ensures Valid()
      ensures users == old(users) && comments == old(comments)
      ensures GetUser(old(users), cookie).Err? ==>
        out == Raised(GetUser(old(users), cookie).error) && posts == old(posts) && likes == old(likes)
      ensures GetUser(old(users), cookie).Ok? ==>
        var id := DigitsValue(postIdText);
        var user := GetUser(old(users), cookie).value;
        match LikeVerdict(GetPost(old(posts), id), user)
        case Refuse(code) => out == Status(code) && posts == old(posts) && likes == old(likes)
        case Proceed =>
          var like := Like(id, user.value.id);
          var delta := if like in old(LikeSet(likes)) then -1 else 1;
          && out == Redirect("/posts/" + postIdText)
          && LikeSet(likes) == Toggled(old(LikeSet(likes)), like)
          && posts == old(posts)[id := old(posts)[id].(likes := old(posts)[id].likes + delta)]
    {
      var id := DigitsValue(postIdText);
      var session := GetUser(users, cookie);
      if session.Err? {
        return Raised(session.error);
      }
      var user := session.value;
      var verdict := LikeVerdict(GetPost(posts, id), user);
      if verdict.Refuse? {
        return Status(verdict.code);
      }
      var like := Like(id, user.value.id);
      ghost var oldLikes := likes;
      ghost var oldPosts := posts;
      if like in LikeSet(likes) {
        var k :| k in likes && likes[k] == like;
        likes := likes - {k};
        posts := posts[id := posts[id].(likes := posts[id].likes - 1)];
        LikeSetRemove(oldLikes, k);
        forall p | p in posts ensures posts[p].likes == |LikesOf(likes, p)| {
          LikesOfRemove(oldLikes, k, p);
        }
      } else {
        var k := nextId;
        likes := likes[k := like];
        nextId := nextId + 1;
        posts := posts[id := posts[id].(likes := posts[id].likes + 1)];
        LikeSetInsert(oldLikes, k, like);
        forall p | p in posts ensures posts[p].likes == |LikesOf(likes, p)| {
          LikesOfInsert(oldLikes, k, like, p);
        }
      }
      out := Redirect("/posts/" + postIdText);
    }

    /** Two like requests from the same session on the same post leave the
        like set and every counter as they were. */
    method LikeTwice(postIdText: string, cookie: Option<string>) returns (first: Outcome, second: Outcome)
      requires Valid() && IsNumeral(postIdText)
      modifies this
      ensures Valid()
      ensures first == second
      ensures LikeSet(likes) == old(LikeSet(likes)) && posts == old(posts)
      ensures users == old(users) && comments == old(comments)
    {
      ghost var values0 := LikeSet(likes);
      first := LikePost(postIdText, cookie);
      second := LikePost(postIdText, cookie);
      var id := DigitsValue(postIdText);
      var session := GetUser(users, cookie);
      if session.Ok? && LikeVerdict(GetPost(posts, id), session.value).Proceed? {
        ToggleInvolutive(values0, Like(id, session.value.value.id));
      }
    }

    /** `CommentHandler.post` for the route `/posts/<digits>/comment`: on
        `Proceed` one Comment is stored under a fresh id and the post's
        `comments` counter goes up by exactly one. */
    method CommentPost(postIdText: string, cookie: Option<string>, text: string) returns (out: Outcome)
      requires Valid() && IsNumeral(postIdText)
      modifies this
      ensures Valid()
      ensures users == old(users) && likes == old(likes)
      ensures GetUser(old(users), cookie).Err? ==>
        out == Raised(GetUser(old(users), cookie).error) && posts == old(posts) && comments == old(comments)
      ensures GetUser(old(users), cookie).Ok? ==>
        var id := DigitsValue(postIdText);
        var user := GetUser(old(users), cookie).value;
        match CommentVerdict(GetPost(old(posts), id), user, text)
        case Refuse(code) => out == Status(code) && posts == old(posts) && comments == old(comments)
        case Proceed =>
          && out == Redirect("/posts/" + postIdText)
          && old(nextId) !in old(comments)
          && comments == old(comments)[old(nextId) := Comment(id, user.value.id, user.value.user.username, text)]
          && posts == old(posts)[id := old(posts)[id].(comments := old(posts)[id].comments + 1)]
    {
      var id := DigitsValue(postIdText);
      var session := GetUser(users, cookie);
      if session.Err? {
        return Raised(session.error);
      }
      var user := session.value;
      var verdict := CommentVerdict(GetPost(posts, id), user, text);
      if verdict.Refuse? {
        return Status(verdict.code);
      }
      var comment := Comment(id, user.value.id, user.value.user.username, text);
      ghost var oldComments := comments;
      var k := nextId;
      comments := comments[k := comment];
      nextId := nextId + 1;
      posts := posts[id := posts[id].(comments := posts[id].comments + 1)];
      forall p | p in posts ensures posts[p].comments == |CommentsOf(comments, p)| {
        CommentsOfInsert(oldComments, k, comment, p);
      }
      out := Redirect("/posts/" + postIdText);
    }
  }
}
