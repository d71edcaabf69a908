/** The session cookie of main.py's `Handler`: `set_user` writes
    `user=<id>|<digest part>; Path=/`, `clear_user` writes `user=; Path=/`,
    and `get_user` reads the `user` value back and checks it against the
    stored digest record. */
module Session {
  import opened Wrappers
  import opened PyStr
  import opened Crypto
  import opened Models
  import opened SetCookie

  const CookieName: string := "user"

  /** `set_user(user)`: the `Set-Cookie` header text; `unsalt` raises on a
      stored record without exactly one comma. */
  function SetUserHeader(acc: Account): (r: Result<string>)
    ensures r.Err? <==> Count(acc.user.hashedPassword, ',') != 1
    ensures r.Err? ==> r.error == ValueError
  {
    match Unsalt(acc.user.hashedPassword)
    case Err(e) => Err(e)
    case Ok(hashPart) => Ok(CookieName + "=" + DecimalString(acc.id) + "|" + hashPart + "; Path=/")
  }

  /** `clear_user()`: the header that overwrites the cookie with an empty
      value, kept with path `/`. */
  function ClearUserHeader(): (h: string)
    ensures ParseSetCookie(h) == Some(Cookie(CookieName, "", [("Path", "/")]))
  {
    ParseNameValuePath(CookieName, "");
    assert CookieName + "=" + "" == CookieName + "=";
    CookieName + "=" + "; Path=/"
  }

  /** `User.get_by_id(key)` */
  function GetById(users: map<Key, User>, key: Key): Option<User>
  {
    if key in users then Some(users[key]) else None
  }

  /** `get_user()` on the value of the request's `user` cookie, if any.
      The cookie value is split on `|` into exactly two parts (else the
      unpack raises `ValueError`), a non-empty id part goes through `int()`,
      `user.hashed_password` on a missing user raises `AttributeError`, and
      the user is returned only when the hash part equals `unsalt` of its
      stored record. */
  function GetUser(users: map<Key, User>, cookie: Option<string>): (r: Result<Option<Account>>)
    ensures r.Ok? && r.value.Some? ==>
      var acc := r.value.value;
      && GetById(users, IntId(acc.id)) == Some(acc.user)
      && cookie.Some? && |Split(cookie.value, '|')| == 2
      && ParseInt(Split(cookie.value, '|')[0]) == Ok(acc.id)
      && Unsalt(acc.user.hashedPassword) == Ok(Split(cookie.value, '|')[1])
  {
    if cookie.None? || cookie.value == "" then Ok(None)
    else
      var parts := Split(cookie.value, '|');
      if |parts| != 2 then Err(ValueError)
      else if parts[0] == "" then Ok(None)
      else match ParseInt(parts[0])
        case Err(e) => Err(e)
        case Ok(id) =>
          match GetById(users, IntId(id))
          case None => Err(AttributeError)
          case Some(user) =>
            match Unsalt(user.hashedPassword)
            case Err(e) => Err(e)
            case Ok(stored) => if parts[1] == stored then Ok(Some(Account(id, user))) else Ok(None)
  }

  /** What `set_user` leaves in the browser's `user` cookie. */
  function SessionValue(id: int, hashPart: string): string
  {
    DecimalString(id) + "|" + hashPart
  }

  /* ---------------------------------------------------------------------
     Properties
     --------------------------------------------------------------------- */

  lemma HexHasNoCookieDelimiters(h: string)
    requires IsHexDigest(h)
    ensures '|' !in h && ';' !in h && ',' !in h && '=' !in h
  {
  }

  lemma DecimalHasNoCookieDelimiters(n: int)
    ensures var d := DecimalString(n);
      '|' !in d && ';' !in d && d != [] && d[0] !in Wsp && d[|d| - 1] !in Wsp
  {
  }

  /** `set_user` fails exactly when `unsalt` does; otherwise the browser keeps
      `<id>|<digest part>` under `user` with path `/`: the salt after the
      comma never reaches the cookie. */
  lemma SetUserCookieContents(acc: Account)
    requires IsDigestRecord(acc.user.hashedPassword)
    ensures var parts := Split(acc.user.hashedPassword, ',');
      && acc.user.hashedPassword == parts[0] + "," + parts[1]
      && SetUserHeader(acc).Ok?
      && ParseSetCookie(SetUserHeader(acc).value)
         == Some(Cookie(CookieName, SessionValue(acc.id, parts[0]), [("Path", "/")]))
  {
    var parts := Split(acc.user.hashedPassword, ',');
    SplitPairInverse(acc.user.hashedPassword, ',');
    var v := SessionValue(acc.id, parts[0]);
    DecimalHasNoCookieDelimiters(acc.id);
    HexHasNoCookieDelimiters(parts[0]);
    assert ';' !in v by {
      forall k | 0 <= k < |v| ensures v[k] != ';' {
        var d := DecimalString(acc.id);
        if k < |d| { assert v[k] == d[k]; }
        else if k > |d| { assert v[k] == parts[0][k - |d| - 1]; }
      }
    }
    assert v[|v| - 1] == parts[0][63];
    assert SetUserHeader(acc).value == CookieName + "=" + v + "; Path=/";
    ParseNameValuePath(CookieName, v);
  }

  /** Round trip: the cookie `set_user` writes for a stored user with a
      well-formed record makes `get_user` return that same user. */
  lemma CookieRoundTrip(users: map<Key, User>, acc: Account)
    requires GetById(users, IntId(acc.id)) == Some(acc.user)
    requires IsDigestRecord(acc.user.hashedPassword)
    ensures SetUserHeader(acc).Ok?
    ensures GetUser(users, ValueSet(SetUserHeader(acc).value, CookieName)) == Ok(Some(acc))
  {
    SetUserCookieContents(acc);
    var hashPart := Split(acc.user.hashedPassword, ',')[0];
    SessionResolves(users, acc.id, hashPart);
  }

  /** A session value resolves to the stored user exactly when its hash part
      is the digest part of that user's current record. */
  lemma SessionResolves(users: map<Key, User>, id: int, hashPart: string)
    requires IntId(id) in users && IsDigestRecord(users[IntId(id)].hashedPassword)
    requires '|' !in hashPart
    ensures var digest := Split(users[IntId(id)].hashedPassword, ',')[0];
      GetUser(users, Some(SessionValue(id, hashPart)))
        == if hashPart == digest then Ok(Some(Account(id, users[IntId(id)]))) else Ok(None)
  {
    var d := DecimalString(id);
    DecimalHasNoCookieDelimiters(id);
    SplitPair(d, hashPart, '|');
    DecimalRoundTrip(id);
  }

  /** `clear_user` leaves an empty `user` cookie, which `get_user` treats as
      no session. */
  lemma ClearedCookieIsAnonymous(users: map<Key, User>)
    ensures ValueSet(ClearUserHeader(), CookieName) == Some("")
    ensures GetUser(users, ValueSet(ClearUserHeader(), CookieName)) == Ok(None)
  {
  }

  /** The cases in which `get_user` returns `None` without raising. */
  lemma GetUserAnonymous(users: map<Key, User>, cookie: Option<string>)
    ensures cookie == None || cookie == Some("") ==> GetUser(users, cookie) == Ok(None)
    ensures cookie.Some? && |Split(cookie.value, '|')| == 2 && Split(cookie.value, '|')[0] == ""
            ==> GetUser(users, cookie) == Ok(None)
    ensures cookie.Some? && |Split(cookie.value, '|')| == 2
            && ParseInt(Split(cookie.value, '|')[0]).Ok?
            && GetById(users, IntId(ParseInt(Split(cookie.value, '|')[0]).value)).Some?
            && Unsalt(users[IntId(ParseInt(Split(cookie.value, '|')[0]).value)].hashedPassword).Ok?
            && Unsalt(users[IntId(ParseInt(Split(cookie.value, '|')[0]).value)].hashedPassword).value
               != Split(cookie.value, '|')[1]
            ==> GetUser(users, cookie) == Ok(None)
  {
  }

  /** The cases in which `get_user` raises instead of returning `None`. */
  lemma GetUserRaises(users: map<Key, User>, value: string)
    requires value != ""
    ensures |Split(value, '|')| != 2 ==> GetUser(users, Some(value)) == Err(ValueError)
    ensures |Split(value, '|')| == 2 && Split(value, '|')[0] != "" && ParseInt(Split(value, '|')[0]).Err?
            ==> GetUser(users, Some(value)) == Err(ValueError)
    ensures |Split(value, '|')| == 2 && Split(value, '|')[0] != "" && ParseInt(Split(value, '|')[0]).Ok?
            && IntId(ParseInt(Split(value, '|')[0]).value) !in users
            ==> GetUser(users, Some(value)) == Err(AttributeError)
  {
  }

  /** Changing a user's stored record to one with another digest part
      invalidates every cookie issued for the old record. */
  lemma StaleCookieRejected(users: map<Key, User>, acc: Account, newRecord: string)
    requires GetById(users, IntId(acc.id)) == Some(acc.user)
    requires IsDigestRecord(acc.user.hashedPassword) && IsDigestRecord(newRecord)
    requires Split(newRecord, ',')[0] != Split(acc.user.hashedPassword, ',')[0]
    ensures SetUserHeader(acc).Ok?
    ensures var changed := users[IntId(acc.id) := acc.user.(hashedPassword := newRecord)];
      GetUser(changed, ValueSet(SetUserHeader(acc).value, CookieName)) == Ok(None)
  {
    SetUserCookieContents(acc);
    var hashPart := Split(acc.user.hashedPassword, ',')[0];
    var changed := users[IntId(acc.id) := acc.user.(hashedPassword := newRecord)];
    SessionResolves(changed, acc.id, hashPart);
  }
}
