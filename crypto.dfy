/** crypto.py: the salted password digest record `"<hex digest>,<salt>"`.

    SHA-256 itself is not modelled: every operation takes the digest function
    as a parameter `sha`, of which only the shape of its output is known (64
    lower-case hexadecimal characters, as `hexdigest()` produces). The random
    draw of `make_salt` is an input: the 20 distinct positions that
    `random.sample` picks out of the 52 ASCII letters. */
module Crypto {
  import opened Wrappers
  import opened PyStr

  predicate IsHexDigit(c: char) { '0' <= c <= '9' || 'a' <= c <= 'f' }

  /** The text `hashlib.sha256(...).hexdigest()` returns. */
  predicate IsHexDigest(h: string)
  {
    |h| == 64 && forall i :: 0 <= i < |h| ==> IsHexDigit(h[i])
  }

  const ZeroDigest: string := seq(64, i => '0')

  /** A digest function: any function whose every output is a hex digest. */
  type Sha256 = f: string -> string | forall s :: IsHexDigest(f(s))
    witness (s: string) => ZeroDigest

  /* ---------------------------------------------------------------------
     make_salt
     --------------------------------------------------------------------- */

  const SaltLength: nat := 20

  /** `string.ascii_letters`: "a" to "z" followed by "A" to "Z". */
  function Letter(i: nat): (c: char)
    requires i < 52
    ensures 'a' <= c <= 'z' || 'A' <= c <= 'Z'
  {
    if i < 26 then (('a' as int) + i) as char else (('A' as int) + i - 26) as char
  }

  predicate IsAsciiLetter(c: char) { 'a' <= c <= 'z' || 'A' <= c <= 'Z' }

  /** What `random.sample(string.ascii_letters, 20)` chooses: 20 positions of
      the population, pairwise distinct because it samples without replacement. */
  predicate IsDraw(draw: seq<int>)
  {
    && |draw| == SaltLength
    && (forall i :: 0 <= i < |draw| ==> 0 <= draw[i] < 52)
    && (forall i, j :: 0 <= i < j < |draw| ==> draw[i] != draw[j])
  }

  /** `make_salt()`: the letters at the drawn positions, joined. */
  function MakeSalt(draw: seq<int>): (salt: string)
    requires IsDraw(draw)
    ensures |salt| == SaltLength
    ensures forall i :: 0 <= i < |salt| ==> IsAsciiLetter(salt[i])
    ensures forall i, j :: 0 <= i < j < |salt| ==> salt[i] != salt[j]
  {
    seq(SaltLength, i requires 0 <= i < SaltLength => Letter(draw[i]))
  }

  /** Different draws give different salts. */
  lemma MakeSaltInjective(d1: seq<int>, d2: seq<int>)
    requires IsDraw(d1) && IsDraw(d2) && d1 != d2
    ensures MakeSalt(d1) != MakeSalt(d2)
  {
    var i :| 0 <= i < SaltLength && d1[i] != d2[i];
    assert MakeSalt(d1)[i] != MakeSalt(d2)[i];
  }

  /** A salt contains no comma. */
  lemma SaltHasNoComma(draw: seq<int>)
    requires IsDraw(draw)
    ensures ',' !in MakeSalt(draw) && MakeSalt(draw) != ""
  {
  }

  lemma DigestHasNoComma(h: string)
    requires IsHexDigest(h)
    ensures ',' !in h
  {
  }

  /* ---------------------------------------------------------------------
     make_pw_hash, unsalt, valid_pw
     --------------------------------------------------------------------- */

  /** Python truthiness of the `salt` argument: `None` and `""` are false. */
  predicate IsTruthy(salt: Option<string>) { salt.Some? && salt.value != "" }

  /** The salt `make_pw_hash` actually uses. */
  function SaltUsed(salt: Option<string>, draw: seq<int>): string
    requires IsDraw(draw)
  {
    if IsTruthy(salt) then salt.value else MakeSalt(draw)
  }

  /** `make_pw_hash(name, pw, salt)`: a hex digest, a comma, and the salt used. */
  function MakePwHash(sha: Sha256, name: string, pw: string, salt: Option<string>, draw: seq<int>): (record: string)
    requires IsDraw(draw)
    ensures |record| == 65 + |SaltUsed(salt, draw)|
    ensures IsHexDigest(record[..64]) && record[64] == ','
    ensures record[65..] == SaltUsed(salt, draw)
  {
    var s := SaltUsed(salt, draw);
    sha(name + pw + s) + "," + s
  }

  /** `unsalt(record)`: the two-way unpack of `record.split(',')` raises
      `ValueError` unless there are exactly two pieces. */
  function Unsalt(record: string): (r: Result<string>)
    ensures r.Err? <==> Count(record, ',') != 1
    ensures r.Err? ==> r.error == ValueError
    ensures r.Ok? ==> ',' !in r.value && r.value + "," <= record
  {
    var parts := Split(record, ',');
    if |parts| != 2 then Err(ValueError)
    else
      SplitPairInverse(record, ',');
      Ok(parts[0])
  }

  /** `valid_pw(name, pw, record)`: `record.split(',')[1]` raises `IndexError`
      when there is no comma. */
  function ValidPw(sha: Sha256, name: string, pw: string, record: string, draw: seq<int>): (r: Result<bool>)
    requires IsDraw(draw)
    ensures r.Err? <==> Count(record, ',') == 0
    ensures r.Err? ==> r.error == IndexError
    ensures r == Ok(true) ==> Count(record, ',') == 1 && Unsalt(record).Ok?
  {
    var parts := Split(record, ',');
    if |parts| < 2 then Err(IndexError)
    else
      MakePwHashLayout(sha, name, pw, Some(parts[1]), draw);
      Ok(record == MakePwHash(sha, name, pw, Some(parts[1]), draw))
  }

  /** A stored record of the shape `make_pw_hash` writes. */
  predicate IsDigestRecord(record: string)
  {
    var parts := Split(record, ',');
    |parts| == 2 && IsHexDigest(parts[0])
  }

  /* ---------------------------------------------------------------------
     Properties
     --------------------------------------------------------------------- */

  /** The record is the digest of `name + pw + salt` and the salt, around one
      comma; an explicit non-empty salt is kept verbatim, a missing or empty
      one is replaced by a fresh 20-letter salt. */
  lemma MakePwHashLayout(sha: Sha256, name: string, pw: string, salt: Option<string>, draw: seq<int>)
    requires IsDraw(draw)
    requires IsTruthy(salt) ==> ',' !in salt.value
    ensures var s := SaltUsed(salt, draw);
      && (IsTruthy(salt) ==> s == salt.value)
      && (!IsTruthy(salt) ==> |s| == SaltLength && forall i :: 0 <= i < |s| ==> IsAsciiLetter(s[i]))
      && Split(MakePwHash(sha, name, pw, salt, draw), ',') == [sha(name + pw + s), s]
      && IsDigestRecord(MakePwHash(sha, name, pw, salt, draw))
  {
    var s := SaltUsed(salt, draw);
    if !IsTruthy(salt) { SaltHasNoComma(draw); }
    DigestHasNoComma(sha(name + pw + s));
    SplitPair(sha(name + pw + s), s, ',');
  }

  /** `unsalt` recovers the digest part of a record `make_pw_hash` wrote. */
  lemma UnsaltRoundTrip(sha: Sha256, name: string, pw: string, salt: Option<string>, draw: seq<int>)
    requires IsDraw(draw)
    requires IsTruthy(salt) ==> ',' !in salt.value
    ensures Unsalt(MakePwHash(sha, name, pw, salt, draw)) == Ok(sha(name + pw + SaltUsed(salt, draw)))
  {
    MakePwHashLayout(sha, name, pw, salt, draw);
  }

  /** `unsalt` fails exactly when the record does not hold exactly one comma. */
  lemma UnsaltFailure(record: string)
    ensures Unsalt(record).Err? <==> Count(record, ',') != 1
    ensures Unsalt(record).Ok? ==> ',' !in Unsalt(record).value
  {
  }

  /** A record `make_pw_hash` wrote under an explicit salt verifies, whatever
      draw is at hand: the stored salt is reused, not regenerated. */
  lemma ValidPwAcceptsOwnRecord(sha: Sha256, name: string, pw: string, salt: string, d1: seq<int>, d2: seq<int>)
    requires IsDraw(d1) && IsDraw(d2)
    requires salt != "" && ',' !in salt
    ensures ValidPw(sha, name, pw, MakePwHash(sha, name, pw, Some(salt), d1), d2) == Ok(true)
  {
    MakePwHashLayout(sha, name, pw, Some(salt), d1);
  }

  /** A record written with a freshly drawn salt verifies too. */
  lemma ValidPwAcceptsFreshRecord(sha: Sha256, name: string, pw: string, d1: seq<int>, d2: seq<int>)
    requires IsDraw(d1) && IsDraw(d2)
    ensures ValidPw(sha, name, pw, MakePwHash(sha, name, pw, None, d1), d2) == Ok(true)
  {
    SaltHasNoComma(d1);
    MakePwHashLayout(sha, name, pw, None, d1);
    ValidPwAcceptsOwnRecord(sha, name, pw, MakeSalt(d1), d1, d2);
    assert MakePwHash(sha, name, pw, None, d1) == MakePwHash(sha, name, pw, Some(MakeSalt(d1)), d1);
  }

  /** Another password verifies against a record exactly when its digest under
      the same salt is the same. */
  lemma ValidPwOtherPassword(sha: Sha256, name: string, pw: string, other: string, salt: string, d1: seq<int>, d2: seq<int>)
    requires IsDraw(d1) && IsDraw(d2)
    requires salt != "" && ',' !in salt
    ensures ValidPw(sha, name, other, MakePwHash(sha, name, pw, Some(salt), d1), d2)
         == Ok(sha(name + other + salt) == sha(name + pw + salt))
  {
    MakePwHashLayout(sha, name, pw, Some(salt), d1);
    var a, b := sha(name + other + salt), sha(name + pw + salt);
    if a != b {
      assert (a + "," + salt)[..64] == a;
      assert (b + "," + salt)[..64] == b;
    }
  }

  /** A record with no comma raises instead of failing to verify. */
  lemma ValidPwNoComma(sha: Sha256, name: string, pw: string, record: string, draw: seq<int>)
    requires IsDraw(draw)
    requires ',' !in record
    ensures ValidPw(sha, name, pw, record, draw) == Err(IndexError)
  {
    SplitWithoutSeparator(record, ',');
  }

  /** A record whose salt part is empty never verifies: `make_pw_hash` then
      draws a new salt, which cannot be the empty suffix. */
  lemma ValidPwEmptySalt(sha: Sha256, name: string, pw: string, record: string, draw: seq<int>)
    requires IsDraw(draw)
    requires |Split(record, ',')| >= 2 && Split(record, ',')[1] == ""
    ensures ValidPw(sha, name, pw, record, draw) == Ok(false)
  {
    if record == MakePwHash(sha, name, pw, Some(""), draw) {
      MakePwHashLayout(sha, name, pw, Some(""), draw);
      SaltHasNoComma(draw);
      assert false;
    }
  }

  /** A successful check means the record has exactly one comma and is the
      digest of `name + pw + salt` followed by that salt. */
  lemma ValidPwSound(sha: Sha256, name: string, pw: string, record: string, draw: seq<int>)
    requires IsDraw(draw)
    requires ValidPw(sha, name, pw, record, draw) == Ok(true)
    ensures |Split(record, ',')| == 2
    ensures var salt := Split(record, ',')[1];
      salt != "" && record == sha(name + pw + salt) + "," + salt
    ensures IsDigestRecord(record)
  {
    var salt := Split(record, ',')[1];
    if salt == "" {
      ValidPwEmptySalt(sha, name, pw, record, draw);
    } else {
      MakePwHashLayout(sha, name, pw, Some(salt), draw);
    }
  }

  /** Two registrations with different draws store different records. */
  lemma FreshRecordsDiffer(sha: Sha256, name: string, pw: string, d1: seq<int>, d2: seq<int>)
    requires IsDraw(d1) && IsDraw(d2) && d1 != d2
    ensures MakePwHash(sha, name, pw, None, d1) != MakePwHash(sha, name, pw, None, d2)
  {
    MakeSaltInjective(d1, d2);
    MakePwHashLayout(sha, name, pw, None, d1);
    MakePwHashLayout(sha, name, pw, None, d2);
  }
}
