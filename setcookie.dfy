/** How a user agent reads a `Set-Cookie` header, after the parsing algorithm
    of section 5.2 of RFC 6265: the name-value pair runs up to the first `;`,
    the name is what precedes its first `=`, the value what follows, both
    with surrounding spaces and tabs removed; a pair without `=` or with an
    empty name is ignored. Each further `;`-separated piece is an attribute,
    split the same way. */
module SetCookie {
  import opened Wrappers
  import opened PyStr

  datatype Cookie = Cookie(name: string, value: string, attributes: seq<(string, string)>)

  /** WSP: space and horizontal tab. */
  const Wsp: set<char> := {' ', '\t'}

  /** Text the parser keeps as it is: no `;`, and no blank at either end. */
  predicate IsPlainText(s: string)
  {
    ';' !in s && (s != [] ==> s[0] !in Wsp && s[|s| - 1] !in Wsp)
  }

  function ParseAttribute(av: string): (string, string)
  {
    if '=' in av then
      var i := IndexOf(av, '=');
      (Trim(av[..i], Wsp), Trim(av[i + 1..], Wsp))
    else (Trim(av, Wsp), "")
  }

  function ParseSetCookie(header: string): Option<Cookie>
  {
    var parts := Split(header, ';');
    var pair := parts[0];
    if '=' !in pair then None
    else
      var i := IndexOf(pair, '=');
      var name := Trim(pair[..i], Wsp);
      if name == "" then None
      else
        var attributes := seq(|parts| - 1, k requires 0 <= k < |parts| - 1 => ParseAttribute(parts[k + 1]));
        Some(Cookie(name, Trim(pair[i + 1..], Wsp), attributes))
  }

  /** The value a user agent holds for the cookie `name` after `header`, if
      the header sets that cookie. */
  function ValueSet(header: string, name: string): Option<string>
  {
    match ParseSetCookie(header)
    case Some(c) => if c.name == name then Some(c.value) else None
    case None => None
  }

  /** A header `name=value; Path=/` sets exactly that name, value and path. */
  lemma ParseNameValuePath(name: string, value: string)
    requires name != [] && '=' !in name && IsPlainText(name) && IsPlainText(value)
    ensures ParseSetCookie(name + "=" + value + "; Path=/")
         == Some(Cookie(name, value, [("Path", "/")]))
  {
    var header := name + "=" + value + "; Path=/";
    HeaderPieces(name, value);
    PairFields(name, value);
    PathAttribute();
    var parts := Split(header, ';');
    var attributes := seq(|parts| - 1, k requires 0 <= k < |parts| - 1 => ParseAttribute(parts[k + 1]));
    assert attributes == [("Path", "/")];
  }

  lemma HeaderPieces(name: string, value: string)
    requires '=' !in name && ';' !in name && ';' !in value
    ensures Split(name + "=" + value + "; Path=/", ';') == [name + "=" + value, " Path=/"]
  {
    var pair := name + "=" + value;
    PairSplitsAtEquals(name, value);
    assert name + "=" + value + "; Path=/" == pair + [';'] + " Path=/";
    SplitPair(pair, " Path=/", ';');
  }

  lemma PairFields(name: string, value: string)
    requires '=' !in name && IsPlainText(name) && IsPlainText(value)
    ensures var pair := name + "=" + value;
      && '=' in pair && IndexOf(pair, '=') == |name|
      && Trim(pair[..|name|], Wsp) == name && Trim(pair[|name| + 1..], Wsp) == value
  {
    PairSplitsAtEquals(name, value);
    TrimUntouched(name, Wsp);
    TrimUntouched(value, Wsp);
  }

  lemma PairSplitsAtEquals(name: string, value: string)
    requires '=' !in name && ';' !in name && ';' !in value
    ensures var pair := name + "=" + value;
      && ';' !in pair && '=' in pair && IndexOf(pair, '=') == |name|
      && pair[..|name|] == name && pair[|name| + 1..] == value
  {
    var pair := name + "=" + value;
    assert pair[|name|] == '=';
    assert pair[..|name|] == name && pair[|name| + 1..] == value;
  }

  lemma PathAttribute()
    ensures ParseAttribute(" Path=/") == ("Path", "/")
  {
    var av := " Path=/";
    assert av[5] == '=';
    assert IndexOf(av, '=') == 5;
    assert av[..5] == " Path" && av[6..] == "/";
    assert " Path"[1..] == "Path";
    TrimUntouched("Path", Wsp);
    TrimUntouched("/", Wsp);
  }
}
