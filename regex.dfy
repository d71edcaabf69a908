/** The fragment of Python's `re` that the form validators use: a pattern
    `^A1{m1,n1}A2{m2,n2}...$` whose every item is a single-character atom
    (a character class, `.`, `\S` or a literal) under a counted or unbounded
    repetition, matched with `re.match`.

    For such patterns the backtracking matcher succeeds exactly when the
    string can be cut into consecutive runs, one per item, each of an allowed
    length and made of characters the item's atom accepts. Without the
    MULTILINE flag `$` matches at the end of the string and also just before
    a newline that ends the string. */
module Regex {

  /** Python 2's `\s` without the UNICODE flag: `[ \t\n\r\f\v]`. */
  predicate IsSpace(c: char)
  {
    c == ' ' || c == '\t' || c == '\n' || c == '\r' || c == '\U{B}' || c == '\U{C}'
  }

  datatype Atom =
    | AnyButNewline                       // `.`
    | NonSpace                            // `\S`
    | Ranges(ranges: seq<(char, char)>)   // `[...]`, each pair an inclusive range; a literal is a one-character range

  datatype Bound = AtMost(n: nat) | Unbounded

  /** `atom{min,max}`; `+` is `{1,}` and a bare atom is `{1,1}`. */
  datatype Item = Item(atom: Atom, min: nat, max: Bound)

  type Pattern = seq<Item>

  predicate AtomAccepts(a: Atom, c: char)
  {
    match a
    case AnyButNewline => c != '\n'
    case NonSpace => !IsSpace(c)
    case Ranges(rs) => exists k :: 0 <= k < |rs| && rs[k].0 <= c <= rs[k].1
  }

  predicate AllAccepted(a: Atom, s: string)
  {
    forall i :: 0 <= i < |s| ==> AtomAccepts(a, s[i])
  }

  predicate WithinBound(k: nat, b: Bound)
  {
    match b
    case AtMost(n) => k <= n
    case Unbounded => true
  }

  /** The whole of `s` is matched by the items of `p`, in order. */
  predicate MatchesExactly(p: Pattern, s: string)
    decreases |p|
  {
    if p == [] then s == []
    else exists k :: p[0].min <= k <= |s| && WithinBound(k, p[0].max)
                     && AllAccepted(p[0].atom, s[..k]) && MatchesExactly(p[1..], s[k..])
  }

  /** `re.match("^" + p + "$", s)` succeeds. */
  predicate FullMatch(p: Pattern, s: string)
  {
    || MatchesExactly(p, s)
    || (|s| > 0 && s[|s| - 1] == '\n' && MatchesExactly(p, s[..|s| - 1]))
  }

  /** Anything a pattern matches exactly is still matched with one newline
      appended, because `$` also matches before a final newline. */
  lemma TrailingNewline(p: Pattern, s: string)
    requires MatchesExactly(p, s)
    ensures FullMatch(p, s + "\n")
  {
    assert (s + "\n")[..|s|] == s;
  }
}
