/** The few Python 2 string built-ins the modelled code relies on:
    `str.split(sep)` with an explicit one-character separator, `str(n)` for an
    integer, and `int(s)` in base 10. */
module PyStr {
  import opened Wrappers

  /* ---------------------------------------------------------------------
     str.split(sep)
     --------------------------------------------------------------------- */

  /** Number of occurrences of `c` in `s`. */
  function Count(s: string, c: char): nat
  {
    if s == [] then 0 else (if s[0] == c then 1 else 0) + Count(s[1..], c)
  }

  /** `s.split(sep)`: the maximal runs of `s` between occurrences of `sep`,
      so there is always one piece more than there are separators. */
  function Split(s: string, sep: char): (pieces: seq<string>)
    ensures |pieces| == Count(s, sep) + 1
    ensures forall i :: 0 <= i < |pieces| ==> sep !in pieces[i]
  {
    if s == [] then [""]
    else
      var rest := Split(s[1..], sep);
      if s[0] == sep then [""] + rest
      else [[s[0]] + rest[0]] + rest[1..]
  }

  /** `sep.join(pieces)`, the inverse of `Split`. */
  function Join(pieces: seq<string>, sep: char): string
    requires |pieces| >= 1
  {
    if |pieces| == 1 then pieces[0] else pieces[0] + [sep] + Join(pieces[1..], sep)
  }

  lemma {:induction false} JoinSplit(s: string, sep: char)
    ensures Join(Split(s, sep), sep) == s
  {
    if s != [] {
      JoinSplit(s[1..], sep);
      var rest := Split(s[1..], sep);
      if s[0] != sep {
        if |rest| == 1 {
          assert Split(s, sep) == [[s[0]] + rest[0]];
        } else {
          assert Split(s, sep)[1..] == rest[1..];
        }
      } else {
        assert Split(s, sep)[1..] == rest;
      }
    }
  }

  /** A string without the separator splits into itself alone. */
  lemma {:induction false} SplitWithoutSeparator(s: string, sep: char)
    requires sep !in s
    ensures Split(s, sep) == [s]
  {
    if s != [] {
      assert sep !in s[1..] by {
        forall i | 0 <= i < |s[1..]| ensures s[1..][i] != sep { assert s[1..][i] == s[i + 1]; }
      }
      SplitWithoutSeparator(s[1..], sep);
      assert [s[0]] + s[1..] == s;
    }
  }

  /** Splitting `a + sep + t` where `a` holds no separator yields `a` followed by
      the pieces of `t`. */
  lemma {:induction false} SplitAfterPiece(a: string, t: string, sep: char)
    requires sep !in a
    ensures Split(a + [sep] + t, sep) == [a] + Split(t, sep)
  {
    if a == [] {
      assert a + [sep] + t == [sep] + t;
      assert ([sep] + t)[1..] == t;
    } else {
      var s := a + [sep] + t;
      assert s[1..] == a[1..] + [sep] + t;
      assert sep !in a[1..] by {
        forall i | 0 <= i < |a[1..]| ensures a[1..][i] != sep { assert a[1..][i] == a[i + 1]; }
      }
      SplitAfterPiece(a[1..], t, sep);
      assert [a[0]] + a[1..] == a;
    }
  }

  /** The two-piece case used for `"<digest>,<salt>"` and `"<id>|<hash>"`. */
  lemma SplitPair(a: string, b: string, sep: char)
    requires sep !in a && sep !in b
    ensures Split(a + [sep] + b, sep) == [a, b]
  {
    SplitAfterPiece(a, b, sep);
    SplitWithoutSeparator(b, sep);
  }

  /** A string whose split has exactly two pieces is those pieces around the
      one separator. */
  lemma SplitPairInverse(s: string, sep: char)
    requires |Split(s, sep)| == 2
    ensures s == Split(s, sep)[0] + [sep] + Split(s, sep)[1]
  {
    JoinSplit(s, sep);
    var p := Split(s, sep);
    assert p[1..] == [p[1]];
  }

  /** Position of the first occurrence of `c`. */
  function IndexOf(s: string, c: char): (i: nat)
    requires c in s
    ensures i < |s| && s[i] == c && c !in s[..i]
  {
    if s[0] == c then 0 else
      assert c in s[1..] by { var j :| 0 <= j < |s| && s[j] == c; assert s[1..][j - 1] == c; }
      1 + IndexOf(s[1..], c)
  }

  /* ---------------------------------------------------------------------
     Whitespace trimming
     --------------------------------------------------------------------- */

  /** The characters `str.isspace()` accepts in a Python 2 byte string. */
  const PySpace: set<char> := {' ', '\t', '\n', '\r', '\U{B}', '\U{C}'}

  function TrimLeft(s: string, drop: set<char>): string
  {
    if s != [] && s[0] in drop then TrimLeft(s[1..], drop) else s
  }

  function TrimRight(s: string, drop: set<char>): string
  {
    if s != [] && s[|s| - 1] in drop then TrimRight(s[..|s| - 1], drop) else s
  }

  /** `s.strip()` for the given set of blank characters. */
  function Trim(s: string, drop: set<char>): string
  {
    TrimRight(TrimLeft(s, drop), drop)
  }

  lemma {:induction false} TrimLeftAllBlank(s: string, drop: set<char>)
    requires forall i :: 0 <= i < |s| ==> s[i] in drop
    ensures TrimLeft(s, drop) == []
  {
    if s != [] {
      assert forall i :: 0 <= i < |s[1..]| ==> s[1..][i] in drop by {
        forall i | 0 <= i < |s[1..]| ensures s[1..][i] in drop { assert s[1..][i] == s[i + 1]; }
      }
      TrimLeftAllBlank(s[1..], drop);
    }
  }

  lemma TrimUntouched(s: string, drop: set<char>)
    requires s != [] ==> s[0] !in drop && s[|s| - 1] !in drop
    ensures Trim(s, drop) == s
  {
  }

  /* ---------------------------------------------------------------------
     str(n) and int(s) in base 10
     --------------------------------------------------------------------- */

  predicate IsDigit(c: char) { '0' <= c <= '9' }

  /** One or more decimal digits. */
  predicate IsNumeral(d: string)
  {
    |d| > 0 && forall i :: 0 <= i < |d| ==> IsDigit(d[i])
  }

  function DigitChar(n: nat): (c: char)
    requires n < 10
    ensures IsDigit(c)
  {
    (('0' as int) + n) as char
  }

  function DigitValue(c: char): (v: nat)
    requires IsDigit(c)
    ensures v < 10
  {
    (c as int) - ('0' as int)
  }

  /** The value of a string of decimal digits, most significant first. */
  function DigitsValue(d: string): nat
    requires forall i :: 0 <= i < |d| ==> IsDigit(d[i])
  {
    if d == [] then 0
    else DigitsValue(d[..|d| - 1]) * 10 + DigitValue(d[|d| - 1])
  }

  /** `str(n)` for a non-negative integer: its shortest decimal numeral. */
  function NatToDecimal(n: nat): (d: string)
    ensures IsNumeral(d)
  {
    if n < 10 then [DigitChar(n)] else NatToDecimal(n / 10) + [DigitChar(n % 10)]
  }

  /** `str(n)` for any integer. */
  function DecimalString(n: int): (d: string)
    ensures d != [] && (forall i :: 0 < i < |d| ==> IsDigit(d[i]))
    ensures IsDigit(d[0]) || d[0] == '-'
  {
    if n < 0 then "-" + NatToDecimal(-n) else NatToDecimal(n)
  }

  /** `int(s)`: surrounding blanks are ignored, then an optional sign, more
      blanks after a sign (Python 2 skips them), and at least one decimal
      digit; anything else raises `ValueError`. */
  function ParseInt(s: string): (r: Result<int>)
    ensures r.Err? ==> r.error == ValueError
    ensures IsNumeral(s) ==> r == Ok(DigitsValue(s))
  {
    assert IsNumeral(s) ==> Trim(s, PySpace) == s by {
      if IsNumeral(s) {
        assert IsDigit(s[0]) && IsDigit(s[|s| - 1]);
        TrimUntouched(s, PySpace);
      }
    }
    var t := Trim(s, PySpace);
    if t != [] && (t[0] == '-' || t[0] == '+') then
      var d := TrimLeft(t[1..], PySpace);
      if IsNumeral(d) then
        var v: int := DigitsValue(d);
        Ok(if t[0] == '-' then -v else v)
      else Err(ValueError)
    else if IsNumeral(t) then Ok(DigitsValue(t))
    else Err(ValueError)
  }

  /** A blank string, `""` included, does not read as an integer. */
  lemma BlankFails(s: string)
    requires forall i :: 0 <= i < |s| ==> s[i] in PySpace
    ensures ParseInt(s) == Err(ValueError)
  {
    TrimLeftAllBlank(s, PySpace);
  }

  /** Python 2's `int()` accepts blanks between the sign and the digits. */
  lemma BlankAfterSign(d: string)
    requires IsNumeral(d)
    ensures ParseInt("- " + d) == Ok(0 - DigitsValue(d))
  {
    var m := "- " + d;
    assert Trim(m, PySpace) == m by {
      assert IsDigit(d[|d| - 1]) && m[|m| - 1] == d[|d| - 1];
      TrimUntouched(m, PySpace);
    }
    assert TrimLeft(m[1..], PySpace) == d by {
      assert IsDigit(d[0]);
      var rest := m[1..];
      assert rest[0] == ' ' && rest[1..] == d;
    }
    ParseMinus(m);
  }

  lemma ParseMinus(t: string)
    requires Trim(t, PySpace) == t && t != [] && t[0] == '-'
    requires IsNumeral(TrimLeft(t[1..], PySpace))
    ensures ParseInt(t) == Ok(0 - DigitsValue(TrimLeft(t[1..], PySpace)))
  {
  }

  lemma {:induction false} NatToDecimalValue(n: nat)
    ensures DigitsValue(NatToDecimal(n)) == n
  {
    if n >= 10 {
      NatToDecimalValue(n / 10);
      var d := NatToDecimal(n);
      assert d[..|d| - 1] == NatToDecimal(n / 10);
    }
  }

  /** A numeral reads back as its value. */
  lemma ParseNumeral(d: string)
    requires IsNumeral(d)
    ensures ParseInt(d) == Ok(DigitsValue(d))
  {
    assert IsDigit(d[0]) && IsDigit(d[|d| - 1]);
    TrimUntouched(d, PySpace);
  }

  /** A minus sign followed by a numeral reads back as the negated value. */
  lemma ParseNegatedNumeral(d: string)
    requires IsNumeral(d)
    ensures ParseInt("-" + d) == Ok(0 - DigitsValue(d))
  {
    var m := "-" + d;
    assert IsDigit(d[0]) && IsDigit(d[|d| - 1]);
    assert m[|m| - 1] == d[|d| - 1];
    TrimUntouched(m, PySpace);
    assert m[1..] == d;
  }

  /** `int(str(n)) == n`. */
  lemma DecimalRoundTrip(n: int)
    ensures ParseInt(DecimalString(n)) == Ok(n)
  {
    if n < 0 {
      NatToDecimalValue(-n);
      ParseNegatedNumeral(NatToDecimal(-n));
      assert DecimalString(n) == "-" + NatToDecimal(-n);
    } else {
      NatToDecimalValue(n);
      ParseNumeral(NatToDecimal(n));
    }
  }
}
