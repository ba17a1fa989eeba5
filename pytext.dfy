/**
 * The three Python string operations the results reader relies on:
 * `str.strip()`, `str.split(sep)` and `int(str)`.
 */
module PyText {
  import opened Wrappers

  /** The characters Python's `str.isspace()` accepts, which `strip()` discards. */
  predicate IsSpace(c: char)
  {
    var n := c as int;
    || 0x09 <= n <= 0x0D || 0x1C <= n <= 0x20
    || n == 0x85 || n == 0xA0 || n == 0x1680
    || 0x2000 <= n <= 0x200A || n == 0x2028 || n == 0x2029
    || n == 0x202F || n == 0x205F || n == 0x3000
  }

  /**
   * The characters `int()` discards around a number. Non-ASCII whitespace is
   * first turned into a space, but among ASCII characters only C's `isspace`
   * set counts, so the separators U+001C..U+001F are not skipped.
   */
  predicate IsIntSpace(c: char)
  {
    IsSpace(c) && !(0x1C <= c as int <= 0x1F)
  }

  /** Drop the leading characters that satisfy `blank`. */
  function TrimStart(s: string, blank: char -> bool): string
  {
    if |s| > 0 && blank(s[0]) then TrimStart(s[1..], blank) else s
  }

  /** Drop the trailing characters that satisfy `blank`. */
  function TrimEnd(s: string, blank: char -> bool): string
  {
    if |s| > 0 && blank(s[|s| - 1]) then TrimEnd(s[..|s| - 1], blank) else s
  }

  /** TrimStart removes a blank prefix and stops at the first other character. */
  lemma {:induction false} TrimStartShape(s: string, blank: char -> bool)
    ensures |TrimStart(s, blank)| <= |s| && TrimStart(s, blank) == s[|s| - |TrimStart(s, blank)|..]
    ensures forall k :: 0 <= k < |s| - |TrimStart(s, blank)| ==> blank(s[k])
    ensures |TrimStart(s, blank)| > 0 ==> !blank(TrimStart(s, blank)[0])
  {
    if |s| > 0 && blank(s[0]) {
      TrimStartShape(s[1..], blank);
      assert forall k :: 1 <= k < |s| ==> s[1..][k - 1] == s[k];
    }
  }

  /** TrimEnd removes a blank suffix and stops at the last other character. */
  lemma {:induction false} TrimEndShape(s: string, blank: char -> bool)
    ensures |TrimEnd(s, blank)| <= |s| && TrimEnd(s, blank) == s[..|TrimEnd(s, blank)|]
    ensures forall k :: |TrimEnd(s, blank)| <= k < |s| ==> blank(s[k])
    ensures |TrimEnd(s, blank)| > 0 ==> !blank(TrimEnd(s, blank)[|TrimEnd(s, blank)| - 1])
  {
    if |s| > 0 && blank(s[|s| - 1]) {
      TrimEndShape(s[..|s| - 1], blank);
    }
  }

  /** `s.strip()`: the text between the leading and the trailing whitespace. */
  function Strip(s: string): string
  {
    TrimEnd(TrimStart(s, IsSpace), IsSpace)
  }

  /**
   * Strip removes exactly a whitespace prefix (of length i) and a whitespace
   * suffix, and leaves text that neither starts nor ends with whitespace.
   */
  lemma StripIsTrim(s: string) returns (i: nat)
    ensures i + |Strip(s)| <= |s| && Strip(s) == s[i..i + |Strip(s)|]
    ensures forall k :: 0 <= k < i ==> IsSpace(s[k])
    ensures forall k :: i + |Strip(s)| <= k < |s| ==> IsSpace(s[k])
    ensures |Strip(s)| > 0 ==> !IsSpace(Strip(s)[0]) && !IsSpace(Strip(s)[|Strip(s)| - 1])
  {
    var t := TrimStart(s, IsSpace);
    TrimStartShape(s, IsSpace);
    TrimEndShape(t, IsSpace);
    var r := TrimEnd(t, IsSpace);
    i := |s| - |t|;
    assert r == s[i..i + |r|];
    forall k | i + |r| <= k < |s|
      ensures IsSpace(s[k])
    {
      assert s[k] == t[k - i];
    }
  }

  /** Text that neither starts nor ends with whitespace is left alone by Strip. */
  lemma StripUnchanged(s: string)
    requires |s| > 0 ==> !IsSpace(s[0]) && !IsSpace(s[|s| - 1])
    ensures Strip(s) == s
  {
  }

  /** `s.split(sep)`: the pieces between the separators; always at least one piece. */
  function Split(s: string, sep: char): (tokens: seq<string>)
    ensures |tokens| >= 1
  {
    if |s| == 0 then [""]
    else
      var rest := Split(s[1..], sep);
      if s[0] == sep then [""] + rest else [[s[0]] + rest[0]] + rest[1..]
  }

  /** No piece of a split contains the separator. */
  lemma {:induction false} SplitPiecesSeparatorFree(s: string, sep: char)
    ensures forall k :: 0 <= k < |Split(s, sep)| ==> sep !in Split(s, sep)[k]
  {
    if |s| > 0 {
      SplitPiecesSeparatorFree(s[1..], sep);
    }
  }

  /** `sep.join(tokens)`: the inverse of Split. */
  function Join(tokens: seq<string>, sep: char): string
    requires |tokens| >= 1
  {
    if |tokens| == 1 then tokens[0] else tokens[0] + [sep] + Join(tokens[1..], sep)
  }

  /** Joining the pieces of a split gives back the text. */
  lemma {:induction false} JoinSplit(s: string, sep: char)
    ensures Join(Split(s, sep), sep) == s
  {
    if |s| > 0 {
      var rest := Split(s[1..], sep);
      JoinSplit(s[1..], sep);
      if s[0] != sep {
        if |rest| == 1 {
          assert Split(s, sep) == [[s[0]] + rest[0]];
        } else {
          var tokens := Split(s, sep);
          assert tokens[1..] == rest[1..];
          assert Join(tokens, sep) == [s[0]] + rest[0] + [sep] + Join(rest[1..], sep);
        }
      } else {
        assert Split(s, sep)[1..] == rest;
      }
    }
  }

  /** Splitting text that carries one more separator-free piece in front. */
  lemma {:induction false} SplitCons(t: string, u: string, sep: char)
    requires sep !in t
    ensures Split(t + [sep] + u, sep) == [t] + Split(u, sep)
  {
    if |t| > 0 {
      SplitCons(t[1..], u, sep);
      assert (t + [sep] + u)[1..] == t[1..] + [sep] + u;
      assert [t[0]] + t[1..] == t;
    } else {
      assert t + [sep] + u == [sep] + u;
      assert ([sep] + u)[1..] == u;
    }
  }

  /** Separator-free text is a single piece. */
  lemma {:induction false} SplitSingle(t: string, sep: char)
    requires sep !in t
    ensures Split(t, sep) == [t]
  {
    if |t| > 0 {
      SplitSingle(t[1..], sep);
      assert [t[0]] + t[1..] == t;
    }
  }

  /** Splitting joined separator-free pieces gives back the pieces. */
  lemma {:induction false} SplitJoin(tokens: seq<string>, sep: char)
    requires |tokens| >= 1
    requires forall k :: 0 <= k < |tokens| ==> sep !in tokens[k]
    ensures Split(Join(tokens, sep), sep) == tokens
  {
    if |tokens| == 1 {
      SplitSingle(tokens[0], sep);
    } else {
      SplitJoin(tokens[1..], sep);
      SplitCons(tokens[0], Join(tokens[1..], sep), sep);
    }
  }

  predicate IsDigit(c: char)
  {
    '0' <= c <= '9'
  }

  /**
   * The digit part of an integer literal as `int()` reads it: ASCII digits,
   * starting and ending with a digit, with single underscores allowed
   * between digits.
   */
  predicate ValidDigits(d: string)
  {
    && |d| > 0 && IsDigit(d[0]) && IsDigit(d[|d| - 1])
    && (forall k :: 0 <= k < |d| ==> IsDigit(d[k]) || d[k] == '_')
    && NoDoubleUnderscore(d)
  }

  /** No underscore is directly followed by another. */
  predicate NoDoubleUnderscore(d: string)
  {
    |d| < 2 || ((d[0] != '_' || d[1] != '_') && NoDoubleUnderscore(d[1..]))
  }

  /** The decimal value of the digits, underscores skipped. */
  function DigitsValue(d: string): nat
  {
    if |d| == 0 then 0
    else if IsDigit(d[|d| - 1]) then DigitsValue(d[..|d| - 1]) * 10 + (d[|d| - 1] as int - '0' as int)
    else DigitsValue(d[..|d| - 1])
  }

  /**
   * `int(s)`: surrounding whitespace as `int()` skips it, an optional sign,
   * then ASCII decimal digits; None where Python raises, with two exceptions:
   * there is no limit on the number of digits, and decimal digits of other
   * scripts, which Python's `int()` reads, are rejected here.
   */
  function ParseInt(s: string): Option<int>
  {
    var t := TrimEnd(TrimStart(s, IsIntSpace), IsIntSpace);
    if |t| > 0 && (t[0] == '-' || t[0] == '+') then
      if ValidDigits(t[1..]) then
        var magnitude: int := DigitsValue(t[1..]);
        Some(if t[0] == '-' then -magnitude else magnitude)
      else None
    else if ValidDigits(t) then Some(DigitsValue(t))
    else None
  }

  function DigitChar(n: nat): char
    requires n < 10
  {
    ('0' as int + n) as char
  }

  /** The decimal text of a natural number, as `str` writes it. */
  function ShowNat(n: nat): string
  {
    if n < 10 then [DigitChar(n)] else ShowNat(n / 10) + [DigitChar(n % 10)]
  }

  /** The decimal text of an integer, as `str` writes it. */
  function ShowInt(n: int): string
  {
    if n < 0 then "-" + ShowNat(-n) else ShowNat(n)
  }

  /** Text made of digits only has no double underscore. */
  lemma {:induction false} AllDigitsNoDoubleUnderscore(d: string)
    requires forall k :: 0 <= k < |d| ==> IsDigit(d[k])
    ensures NoDoubleUnderscore(d)
  {
    if |d| >= 2 {
      AllDigitsNoDoubleUnderscore(d[1..]);
    }
  }

  /** The text of a natural number is all digits and reads back as that number. */
  lemma {:induction false} ShowNatDigits(n: nat)
    ensures |ShowNat(n)| > 0
    ensures forall k :: 0 <= k < |ShowNat(n)| ==> IsDigit(ShowNat(n)[k])
    ensures DigitsValue(ShowNat(n)) == n
    ensures ValidDigits(ShowNat(n))
  {
    var s := ShowNat(n);
    if n >= 10 {
      ShowNatDigits(n / 10);
      assert s[..|s| - 1] == ShowNat(n / 10);
      assert forall k :: 0 <= k < |s| - 1 ==> s[k] == ShowNat(n / 10)[k];
    }
    AllDigitsNoDoubleUnderscore(s);
  }

  /** `int(str(n)) == n`: parsing inverts showing. */
  lemma ParseShowInt(n: int)
    ensures ParseInt(ShowInt(n)) == Some(n)
  {
    var s := ShowInt(n);
    if n < 0 {
      ShowNatDigits(-n);
      assert s[1..] == ShowNat(-n);
    } else {
      ShowNatDigits(n);
    }
  }
}
