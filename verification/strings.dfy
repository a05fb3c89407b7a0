/** The usual optional-value wrapper. */
module Wrappers {
  datatype Option<+T> = None | Some(value: T)
}

/**
 * Text helpers shared by the combo box, the generation client and the input
 * screen: ASCII lower-casing, first-occurrence search, decimal rendering of
 * integers (JavaScript's `String(n)` for integers) and JavaScript's `trim`.
 */
module Strings {
  import opened Wrappers

  // ---------------------------------------------------------------------------
  // Lower-casing (ASCII only; other characters are left as they are)
  // ---------------------------------------------------------------------------

  function LowerChar(c: char): char
  {
    if 'A' <= c <= 'Z' then (c as int + 32) as char else c
  }

  function Lower(s: string): (r: string)
    ensures |r| == |s|
    ensures forall i :: 0 <= i < |s| ==> r[i] == LowerChar(s[i])
  {
    seq(|s|, i requires 0 <= i < |s| => LowerChar(s[i]))
  }

  // ---------------------------------------------------------------------------
  // Substring search
  // ---------------------------------------------------------------------------

  /** `t` occurs in `s` starting at index `i`. */
  predicate OccursAt(s: string, t: string, i: int)
  {
    0 <= i && i + |t| <= |s| && s[i..i + |t|] == t
  }

  /** `i` is the smallest index at which `t` occurs in `s`. */
  predicate IsFirstOccurrence(s: string, t: string, i: int)
  {
    OccursAt(s, t, i) && forall j :: 0 <= j < i ==> !OccursAt(s, t, j)
  }

  lemma OccursAtTail(s: string, t: string, j: int)
    requires |s| > 0 && 0 <= j
    ensures OccursAt(s, t, j + 1) <==> OccursAt(s[1..], t, j)
  {
    if j + 1 + |t| <= |s| {
      assert s[j + 1..j + 1 + |t|] == s[1..][j..j + |t|];
    }
  }

  /** An occurrence inside the second half of a concatenation is an occurrence in that half, shifted. */
  lemma OccursAtShift(a: string, b: string, t: string, j: int)
    requires 0 <= j
    ensures OccursAt(a + b, t, |a| + j) <==> OccursAt(b, t, j)
  {
    if j + |t| <= |b| {
      assert (a + b)[|a| + j..|a| + j + |t|] == b[j..j + |t|];
    }
  }

  /** Two texts occurring at the same index: the shorter is a prefix of the longer. */
  lemma SameStartIsPrefix(s: string, t: string, u: string, j: int)
    requires OccursAt(s, t, j) && OccursAt(s, u, j) && |t| <= |u|
    ensures t <= u
  {
    assert s[j..j + |t|] == s[j..j + |u|][..|t|];
  }

  /** Where `u` occurs, `t` does not, when neither is a prefix of the other. */
  lemma NotWhereOtherOccurs(s: string, t: string, u: string, j: int)
    requires OccursAt(s, u, j) && !(t <= u) && !(u <= t)
    ensures !OccursAt(s, t, j)
  {
    if OccursAt(s, t, j) {
      if |t| <= |u| {
        SameStartIsPrefix(s, t, u, j);
      } else {
        SameStartIsPrefix(s, u, t, j);
      }
    }
  }

  /** The index of the first occurrence of `t` in `s`, as `String.prototype.indexOf` finds it. */
  function FindFirst(s: string, t: string): (r: Option<nat>)
    ensures r.Some? ==> IsFirstOccurrence(s, t, r.value)
    ensures r.None? ==> forall j :: !OccursAt(s, t, j)
    decreases |s|
  {
    if t <= s then
      assert s[0..|t|] == t;
      Some(0)
    else if |s| == 0 then
      None
    else
      var tail := FindFirst(s[1..], t);
      assert !OccursAt(s, t, 0) by { if |t| <= |s| { assert s[0..|t|] == s[..|t|]; } }
      forall j | 0 <= j ensures OccursAt(s, t, j + 1) <==> OccursAt(s[1..], t, j) {
        OccursAtTail(s, t, j);
      }
      match tail
      case None =>
        assert forall j :: !OccursAt(s, t, j) by {
          forall j ensures !OccursAt(s, t, j) {
            if j > 0 { OccursAtTail(s, t, j - 1); }
          }
        }
        None
      case Some(i) =>
        assert forall j :: 0 <= j < i + 1 ==> !OccursAt(s, t, j) by {
          forall j | 0 < j < i + 1 ensures !OccursAt(s, t, j) {
            OccursAtTail(s, t, j - 1);
          }
        }
        Some(i + 1)
  }

  /** `s` contains `t` (JavaScript `s.includes(t)`). */
  predicate Contains(s: string, t: string)
  {
    FindFirst(s, t).Some?
  }

  lemma ContainsIff(s: string, t: string)
    ensures Contains(s, t) <==> exists j :: OccursAt(s, t, j)
  {
    if Contains(s, t) {
      assert OccursAt(s, t, FindFirst(s, t).value);
    }
  }

  lemma ContainsSelf(s: string)
    ensures Contains(s, s)
  {
    assert OccursAt(s, s, 0) by { assert s[0..|s|] == s; }
    ContainsIff(s, s);
  }

  /**
   * When the first character of `tok` does not appear in `prefix`, the first
   * occurrence of `tok` in `prefix + tok + rest` is the one right after `prefix`.
   */
  lemma {:induction false} FirstOccurrenceAfter(prefix: string, tok: string, rest: string)
    requires |tok| > 0 && tok[0] !in prefix
    ensures FindFirst(prefix + tok + rest, tok) == Some(|prefix|)
  {
    var s := prefix + tok + rest;
    assert s[|prefix|..|prefix| + |tok|] == tok;
    assert OccursAt(s, tok, |prefix|);
    forall j | 0 <= j < |prefix| ensures !OccursAt(s, tok, j) {
      assert s[j] == prefix[j];
    }
    match FindFirst(s, tok)
    case None =>
    case Some(i) =>
      assert !(i < |prefix|);
      assert !(|prefix| < i);
  }

  // ---------------------------------------------------------------------------
  // Decimal rendering of integers, and its inverse
  // ---------------------------------------------------------------------------

  predicate IsDigit(c: char) { '0' <= c <= '9' }

  function DigitChar(d: nat): (c: char)
    requires d < 10
    ensures IsDigit(c)
  {
    ('0' as int + d) as char
  }

  function DigitValue(c: char): nat
    requires IsDigit(c)
  {
    c as int - '0' as int
  }

  /** The decimal digits of `n`, most significant first, with no leading zero. */
  function NatToString(n: nat): (r: string)
    ensures |r| >= 1
    ensures forall i :: 0 <= i < |r| ==> IsDigit(r[i])
    ensures |r| > 1 ==> r[0] != '0'
    decreases n
  {
    if n < 10 then [DigitChar(n)] else NatToString(n / 10) + [DigitChar(n % 10)]
  }

  /** The value of a string of decimal digits. */
  function ParseDigits(s: string): nat
    requires forall i :: 0 <= i < |s| ==> IsDigit(s[i])
    decreases |s|
  {
    if s == [] then 0 else ParseDigits(s[..|s| - 1]) * 10 + DigitValue(s[|s| - 1])
  }

  lemma {:induction false} ParseNatToString(n: nat)
    ensures ParseDigits(NatToString(n)) == n
    decreases n
  {
    var r := NatToString(n);
    if n >= 10 {
      ParseNatToString(n / 10);
      assert r[..|r| - 1] == NatToString(n / 10);
    }
  }

  /**
   * JavaScript's rendering of an integer-valued number: an optional `-` and
   * its decimal digits. JavaScript switches to exponent form ("1e+21") from
   * an absolute value of 10^21 on; the model writes every integer in full.
   */
  function IntToString(n: int): (r: string)
    ensures |r| >= 1
  {
    if n < 0 then "-" + NatToString(-n) else NatToString(n)
  }

  /** The inverse of `IntToString`: `None` for text that is not a rendered integer. */
  function ParseInt(s: string): Option<int>
  {
    if |s| > 0 && s[0] == '-' then
      if |s| > 1 && forall i :: 1 <= i < |s| ==> IsDigit(s[i]) then Some(0 - ParseDigits(s[1..])) else None
    else if |s| > 0 && forall i :: 0 <= i < |s| ==> IsDigit(s[i]) then Some(ParseDigits(s))
    else None
  }

  lemma IntToStringRoundTrip(n: int)
    ensures ParseInt(IntToString(n)) == Some(n)
    ensures '$' !in IntToString(n)
  {
    var s := IntToString(n);
    if n < 0 {
      var d := NatToString(-n);
      ParseNatToString(-n);
      assert s == "-" + d && s[1..] == d;
      assert forall i :: 1 <= i < |s| ==> IsDigit(s[i]) by {
        forall i | 1 <= i < |s| ensures IsDigit(s[i]) { assert s[i] == d[i - 1]; }
      }
      assert '$' !in s by {
        forall i | 0 <= i < |s| ensures s[i] != '$' { if i > 0 { assert s[i] == d[i - 1]; } }
      }
    } else {
      ParseNatToString(n);
      assert '$' !in s by {
        forall i | 0 <= i < |s| ensures s[i] != '$' { assert IsDigit(s[i]); }
      }
    }
  }

  // ---------------------------------------------------------------------------
  // JavaScript `trim`
  // ---------------------------------------------------------------------------

  /**
   * The characters `String.prototype.trim` removes: the ECMAScript WhiteSpace
   * set (tab, vertical tab, form feed, space, no-break space, byte order mark
   * and the Unicode space separators) and the LineTerminator set.
   */
  predicate IsWhitespace(c: char)
  {
    c == '\t' || c == '\n' || c == '\U{000B}' || c == '\U{000C}' || c == '\r' || c == ' '
    || c == '\U{00A0}' || c == '\U{1680}' || ('\U{2000}' <= c <= '\U{200A}')
    || c == '\U{2028}' || c == '\U{2029}' || c == '\U{202F}' || c == '\U{205F}'
    || c == '\U{3000}' || c == '\U{FEFF}'
  }

  /** `s` without its leading whitespace. */
  function TrimStart(s: string): string
    decreases |s|
  {
    if |s| > 0 && IsWhitespace(s[0]) then TrimStart(s[1..]) else s
  }

  /** `s` without its trailing whitespace. */
  function TrimEnd(s: string): string
    decreases |s|
  {
    if |s| > 0 && IsWhitespace(s[|s| - 1]) then TrimEnd(s[..|s| - 1]) else s
  }

  /** `TrimStart` removes a prefix made of whitespace only, and stops at the first other character. */
  lemma {:induction false} TrimStartRemovesLeadingWhitespace(s: string)
    ensures var r := TrimStart(s);
      && |r| <= |s| && r == s[|s| - |r|..]
      && (r == [] || !IsWhitespace(r[0]))
      && forall i :: 0 <= i < |s| - |r| ==> IsWhitespace(s[i])
    decreases |s|
  {
    if |s| > 0 && IsWhitespace(s[0]) {
      TrimStartRemovesLeadingWhitespace(s[1..]);
      var r := TrimStart(s);
      assert r == TrimStart(s[1..]);
      forall i | 0 < i < |s| - |r| ensures IsWhitespace(s[i]) {
        assert s[i] == s[1..][i - 1];
      }
    }
  }

  /** `TrimEnd` removes a suffix made of whitespace only, and stops at the last other character. */
  lemma {:induction false} TrimEndRemovesTrailingWhitespace(s: string)
    ensures var r := TrimEnd(s);
      && |r| <= |s| && r == s[..|r|]
      && (r == [] || !IsWhitespace(r[|r| - 1]))
      && forall i :: |r| <= i < |s| ==> IsWhitespace(s[i])
    decreases |s|
  {
    if |s| > 0 && IsWhitespace(s[|s| - 1]) {
      TrimEndRemovesTrailingWhitespace(s[..|s| - 1]);
      var r := TrimEnd(s);
      assert r == TrimEnd(s[..|s| - 1]);
      forall i | |r| <= i < |s| - 1 ensures IsWhitespace(s[i]) {
        assert s[i] == s[..|s| - 1][i];
      }
    }
  }

  /** `s.trim()`: `s` without its leading and trailing whitespace. */
  function Trim(s: string): string
  {
    TrimEnd(TrimStart(s))
  }

  /** A string trims to nothing exactly when every character of it is whitespace. */
  lemma TrimEmptyIff(s: string)
    ensures Trim(s) == "" <==> forall i :: 0 <= i < |s| ==> IsWhitespace(s[i])
  {
    TrimStartRemovesLeadingWhitespace(s);
    TrimEndRemovesTrailingWhitespace(TrimStart(s));
    var a := TrimStart(s);
    if Trim(s) == "" {
      assert a == [];
    } else {
      var r := Trim(s);
      assert r[0] == a[0];
      if a == TrimStart(s) && |a| > 0 {
        assert !IsWhitespace(s[|s| - |a|]);
      }
    }
  }
}
