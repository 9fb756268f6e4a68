/**
 * The string primitives the source relies on: JavaScript's whitespace class
 * (the characters `String.prototype.trim` removes and the regular-expression
 * class `\s` matches), `trim`, and the blank test `s.trim() === ""`.
 */
module Text {

  /**
   * ECMAScript WhiteSpace and LineTerminator code points: tab, line feed,
   * vertical tab, form feed, carriage return, space, no-break space, the
   * Unicode space separators (U+1680, U+2000 to U+200A, U+202F, U+205F,
   * U+3000), the line and paragraph separators and the byte-order mark.
   */
  const WHITESPACE: string :=
    " \t\n\U{000B}\U{000C}\r\U{00A0}\U{1680}\U{2000}\U{2001}\U{2002}\U{2003}\U{2004}"
    + "\U{2005}\U{2006}\U{2007}\U{2008}\U{2009}\U{200A}\U{2028}\U{2029}\U{202F}\U{205F}"
    + "\U{3000}\U{FEFF}"

  predicate IsSpace(c: char) {
    Contains(WHITESPACE, c)
  }

  /** `c` occurs in `s` (JavaScript's `s.includes(c)` for a one-character `c`). */
  predicate Contains(s: string, c: char) {
    s != [] && (s[0] == c || Contains(s[1..], c))
  }

  lemma {:induction false} ContainsIff(s: string, c: char)
    ensures Contains(s, c) <==> c in s
  {
    if s != [] {
      ContainsIff(s[1..], c);
      assert s == [s[0]] + s[1..];
    }
  }

  /** No ASCII letter is whitespace. */
  lemma LetterNotSpace(c: char)
    requires 'a' <= c <= 'z' || 'A' <= c <= 'Z'
    ensures !IsSpace(c)
  {
    ContainsIff(WHITESPACE, c);
  }

  /** Every character of `s` is whitespace (true of the empty string). */
  predicate AllSpace(s: string) {
    forall i :: 0 <= i < |s| ==> IsSpace(s[i])
  }

  /** `s` with its leading whitespace removed. */
  function TrimStart(s: string): (r: string)
    ensures |r| <= |s|
  {
    if |s| > 0 && IsSpace(s[0]) then TrimStart(s[1..]) else s
  }

  /** `s` with its trailing whitespace removed. */
  function TrimEnd(s: string): (r: string)
    ensures |r| <= |s|
  {
    if |s| > 0 && IsSpace(s[|s| - 1]) then TrimEnd(s[..|s| - 1]) else s
  }

  /** JavaScript's `s.trim()`. */
  function Trim(s: string): string {
    TrimEnd(TrimStart(s))
  }

  /** JavaScript's `s.trim() === ""`, and `!s.trim()`. */
  predicate Blank(s: string) {
    Trim(s) == []
  }

  /** `TrimStart` cuts off a whitespace prefix and stops at the first other character. */
  lemma {:induction false} TrimStartSpec(s: string)
    ensures TrimStart(s) == s[|s| - |TrimStart(s)|..]
    ensures AllSpace(s[..|s| - |TrimStart(s)|])
    ensures TrimStart(s) == [] || !IsSpace(TrimStart(s)[0])
  {
    if |s| > 0 && IsSpace(s[0]) {
      var t := s[1..];
      TrimStartSpec(t);
      var k := |t| - |TrimStart(t)|;
      assert s[k + 1..] == t[k..];
      assert s[..k + 1] == [s[0]] + t[..k];
    }
  }

  /** `TrimEnd` cuts off a whitespace suffix and stops at the last other character. */
  lemma {:induction false} TrimEndSpec(s: string)
    ensures TrimEnd(s) == s[..|TrimEnd(s)|]
    ensures AllSpace(s[|TrimEnd(s)|..])
    ensures TrimEnd(s) == [] || !IsSpace(TrimEnd(s)[|TrimEnd(s)| - 1])
  {
    if |s| > 0 && IsSpace(s[|s| - 1]) {
      var t := s[..|s| - 1];
      TrimEndSpec(t);
      var k := |TrimEnd(t)|;
      assert t[..k] == s[..k];
      assert s[k..] == t[k..] + [s[|s| - 1]];
    }
  }

  /**
   * What `trim` returns: the piece of `s` that starts after its leading
   * whitespace, with only whitespace cut off either side, and that neither
   * begins nor ends with whitespace.
   */
  lemma TrimSpec(s: string)
    ensures |s| - |TrimStart(s)| + |Trim(s)| <= |s|
    ensures Trim(s) == s[|s| - |TrimStart(s)|..|s| - |TrimStart(s)| + |Trim(s)|]
    ensures AllSpace(s[..|s| - |TrimStart(s)|])
    ensures AllSpace(s[|s| - |TrimStart(s)| + |Trim(s)|..])
    ensures Trim(s) == [] || (!IsSpace(Trim(s)[0]) && !IsSpace(Trim(s)[|Trim(s)| - 1]))
  {
    TrimSlice(s);
    TrimCutsSpace(s);
  }

  lemma TrimSlice(s: string)
    ensures |s| - |TrimStart(s)| + |Trim(s)| <= |s|
    ensures Trim(s) == s[|s| - |TrimStart(s)|..|s| - |TrimStart(s)| + |Trim(s)|]
    ensures Trim(s) == [] || (!IsSpace(Trim(s)[0]) && !IsSpace(Trim(s)[|Trim(s)| - 1]))
  {
    var t := TrimStart(s);
    var r := TrimEnd(t);
    var a := |s| - |t|;
    TrimStartSpec(s);
    TrimEndSpec(t);
    SliceOfSuffix(s, a, |r|);
    if r != [] {
      assert r[0] == t[0];
    }
  }

  lemma SliceOfSuffix(s: string, a: nat, n: nat)
    requires a + n <= |s|
    ensures s[a..][..n] == s[a..a + n]
  {
  }

  lemma TrimCutsSpace(s: string)
    ensures |s| - |TrimStart(s)| + |Trim(s)| <= |s|
    ensures AllSpace(s[..|s| - |TrimStart(s)|])
    ensures AllSpace(s[|s| - |TrimStart(s)| + |Trim(s)|..])
  {
    var t := TrimStart(s);
    var r := TrimEnd(t);
    var a := |s| - |t|;
    TrimStartSpec(s);
    TrimEndSpec(t);
    assert s[a + |r|..] == t[|r|..];
  }

  /** A character that is not whitespace lies inside the trimmed part, at its place shifted by the cut prefix. */
  lemma NonSpaceInsideTrim(s: string, i: int)
    requires 0 <= i < |s| && !IsSpace(s[i])
    ensures var a := |s| - |TrimStart(s)|;
      a <= i < a + |Trim(s)| && Trim(s)[i - a] == s[i]
  {
    TrimSpec(s);
  }

  /** Leading whitespace is all there is exactly when the string is whitespace only. */
  lemma {:induction false} TrimStartEmpty(s: string)
    ensures TrimStart(s) == [] <==> AllSpace(s)
  {
    if |s| > 0 && IsSpace(s[0]) {
      TrimStartEmpty(s[1..]);
      assert AllSpace(s) <==> AllSpace(s[1..]);
    }
  }

  /** A string is blank exactly when it consists of whitespace only. */
  lemma BlankIff(s: string)
    ensures Blank(s) <==> AllSpace(s)
  {
    var t := TrimStart(s);
    TrimStartEmpty(s);
    TrimStartSpec(s);
    TrimEndSpec(t);
    if Blank(s) {
      assert t[|TrimEnd(t)|..] == t;
    }
  }

  /** Trimming a trimmed string changes nothing. */
  lemma TrimIdempotent(s: string)
    ensures Trim(Trim(s)) == Trim(s)
  {
    var r := Trim(s);
    TrimSpec(s);
    if r != [] {
      assert TrimStart(r) == r;
      assert TrimEnd(r) == r;
    }
  }

  /** The characters of `s` that are not whitespace, in order. */
  function DropSpaces(s: string): (r: string)
    ensures forall i :: 0 <= i < |r| ==> !IsSpace(r[i])
    ensures |r| <= |s|
  {
    if s == [] then []
    else if IsSpace(s[0]) then DropSpaces(s[1..])
    else [s[0]] + DropSpaces(s[1..])
  }

  lemma {:induction false} DropSpacesAppend(a: string, b: string)
    ensures DropSpaces(a + b) == DropSpaces(a) + DropSpaces(b)
  {
    if a == [] {
      assert a + b == b;
    } else {
      assert (a + b)[0] == a[0];
      assert (a + b)[1..] == a[1..] + b;
      DropSpacesAppend(a[1..], b);
    }
  }

  /** Deleting whitespace leaves a string without whitespace unchanged. */
  lemma {:induction false} DropSpacesNoSpace(s: string)
    requires forall i :: 0 <= i < |s| ==> !IsSpace(s[i])
    ensures DropSpaces(s) == s
  {
    if s != [] {
      DropSpacesNoSpace(s[1..]);
    }
  }

  /** Deleting whitespace from a whitespace-only string leaves nothing. */
  lemma {:induction false} DropSpacesAllSpace(s: string)
    requires AllSpace(s)
    ensures DropSpaces(s) == []
  {
    if s != [] {
      DropSpacesAllSpace(s[1..]);
    }
  }

  /** Deleting whitespace leaves nothing exactly when there was nothing but whitespace. */
  lemma {:induction false} DropSpacesEmpty(s: string)
    ensures DropSpaces(s) == [] <==> AllSpace(s)
  {
    if s != [] {
      DropSpacesEmpty(s[1..]);
      assert AllSpace(s) <==> IsSpace(s[0]) && AllSpace(s[1..]);
    }
  }

  /** Removing leading whitespace only removes whitespace. */
  lemma TrimStartKeepsNonSpace(s: string)
    ensures DropSpaces(TrimStart(s)) == DropSpaces(s)
  {
    TrimStartSpec(s);
    var a := |s| - |TrimStart(s)|;
    assert s == s[..a] + TrimStart(s);
    DropSpacesAppend(s[..a], TrimStart(s));
    DropSpacesAllSpace(s[..a]);
  }

  /** Removing trailing whitespace only removes whitespace. */
  lemma TrimEndKeepsNonSpace(s: string)
    ensures DropSpaces(TrimEnd(s)) == DropSpaces(s)
  {
    TrimEndSpec(s);
    var k := |TrimEnd(s)|;
    assert s == TrimEnd(s) + s[k..];
    DropSpacesAppend(TrimEnd(s), s[k..]);
    DropSpacesAllSpace(s[k..]);
  }

  /** Trimming only removes whitespace. */
  lemma TrimKeepsNonSpace(s: string)
    ensures DropSpaces(Trim(s)) == DropSpaces(s)
  {
    TrimStartKeepsNonSpace(s);
    TrimEndKeepsNonSpace(TrimStart(s));
  }

  /** The decimal digits of `n`, as `Number.prototype.toString()` writes a non-negative integer. */
  function NatToString(n: nat): (r: string)
    ensures |r| > 0
    ensures forall i :: 0 <= i < |r| ==> '0' <= r[i] <= '9'
    ensures n > 0 ==> r[0] != '0'
    decreases n
  {
    if n < 10 then [Digit(n)] else NatToString(n / 10) + [Digit(n % 10)]
  }

  function Digit(d: nat): (c: char)
    requires d < 10
    ensures '0' <= c <= '9'
  {
    ['0', '1', '2', '3', '4', '5', '6', '7', '8', '9'][d]
  }
}
