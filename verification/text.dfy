/** The few `java.lang.String` operations the book store applies to what the
    user types: `trim`, `isBlank` and the upper-casing done before a category
    name is looked up.  Characters are Unicode scalar values. */
module Text {

  /** The characters `String.trim` strips from either end: every code point
      up to and including U+0020 (space). */
  predicate Trimmable(c: char) {
    c <= ' '
  }

  /** The characters `Character.isWhitespace` accepts, which `String.isBlank`
      tests: the ASCII controls TAB, LF, VT, FF, CR and FS..US, and every
      Unicode space, line or paragraph separator except the three no-break
      spaces U+00A0, U+2007 and U+202F. */
  predicate Whitespace(c: char) {
    || ('\t' <= c <= '\r')
    || ('\U{1C}' <= c <= ' ')
    || c == '\U{1680}'
    || ('\U{2000}' <= c <= '\U{2006}')
    || ('\U{2008}' <= c <= '\U{200A}')
    || c == '\U{2028}' || c == '\U{2029}'
    || c == '\U{205F}' || c == '\U{3000}'
  }

  /** `String.isBlank`: empty, or nothing but whitespace. */
  predicate IsBlank(s: string) {
    forall i :: 0 <= i < |s| ==> Whitespace(s[i])
  }

  /** Drops the leading trimmable characters. */
  function TrimStart(s: string): string
    decreases |s|
  {
    if |s| > 0 && Trimmable(s[0]) then TrimStart(s[1..]) else s
  }

  /** Drops the trailing trimmable characters. */
  function TrimEnd(s: string): string
    decreases |s|
  {
    if |s| > 0 && Trimmable(s[|s| - 1]) then TrimEnd(s[..|s| - 1]) else s
  }

  /** `String.trim`. */
  function Trim(s: string): string {
    TrimEnd(TrimStart(s))
  }

  /** `TrimStart` removes exactly the longest trimmable prefix. */
  lemma {:induction false} TrimStartDrops(s: string)
    ensures |TrimStart(s)| <= |s| && TrimStart(s) == s[|s| - |TrimStart(s)|..]
    ensures TrimStart(s) == [] || !Trimmable(TrimStart(s)[0])
    ensures forall i :: 0 <= i < |s| - |TrimStart(s)| ==> Trimmable(s[i])
    decreases |s|
  {
    if |s| > 0 && Trimmable(s[0]) {
      TrimStartDrops(s[1..]);
      var r := TrimStart(s[1..]);
      assert TrimStart(s) == r;
      forall i | 0 <= i < |s| - |r| ensures Trimmable(s[i]) {
        if i > 0 { assert s[i] == s[1..][i - 1]; }
      }
    }
  }

  /** `TrimEnd` removes exactly the longest trimmable suffix. */
  lemma {:induction false} TrimEndDrops(s: string)
    ensures |TrimEnd(s)| <= |s| && TrimEnd(s) == s[..|TrimEnd(s)|]
    ensures TrimEnd(s) == [] || !Trimmable(TrimEnd(s)[|TrimEnd(s)| - 1])
    ensures forall i :: |TrimEnd(s)| <= i < |s| ==> Trimmable(s[i])
    decreases |s|
  {
    if |s| > 0 && Trimmable(s[|s| - 1]) {
      TrimEndDrops(s[..|s| - 1]);
      var r := TrimEnd(s[..|s| - 1]);
      assert TrimEnd(s) == r;
      forall i | |r| <= i < |s| ensures Trimmable(s[i]) {
        if i < |s| - 1 { assert s[i] == s[..|s| - 1][i]; }
      }
    }
  }

  /** What `trim` leaves is the infix of `s` that remains after removing a
      trimmable prefix and a trimmable suffix, and it neither starts nor ends
      with a trimmable character. */
  lemma TrimIsInfix(s: string) returns (a: nat)
    ensures a + |Trim(s)| <= |s| && Trim(s) == s[a..a + |Trim(s)|]
    ensures forall i :: 0 <= i < a ==> Trimmable(s[i])
    ensures forall i :: a + |Trim(s)| <= i < |s| ==> Trimmable(s[i])
    ensures Trim(s) == [] || (!Trimmable(Trim(s)[0]) && !Trimmable(Trim(s)[|Trim(s)| - 1]))
  {
    var t := TrimStart(s);
    TrimStartDrops(s);
    var r := TrimEnd(t);
    TrimEndDrops(t);
    a := |s| - |t|;
    assert r == t[..|r|];
    assert forall i :: a + |r| <= i < |s| ==> s[i] == t[i - a];
    assert r == s[a..a + |r|];
    if r != [] {
      assert r[0] == t[0];
    }
  }

  /** Trimming twice is trimming once. */
  lemma TrimIdempotent(s: string)
    ensures Trim(Trim(s)) == Trim(s)
  {
    var r := Trim(s);
    var a := TrimIsInfix(s);
    assert TrimStart(r) == r;
    assert TrimEnd(r) == r;
  }

  /** `trim` yields the empty string exactly when every character is
      trimmable. */
  lemma TrimEmpty(s: string)
    ensures Trim(s) == [] <==> forall i :: 0 <= i < |s| ==> Trimmable(s[i])
  {
    var a := TrimIsInfix(s);
  }

  /** Upper-cases one ASCII letter; any other character is kept. */
  function UpperChar(c: char): char {
    if 'a' <= c <= 'z' then (c as int - 32) as char else c
  }

  /** `String.toUpperCase`, restricted to ASCII letters. */
  function Upper(s: string): (r: string)
    ensures |r| == |s|
    ensures forall i :: 0 <= i < |s| ==> r[i] == UpperChar(s[i])
  {
    seq(|s|, i requires 0 <= i < |s| => UpperChar(s[i]))
  }
}
