/**
  String helpers shared by the backend modules: Python's `str.strip()`,
  `str.strip(chars)`, `str.upper()`, `str.isalpha()` and the code-point
  order Python uses to compare (and pandas to sort) strings.
*/
module Text {

  /** The characters for which Python's `str.isspace()` holds; `str.strip()` with no argument removes them. */
  predicate IsSpace(c: char)
  {
    var n := c as int;
    (0x09 <= n <= 0x0D) || (0x1C <= n <= 0x20) || n == 0x85 || n == 0xA0 || n == 0x1680
    || (0x2000 <= n <= 0x200A) || n == 0x2028 || n == 0x2029 || n == 0x202F || n == 0x205F
    || n == 0x3000
  }

  /** Removes the longest prefix of characters satisfying `p`. */
  function TrimStart(s: string, p: char -> bool): (r: string)
    ensures |r| <= |s| && r == s[|s| - |r|..]
    ensures r != [] ==> !p(r[0])
    ensures forall k :: 0 <= k < |s| - |r| ==> p(s[k])
  {
    if s == [] || !p(s[0]) then s else TrimStart(s[1..], p)
  }

  /** Removes the longest suffix of characters satisfying `p`. */
  function TrimEnd(s: string, p: char -> bool): (r: string)
    ensures |r| <= |s| && r == s[..|r|]
    ensures r != [] ==> !p(r[|r| - 1])
    ensures forall k :: |r| <= k < |s| ==> p(s[k])
  {
    if s == [] || !p(s[|s| - 1]) then s else TrimEnd(s[..|s| - 1], p)
  }

  /** Python's `s.strip(chars)`, with `p` deciding membership in `chars`: the longest prefix and suffix of `chars` go. */
  function Trim(s: string, p: char -> bool): (r: string)
    ensures r != [] ==> !p(r[0]) && !p(r[|r| - 1])
    ensures TrimmedSlice(s, r, p)
    ensures forall c :: c in r ==> c in s
    ensures s == [] || (!p(s[0]) && !p(s[|s| - 1])) ==> r == s
  {
    var t := TrimStart(s, p);
    TrimBothEnds(s, t, TrimEnd(t, p), p);
    TrimEnd(t, p)
  }

  /** `r` is the slice `s[i..j]` of `s`, and every character outside the slice satisfies `p`. */
  predicate TrimmedSlice(s: string, r: string, p: char -> bool)
  {
    exists i, j :: 0 <= i <= j <= |s| && r == s[i..j]
                   && (forall k :: 0 <= k < i ==> p(s[k])) && (forall k :: j <= k < |s| ==> p(s[k]))
  }

  /**
    Removing a prefix `s[..|s| - |t|]` of characters satisfying `p` and then
    a suffix of such characters from what remains leaves a slice of `s`
    between those characters, made of characters of `s` only.
  */
  lemma TrimBothEnds(s: string, t: string, u: string, p: char -> bool)
    requires |t| <= |s| && t == s[|s| - |t|..] && (t != [] ==> !p(t[0]))
    requires forall k :: 0 <= k < |s| - |t| ==> p(s[k])
    requires |u| <= |t| && u == t[..|u|] && (u != [] ==> !p(u[|u| - 1]))
    requires forall k :: |u| <= k < |t| ==> p(t[k])
    ensures u != [] ==> !p(u[0]) && !p(u[|u| - 1])
    ensures TrimmedSlice(s, u, p)
    ensures forall c :: c in u ==> c in s
    ensures s == [] || (!p(s[0]) && !p(s[|s| - 1])) ==> u == s
  {
    var i := |s| - |t|;
    var j := i + |u|;
    assert u == s[i..j];
    forall k | j <= k < |s| ensures p(s[k]) {
      assert s[k] == t[k - i];
    }
    forall c | c in u ensures c in s {
      var m :| 0 <= m < |u| && u[m] == c;
      assert s[i + m] == c;
    }
  }

  /** `s.strip(chars)` is empty exactly when every character of `s` is in `chars`. */
  lemma TrimEmptyIffAll(s: string, p: char -> bool)
    ensures Trim(s, p) == [] <==> forall k :: 0 <= k < |s| ==> p(s[k])
  {
    EmptySliceIffAll(s, Trim(s, p), p);
  }

  /** A slice cut out by `p` that does not start with a `p` character is empty exactly when all of `s` satisfies `p`. */
  lemma EmptySliceIffAll(s: string, r: string, p: char -> bool)
    requires TrimmedSlice(s, r, p) && (r != [] ==> !p(r[0]))
    ensures r == [] <==> forall k :: 0 <= k < |s| ==> p(s[k])
  {
    var i, j :| 0 <= i <= j <= |s| && r == s[i..j]
                && (forall k :: 0 <= k < i ==> p(s[k])) && (forall k :: j <= k < |s| ==> p(s[k]));
    if r != [] {
      assert s[i] == r[0];
    }
  }

  /** Python's `s.strip()`. */
  function Strip(s: string): (r: string)
    ensures TrimmedSlice(s, r, IsSpace)
    ensures r != [] ==> !IsSpace(r[0]) && !IsSpace(r[|r| - 1])
    ensures |r| <= |s|
  {
    Trim(s, IsSpace)
  }

  /** Every character is whitespace. */
  predicate AllSpace(s: string)
  {
    forall i :: 0 <= i < |s| ==> IsSpace(s[i])
  }

  /** `s.strip()` is empty exactly when `s` is made of whitespace only. */
  lemma StripEmptyIffAllSpace(s: string)
    ensures Strip(s) == [] <==> AllSpace(s)
  {
    var t := TrimStart(s, IsSpace);
    assert Strip(s) == TrimEnd(t, IsSpace);
    if AllSpace(s) || Strip(s) == [] {
      assert t == [];
    }
  }

  function UpperChar(c: char): char
  {
    if 'a' <= c <= 'z' then (c as int - 32) as char else c
  }

  /** Python's `s.upper()` on the ASCII range. */
  function Upper(s: string): (r: string)
    ensures |r| == |s|
    ensures forall i :: 0 <= i < |r| ==> !('a' <= r[i] <= 'z')
    ensures forall i :: 0 <= i < |s| && !('a' <= s[i] <= 'z') ==> r[i] == s[i]
    ensures forall i :: 0 <= i < |s| && 'a' <= s[i] <= 'z' ==>
              'A' <= r[i] <= 'Z' && r[i] as int - 'A' as int == s[i] as int - 'a' as int
  {
    seq(|s|, i requires 0 <= i < |s| => UpperChar(s[i]))
  }

  /** The same letter in either ASCII case. */
  predicate SameIgnoringCase(a: char, b: char)
  {
    a == b || ('a' <= a <= 'z' && b as int == a as int - 32) || ('a' <= b <= 'z' && a as int == b as int - 32)
  }

  /** Two strings that differ only in the case of ASCII letters upper-case to the same string. */
  lemma UpperIgnoresCase(s: string, t: string)
    requires |s| == |t| && forall i :: 0 <= i < |s| ==> SameIgnoringCase(s[i], t[i])
    ensures Upper(s) == Upper(t)
  {
    forall i | 0 <= i < |s| ensures Upper(s)[i] == Upper(t)[i] {
      assert 'a' <= s[i] <= 'z' ==> s[i] as int - 'a' as int == Upper(s)[i] as int - 'A' as int;
    }
  }

  /** Upper-casing changes no character's whitespace status and is idempotent. */
  lemma UpperCharFacts(c: char)
    ensures IsSpace(UpperChar(c)) == IsSpace(c)
    ensures UpperChar(UpperChar(c)) == UpperChar(c)
  {
  }

  /** Upper-casing leaves no lower-case ASCII letter and changes no character's whitespace status. */
  lemma UpperKeepsSpace(s: string)
    ensures forall i :: 0 <= i < |s| ==> IsSpace(Upper(s)[i]) == IsSpace(s[i]) && !('a' <= Upper(s)[i] <= 'z')
  {
    forall i | 0 <= i < |s| ensures IsSpace(Upper(s)[i]) == IsSpace(s[i]) {
      UpperCharFacts(s[i]);
    }
  }

  /** `s.upper().upper() == s.upper()` */
  lemma UpperIdempotent(s: string)
    ensures Upper(Upper(s)) == Upper(s)
  {
    var u := Upper(s);
    forall i | 0 <= i < |u| ensures Upper(u)[i] == u[i] {
      assert !('a' <= u[i] <= 'z');
    }
  }

  predicate IsLetter(c: char)
  {
    'A' <= c <= 'Z' || 'a' <= c <= 'z'
  }

  /** Python's `s.isalpha()` on the ASCII range: false on the empty string. */
  predicate IsAlpha(s: string)
  {
    |s| > 0 && forall i :: 0 <= i < |s| ==> IsLetter(s[i])
  }

  /** Python's `a < b` on strings: lexicographic by code point. */
  predicate StrLess(a: string, b: string)
  {
    if a == [] then b != []
    else if b == [] then false
    else if a[0] == b[0] then StrLess(a[1..], b[1..])
    else a[0] < b[0]
  }

  lemma {:induction false} StrLessIrreflexive(a: string)
    ensures !StrLess(a, a)
  {
    if a != [] {
      StrLessIrreflexive(a[1..]);
    }
  }

  lemma {:induction false} StrLessTransitive(a: string, b: string, c: string)
    requires StrLess(a, b) && StrLess(b, c)
    ensures StrLess(a, c)
  {
    if a != [] && b != [] && c != [] && a[0] == b[0] && b[0] == c[0] {
      StrLessTransitive(a[1..], b[1..], c[1..]);
    }
  }

  lemma {:induction false} StrLessTotal(a: string, b: string)
    requires a != b
    ensures StrLess(a, b) || StrLess(b, a)
  {
    if a != [] && b != [] && a[0] == b[0] {
      assert a == [a[0]] + a[1..] && b == [b[0]] + b[1..];
      StrLessTotal(a[1..], b[1..]);
    }
  }
}
