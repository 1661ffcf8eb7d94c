/**
 * The C library pieces the program leans on, in the C locale: the <ctype.h>
 * character classes and case maps, and the <string.h> comparisons.
 *
 * A C string is a `string` here. Where the source reads "up to the
 * terminating NUL", `CStr` cuts a sequence at its first '\0'; the comparison
 * functions below stop at a '\0' exactly like their C counterparts, so they
 * are meaningful for any sequence, not only for NUL-free ones.
 */
module CString {

  // ---------------------------------------------------------------------
  // <ctype.h>, C locale
  // ---------------------------------------------------------------------

  /** isblank(): space or horizontal tab. */
  predicate IsBlank(c: char) { c == ' ' || c == '\t' }

  /** isspace(): space, \t, \n, \v, \f, \r. */
  predicate IsSpace(c: char) { c == ' ' || ('\t' <= c <= '\r') }

  predicate IsUpper(c: char) { 'A' <= c <= 'Z' }

  predicate IsLower(c: char) { 'a' <= c <= 'z' }

  /** isalpha(): [A-Za-z]. */
  predicate IsAlpha(c: char) { IsUpper(c) || IsLower(c) }

  predicate IsDigit(c: char) { '0' <= c <= '9' }

  /** isalnum(): [A-Za-z0-9]. */
  predicate IsAlnum(c: char) { IsAlpha(c) || IsDigit(c) }

  /** isgraph(): printable and not a space, '!' .. '~'. */
  predicate IsGraph(c: char) { '!' <= c <= '~' }

  /** isascii() on the int the caller passes. */
  predicate IsAscii(c: int) { 0 <= c <= 127 }

  /** tolower(): upper-case letters to lower case, everything else unchanged. */
  function ToLower(c: char): (r: char)
    ensures IsUpper(c) ==> IsLower(r) && r as int == c as int + 32
    ensures !IsUpper(c) ==> r == c
  {
    if IsUpper(c) then (c as int + 32) as char else c
  }

  /** toupper(): lower-case letters to upper case, everything else unchanged. */
  function ToUpper(c: char): (r: char)
    ensures IsLower(c) ==> IsUpper(r) && r as int == c as int - 32
    ensures !IsLower(c) ==> r == c
  {
    if IsLower(c) then (c as int - 32) as char else c
  }

  // ---------------------------------------------------------------------
  // NUL-terminated strings
  // ---------------------------------------------------------------------

  predicate NulFree(s: string) { '\0' !in s }

  /** The C string a buffer holds: everything before its first NUL. */
  function CStr(s: seq<char>): (r: string)
    ensures NulFree(r) && r <= s
    ensures Cur(r) == Cur(s)
    ensures |r| < |s| ==> s[|r|] == '\0'
  {
    if s == [] || s[0] == '\0' then [] else [s[0]] + CStr(s[1..])
  }

  lemma {:induction false} CStrOfNulFree(s: string)
    requires NulFree(s)
    ensures CStr(s) == s
  {
    if s != [] {
      CStrOfNulFree(s[1..]);
    }
  }

  lemma {:induction false} CStrOfTerminated(s: string, tail: seq<char>)
    requires NulFree(s)
    ensures CStr(s + ['\0'] + tail) == s
  {
    if s == [] {
      assert (s + ['\0'] + tail)[0] == '\0';
    } else {
      assert (s + ['\0'] + tail)[1..] == s[1..] + ['\0'] + tail;
      CStrOfTerminated(s[1..], tail);
    }
  }

  /** strchr() as an index: the first c in s, |s| when there is none. */
  function Find(s: string, c: char): (i: nat)
    ensures i <= |s|
    ensures i < |s| ==> s[i] == c
    ensures c !in s[..i]
  {
    if s == [] || s[0] == c then 0
    else
      assert s[..1 + Find(s[1..], c)] == [s[0]] + s[1..][..Find(s[1..], c)];
      1 + Find(s[1..], c)
  }

  // ---------------------------------------------------------------------
  // strcmp(), strncmp(), strcasecmp(), strncasecmp()
  // ---------------------------------------------------------------------

  /** The character a C string pointer currently reads, as an unsigned
      value; the end of the sequence reads as the terminator 0. */
  function Cur(s: seq<char>): int
  {
    if s == [] then 0 else s[0] as int
  }

  /** strcmp(): difference of the first differing characters, 0 if the
      strings agree up to and including their terminators. */
  function StrCmp(a: seq<char>, b: seq<char>): int
    decreases |a|
  {
    if Cur(a) != Cur(b) then Cur(a) - Cur(b)
    else if Cur(a) == 0 then 0
    else StrCmp(a[1..], b[1..])
  }

  /** strncmp(): strcmp() limited to the first n characters. */
  function StrNCmp(a: seq<char>, b: seq<char>, n: nat): int
    decreases n
  {
    if n == 0 then 0
    else if Cur(a) != Cur(b) then Cur(a) - Cur(b)
    else if Cur(a) == 0 then 0
    else StrNCmp(a[1..], b[1..], n - 1)
  }

  /** The character strcasecmp() compares: the current one, lower-cased. */
  function CurLower(s: seq<char>): int
  {
    if s == [] then 0 else ToLower(s[0]) as int
  }

  /** strcasecmp(): strcmp() on lower-cased characters. */
  function StrCaseCmp(a: seq<char>, b: seq<char>): int
    decreases |a|
  {
    if CurLower(a) != CurLower(b) then CurLower(a) - CurLower(b)
    else if CurLower(a) == 0 then 0
    else StrCaseCmp(a[1..], b[1..])
  }

  /** strncasecmp(): strcasecmp() limited to the first n characters. */
  function StrNCaseCmp(a: seq<char>, b: seq<char>, n: nat): int
    decreases n
  {
    if n == 0 then 0
    else if CurLower(a) != CurLower(b) then CurLower(a) - CurLower(b)
    else if CurLower(a) == 0 then 0
    else StrNCaseCmp(a[1..], b[1..], n - 1)
  }

  /** The first n characters of a C string (all of it when shorter). */
  function Prefix(s: string, n: nat): (r: string)
    ensures |r| == if n < |s| then n else |s|
    ensures r <= s
    ensures n > 0 ==> Cur(r) == Cur(s)
  {
    if n < |s| then s[..n] else s
  }

  /** The string with every character mapped through tolower(). */
  function Lower(s: string): (r: string)
    ensures |r| == |s|
    ensures forall i :: 0 <= i < |s| ==> r[i] == ToLower(s[i])
  {
    if s == [] then [] else [ToLower(s[0])] + Lower(s[1..])
  }

  // ---------------------------------------------------------------------
  // Properties of the comparisons
  // ---------------------------------------------------------------------

  /** strcmp() is antisymmetric: swapping the arguments negates the result. */
  lemma {:induction false} StrCmpSwap(a: seq<char>, b: seq<char>)
    ensures StrCmp(b, a) == -StrCmp(a, b)
    decreases |a|
  {
    if Cur(a) == Cur(b) && Cur(a) != 0 {
      StrCmpSwap(a[1..], b[1..]);
    }
  }

  /** strcmp() reports equality exactly when the two C strings are equal. */
  lemma {:induction false} StrCmpZeroIff(a: seq<char>, b: seq<char>)
    ensures StrCmp(a, b) == 0 <==> CStr(a) == CStr(b)
    decreases |a|
  {
    if Cur(a) == Cur(b) && Cur(a) != 0 {
      StrCmpZeroIff(a[1..], b[1..]);
      assert CStr(a) == [a[0]] + CStr(a[1..]);
      assert CStr(b) == [b[0]] + CStr(b[1..]);
    }
  }

  /** On NUL-free strings (what every caller passes) strcmp() == 0 is plain
      equality. */
  lemma StrCmpZeroIffEqual(a: string, b: string)
    requires NulFree(a) && NulFree(b)
    ensures StrCmp(a, b) == 0 <==> a == b
  {
    StrCmpZeroIff(a, b);
    CStrOfNulFree(a);
    CStrOfNulFree(b);
  }

  /** strcmp() is transitive, and a chain a <= b <= c collapses to equality
      only when both links are equalities. */
  lemma {:induction false} StrCmpTrans(a: seq<char>, b: seq<char>, c: seq<char>)
    requires StrCmp(a, b) <= 0 && StrCmp(b, c) <= 0
    ensures StrCmp(a, c) <= 0
    ensures StrCmp(a, c) == 0 ==> StrCmp(a, b) == 0 && StrCmp(b, c) == 0
    decreases |a|
  {
    if Cur(a) == Cur(b) && Cur(b) == Cur(c) && Cur(a) != 0 {
      StrCmpTrans(a[1..], b[1..], c[1..]);
    }
  }

  /** strncmp() == 0 exactly when the first n characters agree. */
  lemma {:induction false} StrNCmpZeroIff(a: string, b: string, n: nat)
    requires NulFree(a) && NulFree(b)
    ensures StrNCmp(a, b, n) == 0 <==> Prefix(a, n) == Prefix(b, n)
    decreases n
  {
    if n == 0 {
      assert Prefix(a, n) == [] == Prefix(b, n);
    } else if Cur(a) == Cur(b) && Cur(a) != 0 {
      StrNCmpZeroIff(a[1..], b[1..], n - 1);
      assert Prefix(a, n) == [a[0]] + Prefix(a[1..], n - 1);
      assert Prefix(b, n) == [b[0]] + Prefix(b[1..], n - 1);
    } else if Cur(a) == Cur(b) {
      assert a == [] && b == [];
    }
  }

  /** strcasecmp() is strcmp() on the lower-cased strings. */
  lemma {:induction false} StrCaseCmpIsLowerCmp(a: string, b: string)
    ensures StrCaseCmp(a, b) == StrCmp(Lower(a), Lower(b))
    decreases |a|
  {
    if a != [] && b != [] {
      assert Lower(a)[1..] == Lower(a[1..]);
      assert Lower(b)[1..] == Lower(b[1..]);
      if CurLower(a) == CurLower(b) && CurLower(a) != 0 {
        StrCaseCmpIsLowerCmp(a[1..], b[1..]);
      }
    }
  }

  /** A string without upper-case letters. */
  predicate NoUpper(s: string)
  {
    forall i :: 0 <= i < |s| ==> !IsUpper(s[i])
  }

  /** Lower-casing changes nothing in a string without upper-case letters. */
  lemma LowerNoUpper(s: string)
    requires NoUpper(s)
    ensures Lower(s) == s
  {
  }

  /** Lower-casing neither adds nor removes a NUL. */
  lemma LowerNulFree(s: string)
    requires NulFree(s)
    ensures NulFree(Lower(s))
  {
    forall i | 0 <= i < |s|
      ensures Lower(s)[i] != '\0'
    {
      assert s[i] != '\0';
    }
  }

  /** strcasecmp() == 0 on NUL-free strings: equal once lower-cased. */
  lemma StrCaseCmpZeroIff(a: string, b: string)
    requires NulFree(a) && NulFree(b)
    ensures StrCaseCmp(a, b) == 0 <==> Lower(a) == Lower(b)
  {
    StrCaseCmpIsLowerCmp(a, b);
    LowerNulFree(a);
    LowerNulFree(b);
    StrCmpZeroIffEqual(Lower(a), Lower(b));
  }

  /** On strings without upper-case letters strcasecmp() is strcmp(). */
  lemma StrCaseCmpNoUpper(a: string, b: string)
    requires NoUpper(a) && NoUpper(b)
    ensures StrCaseCmp(a, b) == StrCmp(a, b)
  {
    StrCaseCmpIsLowerCmp(a, b);
    LowerNoUpper(a);
    LowerNoUpper(b);
  }
}
