/**
 * The string helpers of src/util: concatenation into a fresh buffer,
 * bounded concatenation into a caller's buffer, string equality and
 * in-place case mapping.
 *
 * A C string argument is modelled by its contents, a NUL-free string; a
 * buffer the helpers write is an array of chars. malloc() failing is a
 * boolean parameter.
 */
module StringUtil {
  import opened CString
  import opened Status

  /** Every piece is a C string's contents. */
  predicate Pieces(ps: seq<string>)
  {
    forall i :: 0 <= i < |ps| ==> NulFree(ps[i])
  }

  /** The pieces one after the other. */
  function Joined(ps: seq<string>): string
  {
    if ps == [] then [] else Joined(ps[..|ps| - 1]) + ps[|ps| - 1]
  }

  /** The sum of the pieces' strlen(). */
  function Total(ps: seq<string>): nat
  {
    if ps == [] then 0 else Total(ps[..|ps| - 1]) + |ps[|ps| - 1]|
  }

  lemma {:induction false} JoinedLength(ps: seq<string>)
    ensures |Joined(ps)| == Total(ps)
  {
    if ps != [] {
      JoinedLength(ps[..|ps| - 1]);
    }
  }

  lemma {:induction false} JoinedNulFree(ps: seq<string>)
    requires Pieces(ps)
    ensures NulFree(Joined(ps))
  {
    if ps != [] {
      JoinedNulFree(ps[..|ps| - 1]);
    }
  }

  /** Joining a prefix of the pieces gives a prefix of the whole. */
  lemma {:induction false} JoinedPrefix(ps: seq<string>, i: nat)
    requires i <= |ps|
    ensures Joined(ps[..i]) <= Joined(ps)
  {
    if i < |ps| {
      var last := ps[..|ps| - 1];
      assert ps[..i] == last[..i];
      JoinedPrefix(last, i);
    } else {
      assert ps[..i] == ps;
    }
  }

  lemma JoinedPair(a: string, b: string)
    ensures Joined([a, b]) == a + b
  {
    assert [a, b][..1] == [a];
    assert Joined([a]) == a by {
      assert [a][..0] == [];
    }
  }

  /** Joining one more piece appends it. */
  lemma JoinedSnoc(ps: seq<string>, i: nat)
    requires i < |ps|
    ensures Joined(ps[..i + 1]) == Joined(ps[..i]) + ps[i]
  {
    assert ps[..i + 1][..i] == ps[..i];
  }

  /** Copies src into dst at offset at: memcpy(dst + at, src, |src|). */
  method CopyInto(dst: array<char>, at: nat, src: string)
    requires at + |src| <= dst.Length
    modifies dst
    ensures dst[..] == old(dst[..at]) + src + old(dst[at + |src|..])
  {
    var k := 0;
    while k < |src|
      invariant 0 <= k <= |src|
      invariant dst[..] == old(dst[..at]) + src[..k] + old(dst[at + k..])
    {
      dst[at + k] := src[k];
      k := k + 1;
      assert dst[..] == old(dst[..at]) + src[..k] + old(dst[at + k..]);
    }
    assert src[..k] == src;
  }

  // ---------------------------------------------------------------------
  // strconcat(), strconcat2(), strconcat2a
  // ---------------------------------------------------------------------

  /**
   * strconcat(): a fresh buffer holding the pieces one after the other and
   * a NUL, or None when the allocation fails.
   */
  method StrConcat(ps: seq<string>, allocates: bool) returns (r: Option<array<char>>)
    requires Pieces(ps)
    ensures r.None? <==> !allocates
    ensures r.Some? ==> fresh(r.value) && r.value[..] == Joined(ps) + ['\0']
  {
    var n := 1;
    var i := 0;
    while i < |ps|
      invariant 0 <= i <= |ps|
      invariant n == 1 + Total(ps[..i])
    {
      assert ps[..i + 1][..i] == ps[..i];
      n := n + |ps[i]|;
      i := i + 1;
    }
    if !allocates {
      return None;
    }
    var s := new char[n];
    assert ps[..i] == ps;
    JoinedLength(ps);
    var m := 0;
    i := 0;
    while i < |ps|
      invariant 0 <= i <= |ps|
      invariant m == |Joined(ps[..i])|
      invariant Joined(ps[..i]) <= Joined(ps)
      invariant s.Length == |Joined(ps)| + 1
      invariant s[..m] == Joined(ps[..i])
    {
      JoinedSnoc(ps, i);
      JoinedPrefix(ps, i + 1);
      CopyInto(s, m, ps[i]);
      m := m + |ps[i]|;
      i := i + 1;
    }
    assert ps[..i] == ps;
    s[m] := '\0';
    assert s[..] == s[..m] + [s[m]];
    return Some(s);
  }

  /** What strconcat() returns reads back as the concatenation. */
  lemma StrConcatReads(ps: seq<string>)
    requires Pieces(ps)
    ensures CStr(Joined(ps) + ['\0']) == Joined(ps)
    ensures |Joined(ps) + ['\0']| == 1 + Total(ps)
  {
    JoinedNulFree(ps);
    JoinedLength(ps);
    CStrOfTerminated(Joined(ps), []);
    assert Joined(ps) + ['\0'] + [] == Joined(ps) + ['\0'];
  }

  /** strconcat2(): strconcat() over the two strings. */
  method StrConcat2(s1: string, s2: string, allocates: bool) returns (r: Option<array<char>>)
    requires NulFree(s1) && NulFree(s2)
    ensures r.None? <==> !allocates
    ensures r.Some? ==> fresh(r.value) && r.value[..] == s1 + s2 + ['\0']
  {
    r := StrConcat([s1, s2], allocates);
    JoinedPair(s1, s2);
  }

  /** The strconcat2a macro: s1, then s2 with its terminator. */
  function StrConcat2a(s1: string, s2: string): (r: seq<char>)
    requires NulFree(s1) && NulFree(s2)
    ensures |r| == |s1| + |s2| + 1
    ensures CStr(r) == s1 + s2
  {
    CStrOfTerminated(s1 + s2, []);
    assert s1 + s2 + ['\0'] + [] == s1 + (s2 + ['\0']);
    s1 + (s2 + ['\0'])
  }

  /** The macro builds the same string strconcat2() allocates. */
  lemma StrConcat2aAgrees(s1: string, s2: string)
    requires NulFree(s1) && NulFree(s2)
    ensures StrConcat2a(s1, s2) == Joined([s1, s2]) + ['\0']
  {
    JoinedPair(s1, s2);
  }

  // ---------------------------------------------------------------------
  // strnconcat(), strnconcat2()
  // ---------------------------------------------------------------------

  function Min(a: int, b: int): int { if a <= b then a else b }

  /**
   * The buffer b after a bounded concatenation of t into its first size
   * slots: as much of t as fits before a NUL, the rest of b untouched.
   */
  function Bounded(b: seq<char>, size: nat, t: string): (r: seq<char>)
    requires 1 <= size <= |b|
  {
    var m := Min(|t|, size - 1);
    t[..m] + ['\0'] + b[m + 1..]
  }

  /**
   * strnconcat(): the buffer holds the first min(total, size - 1) characters
   * of the concatenation and then a NUL; nothing at or beyond index size is
   * written, and the buffer itself is returned. bufSize == 0 would write
   * buf[-1] and is excluded.
   */
  method StrNConcat(buf: array<char>, bufSize: nat, ps: seq<string>) returns (r: array<char>)
    requires 1 <= bufSize <= buf.Length
    modifies buf
    ensures r == buf
    ensures buf[..] == Bounded(old(buf[..]), bufSize, Joined(ps))
  {
    var n: nat := 0;
    var i: nat := 0;
    while i < |ps| && n < bufSize
      invariant ConcatInv(buf[..], old(buf[..]), bufSize, ps, i, n)
      decreases |ps| - i
    {
      n := ConcatPiece(buf, bufSize, ps, i, n, old(buf[..]));
      i := i + 1;
    }
    var m := n;
    if m >= bufSize {
      m := bufSize - 1;
    }
    ConcatDone(buf[..], old(buf[..]), bufSize, ps, i, n, m);
    buf[m] := '\0';
    return buf;
  }

  /** The loop invariant of strnconcat() after the first i pieces. */
  ghost predicate ConcatInv(b: seq<char>, o: seq<char>, size: nat, ps: seq<string>, i: nat, n: nat)
  {
    && i <= |ps| && |b| == |o| && size <= |b|
    && n == Min(|Joined(ps[..i])|, size)
    && Joined(ps[..i]) <= Joined(ps)
    && b[..n] == Joined(ps)[..n]
    && b[n..] == o[n..]
  }

  /** One round of strnconcat(): piece i, cut to what fits, goes to buf + n. */
  method ConcatPiece(buf: array<char>, bufSize: nat, ps: seq<string>, i: nat, n: nat, ghost o: seq<char>)
    returns (n': nat)
    requires i < |ps| && n < bufSize
    requires ConcatInv(buf[..], o, bufSize, ps, i, n)
    modifies buf
    ensures ConcatInv(buf[..], o, bufSize, ps, i + 1, n')
  {
    JoinedSnoc(ps, i);
    JoinedPrefix(ps, i + 1);
    var len := |ps[i]|;
    if n + len >= bufSize {
      len := bufSize - n;
    }
    ghost var b := buf[..];
    CopyInto(buf, n, ps[i][..len]);
    n' := n + len;
    assert buf[..] == b[..n] + ps[i][..len] + b[n'..];
    assert Joined(ps[..i + 1]) == Joined(ps[..i]) + ps[i];
    assert n == |Joined(ps[..i])|;
    assert buf[..n'] == Joined(ps)[..n'] by {
      assert buf[..n'] == b[..n] + ps[i][..len];
      assert Joined(ps)[..n'] == Joined(ps[..i + 1])[..n'];
    }
    assert buf[n'..] == o[n'..];
  }

  /** When the loop of strnconcat() stops, writing the NUL at m completes it. */
  lemma ConcatDone(b: seq<char>, o: seq<char>, size: nat, ps: seq<string>, i: nat, n: nat, m: nat)
    requires 1 <= size
    requires ConcatInv(b, o, size, ps, i, n)
    requires i == |ps| || n >= size
    requires m == if n >= size then size - 1 else n
    ensures m < |b|
    ensures b[m := '\0'] == Bounded(o, size, Joined(ps))
  {
    if n < size {
      assert ps[..i] == ps;
    } else {
      JoinedPrefix(ps, i);
    }
    TerminateAt(b, o, size, Joined(ps), n, m);
  }

  /** Writing the NUL at m into a buffer that holds t[..n] over o. */
  lemma TerminateAt(b: seq<char>, o: seq<char>, size: nat, t: string, n: nat, m: nat)
    requires 1 <= size <= |b| == |o|
    requires n <= |t| && n <= size
    requires b[..n] == t[..n] && b[n..] == o[n..]
    requires (n == |t| && n < size) || n == size
    requires m == if n >= size then size - 1 else n
    ensures m < |b|
    ensures b[m := '\0'] == Bounded(o, size, t)
  {
    assert m == Min(|t|, size - 1);
    var r := b[m := '\0'];
    assert r[..m] == t[..m] by {
      assert b[..n][..m] == t[..n][..m];
    }
    assert r[m + 1..] == o[m + 1..] by {
      assert b[n..][m + 1 - n..] == o[n..][m + 1 - n..];
    }
    assert r == r[..m] + [r[m]] + r[m + 1..];
  }

  /** strnconcat2(): strnconcat() over the two strings. */
  method StrNConcat2(buf: array<char>, bufSize: nat, s1: string, s2: string) returns (r: array<char>)
    requires 1 <= bufSize <= buf.Length
    modifies buf
    ensures r == buf
    ensures buf[..] == Bounded(old(buf[..]), bufSize, s1 + s2)
  {
    JoinedPair(s1, s2);
    r := StrNConcat(buf, bufSize, [s1, s2]);
  }

  /**
   * What strnconcat() leaves behind: the buffer keeps its length and every
   * slot from size on, and reads as the concatenation cut to size - 1
   * characters.
   */
  lemma BoundedReads(b: seq<char>, size: nat, t: string)
    requires 1 <= size <= |b| && NulFree(t)
    ensures |Bounded(b, size, t)| == |b|
    ensures Bounded(b, size, t)[size..] == b[size..]
    ensures CStr(Bounded(b, size, t)) == t[..Min(|t|, size - 1)]
  {
    var m := Min(|t|, size - 1);
    assert t[..m] + ['\0'] + b[m + 1..] == t[..m] + ['\0'] + b[m + 1..];
    assert NulFree(t[..m]) by {
      forall j | 0 <= j < m
        ensures t[..m][j] != '\0'
      {
        assert t[j] != '\0';
      }
    }
    CStrOfTerminated(t[..m], b[m + 1..]);
  }

  /** A concatenation shorter than the buffer is copied whole. */
  lemma BoundedFits(b: seq<char>, size: nat, t: string)
    requires 1 <= size <= |b| && NulFree(t) && |t| < size
    ensures CStr(Bounded(b, size, t)) == t
  {
    BoundedReads(b, size, t);
    assert t[..|t|] == t;
  }

  // ---------------------------------------------------------------------
  // streq(), strneq()
  // ---------------------------------------------------------------------

  /** streq(): strcmp() == 0, that is the two C strings are equal. */
  function StrEq(a: seq<char>, b: seq<char>): (r: bool)
    ensures r <==> CStr(a) == CStr(b)
  {
    StrCmpZeroIff(a, b);
    StrCmp(a, b) == 0
  }

  /** On C strings' contents streq() is equality. */
  lemma StrEqIsEquality(a: string, b: string)
    requires NulFree(a) && NulFree(b)
    ensures StrEq(a, b) <==> a == b
    ensures StrEq(a, b) <==> b == a
  {
    CStrOfNulFree(a);
    CStrOfNulFree(b);
  }

  /** strneq(): strncmp() == 0, that is the first n characters agree. */
  function StrNEq(a: string, b: string, n: nat): (r: bool)
    requires NulFree(a) && NulFree(b)
    ensures r <==> Prefix(a, n) == Prefix(b, n)
  {
    StrNCmpZeroIff(a, b, n);
    StrNCmp(a, b, n) == 0
  }

  // ---------------------------------------------------------------------
  // strlower(), strupper()
  // ---------------------------------------------------------------------

  /** The string with every character mapped through toupper(). */
  function Upper(s: string): (r: string)
    ensures |r| == |s|
    ensures forall i :: 0 <= i < |s| ==> r[i] == ToUpper(s[i])
  {
    if s == [] then [] else [ToUpper(s[0])] + Upper(s[1..])
  }

  /** A buffer after strlower(): its C string lower-cased, the rest kept. */
  function LowerBuffer(b: seq<char>): (r: seq<char>)
  {
    Lower(CStr(b)) + b[|CStr(b)|..]
  }

  /** A buffer after strupper(): its C string upper-cased, the rest kept. */
  function UpperBuffer(b: seq<char>): (r: seq<char>)
  {
    Upper(CStr(b)) + b[|CStr(b)|..]
  }

  /** strlower(): maps every character of the C string in s through tolower(). */
  method StrLower(s: array<char>) returns (r: array<char>)
    requires '\0' in s[..]
    modifies s
    ensures r == s
    ensures s[..] == LowerBuffer(old(s[..]))
  {
    ghost var k := |CStr(s[..])|;
    var p := 0;
    while s[p] != '\0'
      invariant 0 <= p <= k < s.Length
      invariant forall i :: 0 <= i < p ==> s[i] == ToLower(old(s[i]))
      invariant forall i :: p <= i < s.Length ==> s[i] == old(s[i])
      decreases k - p
    {
      assert old(s[..])[p] == CStr(old(s[..]))[p];
      s[p] := ToLower(s[p]);
      p := p + 1;
    }
    assert s[..] == LowerBuffer(old(s[..]));
    return s;
  }

  /** strupper(): maps every character of the C string in s through toupper(). */
  method StrUpper(s: array<char>) returns (r: array<char>)
    requires '\0' in s[..]
    modifies s
    ensures r == s
    ensures s[..] == UpperBuffer(old(s[..]))
  {
    ghost var k := |CStr(s[..])|;
    var p := 0;
    while s[p] != '\0'
      invariant 0 <= p <= k < s.Length
      invariant forall i :: 0 <= i < p ==> s[i] == ToUpper(old(s[i]))
      invariant forall i :: p <= i < s.Length ==> s[i] == old(s[i])
      decreases k - p
    {
      assert old(s[..])[p] == CStr(old(s[..]))[p];
      s[p] := ToUpper(s[p]);
      p := p + 1;
    }
    assert s[..] == UpperBuffer(old(s[..]));
    return s;
  }

  /**
   * strlower() keeps the buffer's length and its string's length, leaves
   * everything but upper-case letters alone, and applying it twice is
   * applying it once.
   */
  lemma LowerBufferIdempotent(b: seq<char>)
    requires '\0' in b
    ensures |LowerBuffer(b)| == |b|
    ensures CStr(LowerBuffer(b)) == Lower(CStr(b))
    ensures LowerBuffer(LowerBuffer(b)) == LowerBuffer(b)
  {
    var c := CStr(b);
    LowerNulFree(c);
    assert b[|c|] == '\0' by { CStrShorter(b); }
    assert b[|c|..] == ['\0'] + b[|c| + 1..];
    CStrOfTerminated(Lower(c), b[|c| + 1..]);
    assert LowerBuffer(b) == Lower(c) + ['\0'] + b[|c| + 1..];
    assert Lower(Lower(c)) == Lower(c);
  }

  /** The same three facts for strupper(). */
  lemma UpperBufferIdempotent(b: seq<char>)
    requires '\0' in b
    ensures |UpperBuffer(b)| == |b|
    ensures CStr(UpperBuffer(b)) == Upper(CStr(b))
    ensures UpperBuffer(UpperBuffer(b)) == UpperBuffer(b)
  {
    var c := CStr(b);
    UpperNulFree(c);
    assert b[|c|] == '\0' by { CStrShorter(b); }
    assert b[|c|..] == ['\0'] + b[|c| + 1..];
    CStrOfTerminated(Upper(c), b[|c| + 1..]);
    assert UpperBuffer(b) == Upper(c) + ['\0'] + b[|c| + 1..];
    assert Upper(Upper(c)) == Upper(c);
  }

  /** A buffer holding a NUL holds a C string shorter than itself. */
  lemma {:induction false} CStrShorter(b: seq<char>)
    requires '\0' in b
    ensures |CStr(b)| < |b|
  {
    if b[0] != '\0' {
      var k :| 0 <= k < |b| && b[k] == '\0';
      assert b[1..][k - 1] == '\0';
      CStrShorter(b[1..]);
    }
  }

  lemma UpperNulFree(s: string)
    requires NulFree(s)
    ensures NulFree(Upper(s))
  {
    forall i | 0 <= i < |s|
      ensures Upper(s)[i] != '\0'
    {
      assert s[i] != '\0';
    }
  }
}
