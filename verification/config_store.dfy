/**
 * The entry store of src/config.c: `struct config` with its entry array,
 * count n and capacity size; config_add_entry(), the (section, key) order
 * entry_cmp() and config_sort_entries(); the binary search of
 * config_get_index() and the typed getters on top of it.
 *
 * An entry holds the three strings its pointers read; the buffer they
 * point into is the field mem, which the parser fills.
 */
module ConfigStore {
  import opened CString
  import opened Status
  import opened Sorting
  import opened ConfigSyntax

  // ---------------------------------------------------------------------
  // entry_cmp()
  // ---------------------------------------------------------------------

  /** entry_cmp(): sections by strcmp(), ties broken by the keys. */
  function EntryCmp(a: Entry, b: Entry): int
  {
    var c := StrCmp(a.section, b.section);
    if c != 0 then c else StrCmp(a.key, b.key)
  }

  /** Swapping the entries negates the comparison. */
  lemma EntryCmpSwap(a: Entry, b: Entry)
    ensures EntryCmp(b, a) == -EntryCmp(a, b)
  {
    StrCmpSwap(a.section, b.section);
    StrCmpSwap(a.key, b.key);
  }

  /** entry_cmp() is transitive, and a chain a <= b <= c compares equal
      end to end only when both links do. */
  lemma EntryCmpTrans(a: Entry, b: Entry, c: Entry)
    requires EntryCmp(a, b) <= 0 && EntryCmp(b, c) <= 0
    ensures EntryCmp(a, c) <= 0
    ensures EntryCmp(a, c) == 0 ==> EntryCmp(a, b) == 0 && EntryCmp(b, c) == 0
  {
    StrCmpTrans(a.section, b.section, c.section);
    if StrCmp(a.section, c.section) == 0 {
      StrCmpTrans(a.key, b.key, c.key);
    }
  }

  /** entry_cmp() is a total preorder, as the sort needs. */
  lemma EntryCmpTotalPreorder()
    ensures TotalPreorder(EntryCmp)
  {
    forall a: Entry, b: Entry
      ensures EntryCmp(a, b) <= 0 || EntryCmp(b, a) <= 0
    {
      EntryCmpSwap(a, b);
    }
    forall a: Entry, b: Entry, c: Entry | EntryCmp(a, b) <= 0 && EntryCmp(b, c) <= 0
      ensures EntryCmp(a, c) <= 0
    {
      EntryCmpTrans(a, b, c);
    }
  }

  /** On C strings entry_cmp() reports equality exactly for entries with
      the same section and key. */
  lemma EntryCmpZeroIff(a: Entry, b: Entry)
    requires NulFree(a.section) && NulFree(a.key) && NulFree(b.section) && NulFree(b.key)
    ensures EntryCmp(a, b) == 0 <==> a.section == b.section && a.key == b.key
  {
    StrCmpZeroIffEqual(a.section, b.section);
    StrCmpZeroIffEqual(a.key, b.key);
  }

  // ---------------------------------------------------------------------
  // Capacity
  // ---------------------------------------------------------------------

  /** The capacity config_load() starts with: one entry per 80 bytes. */
  function InitialSize(fileSize: nat): (r: nat)
    ensures r * 80 <= fileSize < (r + 1) * 80
  {
    fileSize / 80
  }

  /** config_add_entry() as written grows a full array to
      size * 2 - size / 2, which leaves a capacity of 0 at 0. */
  function GrowAsWritten(size: nat): (r: nat)
    ensures size > 0 ==> r > size
    ensures size == 0 ==> r == 0
  {
    size * 2 - size / 2
  }

  /** The growth evidently intended: the same factor, and room for at
      least one entry when the array is empty. */
  function Grow(size: nat): (r: nat)
    ensures r > size
    ensures size > 0 ==> r == GrowAsWritten(size)
  {
    if size == 0 then 1 else size * 2 - size / 2
  }

  /** A file shorter than 80 bytes starts at capacity 0, and growing as
      written keeps it there: the first entry is written at index 0 of an
      array with room for none. */
  lemma GrowFromEmptyFile()
    ensures InitialSize(|"[ui]\nfont=mono\n"|) == 0
    ensures GrowAsWritten(InitialSize(|"[ui]\nfont=mono\n"|)) == 0
    ensures Grow(InitialSize(|"[ui]\nfont=mono\n"|)) == 1
  {
  }

  // ---------------------------------------------------------------------
  // Lookup keys
  // ---------------------------------------------------------------------

  /** The section part of a "section.key" query: up to the first '.'. */
  function QuerySection(query: string): (r: string)
    requires '.' in query
    ensures r + ['.'] + QueryKey(query) == query && '.' !in r
  {
    var i := Find(query, '.');
    assert query == query[..i] + ['.'] + query[i + 1..];
    query[..i]
  }

  /** The key part of a "section.key" query: after the first '.'. */
  function QueryKey(query: string): string
    requires '.' in query
  {
    query[Find(query, '.') + 1..]
  }

  /** The comparison config_get_index() evidently intends: the query
      against an entry, case-insensitively, section first, then key. */
  function Probe(section: string, key: string, e: Entry): int
  {
    var c := StrCaseCmp(section, e.section);
    if c != 0 then c else StrCaseCmp(key, e.key)
  }

  /** The comparison config_get_index() makes: only the first len
      characters of the entry's section take part, so a stored section
      that merely starts with the query's section compares equal. */
  function ProbeAsWritten(query: string, len: nat, e: Entry): int
    requires len < |query|
  {
    var c := StrNCaseCmp(query, e.section, len);
    if c != 0 then c else StrCaseCmp(query[len + 1..], e.key)
  }

  /** A probe result of 0 means the entry has the query's section and key,
      up to case. */
  lemma ProbeZeroIff(section: string, key: string, e: Entry)
    requires NulFree(section) && NulFree(key) && NulFree(e.section) && NulFree(e.key)
    ensures (Probe(section, key, e) == 0)
        <==> (Lower(section) == Lower(e.section) && Lower(key) == Lower(e.key))
  {
    StrCaseCmpZeroIff(section, e.section);
    StrCaseCmpZeroIff(key, e.key);
  }

  /** The entries the query compares greater with all come first, those it
      compares smaller with all come last: what a binary search needs. */
  predicate Partitioned(es: seq<Entry>, probe: Entry -> int)
  {
    forall i, j :: 0 <= i < j < |es| ==>
      (probe(es[j]) > 0 ==> probe(es[i]) > 0) && (probe(es[i]) < 0 ==> probe(es[j]) < 0)
  }

  /** Sections and keys without upper-case letters, where strcasecmp()
      agrees with strcmp(). */
  predicate LowerCase(e: Entry)
  {
    NoUpper(e.section) && NoUpper(e.key)
  }

  /** The search order agrees with the sort order of entry_cmp() when
      no upper-case letters take part: the entries config_sort_entries()
      leaves behind are then partitioned for every query. */
  lemma SortedPartitioned(es: seq<Entry>, section: string, key: string)
    requires Sorted(es, EntryCmp)
    requires forall e :: e in es ==> LowerCase(e)
    requires NoUpper(section) && NoUpper(key)
    ensures Partitioned(es, e => Probe(section, key, e))
  {
    var q := Entry(section, key, "");
    forall e | e in es
      ensures Probe(section, key, e) == EntryCmp(q, e)
    {
      StrCaseCmpNoUpper(section, e.section);
      StrCaseCmpNoUpper(key, e.key);
    }
    forall i, j | 0 <= i < j < |es|
      ensures Probe(section, key, es[j]) > 0 ==> Probe(section, key, es[i]) > 0
      ensures Probe(section, key, es[i]) < 0 ==> Probe(section, key, es[j]) < 0
    {
      assert es[i] in es && es[j] in es;
      assert EntryCmp(es[i], es[j]) <= 0;
      EntryCmpSwap(q, es[i]);
      EntryCmpSwap(q, es[j]);
      if EntryCmp(q, es[j]) > 0 {
        EntryCmpTrans(es[i], es[j], q);
      }
      if EntryCmp(q, es[i]) < 0 {
        EntryCmpTrans(q, es[i], es[j]);
      }
    }
  }

  /** With a section [ui] and a section [uix] holding the same key, the
      query "ui.font" compares equal with the [uix] entry, the one the
      search probes first (index 0 + 2 / 2), while the intended comparison
      only accepts the [ui] entry. */
  lemma PrefixMatchFinding()
    ensures Sorted([Entry("ui", "font", "mono"), Entry("uix", "font", "sans")], EntryCmp)
    ensures ProbeAsWritten("ui.font", 2, Entry("uix", "font", "sans")) == 0
    ensures Probe("ui", "font", Entry("uix", "font", "sans")) != 0
    ensures Probe("ui", "font", Entry("ui", "font", "mono")) == 0
  {
    assert StrCmp("ui", "uix") < 0 by {
      assert "ui"[1..] == "i" && "uix"[1..] == "ix";
      assert "i"[1..] == [] && "ix"[1..] == "x";
    }
    assert StrNCaseCmp("ui.font", "uix", 2) == 0 by {
      assert "ui.font"[1..] == "i.font" && "uix"[1..] == "ix";
    }
    assert StrCaseCmp("font", "font") == 0 by {
      assert "font"[1..] == "ont" && "ont"[1..] == "nt" && "nt"[1..] == "t" && "t"[1..] == [];
    }
    assert "ui.font"[3..] == "font";
    assert StrCaseCmp("ui", "uix") != 0 by {
      assert "ui"[1..] == "i" && "uix"[1..] == "ix";
      assert "i"[1..] == [] && "ix"[1..] == "x";
    }
    assert StrCaseCmp("ui", "ui") == 0 by {
      assert "ui"[1..] == "i" && "i"[1..] == [];
    }
  }

  /** The binary search of config_get_index() over es[0..n), comparing the
      query with each probed entry. */
  method Search(es: array<Entry>, n: nat, probe: Entry -> int) returns (r: int)
    requires n <= es.Length
    ensures -1 <= r < n
    ensures r >= 0 ==> probe(es[r]) == 0
    ensures r < 0 && Partitioned(es[..n], probe) ==> forall i :: 0 <= i < n ==> probe(es[i]) != 0
  {
    var begin, end := 0, n;
    while begin < end
      invariant 0 <= begin <= end <= n
      invariant Partitioned(es[..n], probe) ==> forall i :: 0 <= i < begin ==> probe(es[i]) > 0
      invariant Partitioned(es[..n], probe) ==> forall i :: end <= i < n ==> probe(es[i]) < 0
      decreases end - begin
    {
      var i := begin + (end - begin) / 2;
      var cmp := probe(es[i]);
      if cmp < 0 {
        if Partitioned(es[..n], probe) {
          forall k | i <= k < n
            ensures probe(es[k]) < 0
          {
            if k > i {
              assert es[..n][i] == es[i] && es[..n][k] == es[k];
            }
          }
        }
        end := i;
      } else if cmp > 0 {
        if Partitioned(es[..n], probe) {
          forall k | 0 <= k <= i
            ensures probe(es[k]) > 0
          {
            if k < i {
              assert es[..n][k] == es[k] && es[..n][i] == es[i];
            }
          }
        }
        begin := i + 1;
      } else {
        return i;
      }
    }
    return -1;
  }

  // ---------------------------------------------------------------------
  // The getters' conversions
  // ---------------------------------------------------------------------

  /** What config_get_bool() makes of a value: after lower-casing, "1",
      "y" and "yes" are true, "0", "n" and "no" are false, anything else
      gives the default. */
  function BoolOf(value: string, sub: bool): bool
  {
    var w := Lower(value);
    if w == "1" || w == "y" || w == "yes" then true
    else if w == "0" || w == "n" || w == "no" then false
    else sub
  }

  /** The words config_get_bool() recognises, lower-case. */
  predicate IsBoolWord(w: string)
  {
    w == "1" || w == "y" || w == "yes" || w == "0" || w == "n" || w == "no"
  }

  /** The default decides exactly when the lower-cased value is none of
      the six words; the case of the value never matters. */
  lemma BoolOfDefault(value: string)
    ensures BoolOf(value, true) != BoolOf(value, false) <==> !IsBoolWord(Lower(value))
    ensures forall sub :: BoolOf(value, sub) == BoolOf(Lower(value), sub)
  {
    LowerLower(value);
  }

  /** Lower-casing twice is lower-casing once. */
  lemma LowerLower(s: string)
    ensures Lower(Lower(s)) == Lower(s)
  {
  }

  /** Upper-case spellings are recognised. */
  lemma BoolOfExamples()
    ensures BoolOf("YES", false) && !BoolOf("No", true) && BoolOf("1", false)
    ensures BoolOf("on", true) && !BoolOf("on", false)
  {
    assert Lower("YES") == "yes";
    assert Lower("No") == "no";
    assert Lower("on") == "on";
  }

  /** errno values of Linux. */
  const EINVAL: int := 22
  const ERANGE: int := 34

  const IntMin: int := -0x8000_0000
  const IntMax: int := 0x7fff_ffff
  const U32Max: int := 0xffff_ffff

  /** What strtol() reports for a value: the number, errno, and the text
      left after the number. strtol() itself is not part of this model. */
  datatype Strtol = Strtol(val: int, errno: int, rest: string)

  /** The error config_get_int() and config_get_u32() die with, or 0:
      strtol()'s own errno first, then EINVAL for trailing characters,
      then ERANGE outside [lo, hi]. */
  function ConversionError(c: Strtol, lo: int, hi: int): (err: int)
    ensures err == 0 <==> c.errno == 0 && c.rest == [] && lo <= c.val <= hi
    ensures c.errno == 0 && c.rest != [] ==> err == EINVAL
    ensures c.errno == 0 && c.rest == [] && !(lo <= c.val <= hi) ==> err == ERANGE
  {
    if c.errno != 0 then c.errno
    else if c.rest != [] then EINVAL
    else if c.val < lo || c.val > hi then ERANGE
    else 0
  }

  /** The conversion to uint32_t: reduction modulo 2^32. */
  function ToU32(v: int): (r: int)
    ensures 0 <= r <= U32Max
    ensures 0 <= v <= U32Max ==> r == v
  {
    v % 0x1_0000_0000
  }

  /** A uint32_t returned as int: values above INT_MAX wrap to negative. */
  function ToInt(u: int): (r: int)
    requires 0 <= u <= U32Max
    ensures IntMin <= r <= IntMax
    ensures (r - u) % 0x1_0000_0000 == 0
  {
    if u > IntMax then u - 0x1_0000_0000 else u
  }

  /** config_get_int() returns its value through uint32_t; within the int
      range that gives the value back. */
  lemma IntRoundTrip(v: int)
    requires IntMin <= v <= IntMax
    ensures ToInt(ToU32(v)) == v
  {
  }

  /** The message config_get_int() and config_get_u32() die with. */
  function InvalidInteger(value: string, query: string): string
  {
    "config: invalid integer value \"" + value + "\" for key \"" + query + "\""
  }

  // ---------------------------------------------------------------------
  // struct config
  // ---------------------------------------------------------------------

  /** The outcome of one lookup: -1, or an index of a matching entry;
      -1 means no entry matches whenever the entries are partitioned for
      the query. */
  ghost predicate Answers(es: seq<Entry>, query: string, r: int)
  {
    && -1 <= r < |es|
    && ('.' !in query ==> r == -1)
    && (r >= 0 ==> '.' in query && Probe(QuerySection(query), QueryKey(query), es[r]) == 0)
    && ((r < 0 && '.' in query && Partitioned(es, e => Probe(QuerySection(query), QueryKey(query), e)))
        ==> forall i :: 0 <= i < |es| ==> Probe(QuerySection(query), QueryKey(query), es[i]) != 0)
  }

  class Config {
    /** The file contents and their terminating NUL, cut up by the parser. */
    var mem: array<char>
    var entries: array<Entry>
    var n: nat
    var size: nat

    ghost predicate Valid()
      reads this
    {
      n <= size <= entries.Length
    }

    /** The entries added so far. */
    function Entries(): (r: seq<Entry>)
      reads this, entries
      requires Valid()
      ensures |r| == n
    {
      entries[..n]
    }

    /** config_init(): everything zero. */
    constructor ()
      ensures Valid() && n == 0 && size == 0
      ensures entries.Length == 0 && mem.Length == 0
    {
      mem := new char[0];
      entries := new Entry[0];
      n, size := 0, 0;
    }

    /** config_add_entry(): the entry goes to index n; a full array grows
      first, by Grow(). */
    method AddEntry(e: Entry)
      requires Valid()
      modifies this, entries
      ensures Valid() && mem == old(mem)
      ensures Entries() == old(Entries()) + [e]
      ensures old(n) < old(size) ==> size == old(size) && entries == old(entries)
      ensures old(n) == old(size) ==> size == Grow(old(size)) && fresh(entries)
    {
      if n >= size {
        size := Grow(size);
        var bigger := new Entry[size];
        forall k | 0 <= k < n {
          bigger[k] := entries[k];
        }
        entries := bigger;
      }
      entries[n] := e;
      n := n + 1;
    }

    /** config_sort_entries(): the array is made to hold 2n entries when it
      has room for fewer than that (size itself is left alone), and its
      upper half is the scratch buffer of the sort. */
    method SortEntries()
      requires Valid()
      modifies this, entries
      ensures Valid() && n == old(n) && size == old(size) && mem == old(mem)
      ensures Entries() == HybridSort(old(Entries()), EntryCmp)
      ensures Sorted(Entries(), EntryCmp) && multiset(Entries()) == multiset(old(Entries()))
      ensures 2 * n > size ==> fresh(entries) && entries.Length == 2 * n
      ensures 2 * n <= size ==> entries == old(entries)
    {
      ghost var before := Entries();
      if 2 * n > size {
        var bigger := new Entry[2 * n];
        forall k | 0 <= k < n {
          bigger[k] := entries[k];
        }
        entries := bigger;
      }
      assert entries[..n] == before;
      Sort(entries, n, entries, n, EntryCmp);
      EntryCmpTotalPreorder();
      HybridSortCorrect(before, EntryCmp);
    }

    /** config_get_index(), with the comparison evidently intended. */
    method GetIndex(query: string) returns (r: int)
      requires Valid()
      ensures Answers(Entries(), query, r)
    {
      var i := Find(query, '.');
      if i == |query| {
        return -1;
      }
      r := Search(entries, n, e => Probe(query[..i], query[i + 1..], e));
    }

    /** config_get_index() as written, comparing only the first len
      characters of each stored section. */
    method GetIndexAsWritten(query: string) returns (r: int)
      requires Valid()
      ensures -1 <= r < n
      ensures '.' !in query ==> r == -1
      ensures r >= 0 ==> '.' in query && ProbeAsWritten(query, Find(query, '.'), entries[r]) == 0
    {
      var i := Find(query, '.');
      if i == |query| {
        return -1;
      }
      r := Search(entries, n, e => ProbeAsWritten(query, i, e));
    }

    /** config_get_str(): the value of the entry found, or the default. */
    method GetStr(query: string, sub: string) returns (r: string)
      requires Valid()
      ensures exists k :: Answers(Entries(), query, k) && r == (if k < 0 then sub else Entries()[k].value)
    {
      var k := GetIndex(query);
      if k < 0 {
        return sub;
      }
      return entries[k].value;
    }

    /** config_get_bool(): the value read as a yes/no word, or the default. */
    method GetBool(query: string, sub: bool) returns (b: bool)
      requires Valid()
      ensures exists k :: Answers(Entries(), query, k) && b == (if k < 0 then sub else BoolOf(Entries()[k].value, sub))
    {
      var k := GetIndex(query);
      if k < 0 {
        return sub;
      }
      var w := Lower(entries[k].value);
      if w == "1" || w == "y" || w == "yes" {
        return true;
      }
      if w == "0" || w == "n" || w == "no" {
        return false;
      }
      return sub;
    }

    /** config_get_int(): the value as an int, dying on a conversion error
      or a value outside [INT_MIN, INT_MAX]. */
    method GetInt(query: string, sub: int, strtol: string -> Strtol) returns (r: Outcome<int>)
      requires Valid()
      ensures exists k :: Answers(Entries(), query, k) && (
                if k < 0 then r == Done(sub)
                else if ConversionError(strtol(Entries()[k].value), IntMin, IntMax) != 0 then
                  r == Died(InvalidInteger(Entries()[k].value, query))
                else r == Done(strtol(Entries()[k].value).val))
    {
      var k := GetIndex(query);
      if k < 0 {
        return Done(sub);
      }
      var c := strtol(entries[k].value);
      if ConversionError(c, IntMin, IntMax) != 0 {
        return Died(InvalidInteger(entries[k].value, query));
      }
      IntRoundTrip(c.val);
      return Done(ToInt(ToU32(c.val)));
    }

    /** config_get_u32(): the value as a uint32_t, dying on a conversion
      error or a value outside [0, UINT32_MAX]. */
    method GetU32(query: string, sub: int, strtol: string -> Strtol) returns (r: Outcome<int>)
      requires Valid() && 0 <= sub <= U32Max
      ensures r.Done? ==> 0 <= r.value <= U32Max
      ensures exists k :: Answers(Entries(), query, k) && (
                if k < 0 then r == Done(sub)
                else if ConversionError(strtol(Entries()[k].value), 0, U32Max) != 0 then
                  r == Died(InvalidInteger(Entries()[k].value, query))
                else r == Done(strtol(Entries()[k].value).val))
    {
      var k := GetIndex(query);
      if k < 0 {
        return Done(sub);
      }
      var c := strtol(entries[k].value);
      if ConversionError(c, 0, U32Max) != 0 {
        return Died(InvalidInteger(entries[k].value, query));
      }
      return Done(ToU32(c.val));
    }
  }
}
