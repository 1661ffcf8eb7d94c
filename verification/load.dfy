/**
 * The catalog loader of src/load.c: the executables found on ${PATH}, or
 * the names in the cache file under ${HOME} when that cache is at least as
 * recent as every directory of the search path.
 *
 * The file system is data: modification times by path, file contents by
 * path, and the entries of each directory that can be opened. strverscmp()
 * is the comparator parameter `cmp` of the hybrid sort.
 */
module Load {
  import opened CString
  import opened Status
  import opened Sorting

  // ---------------------------------------------------------------------
  // strsep()
  // ---------------------------------------------------------------------

  /** One call of strsep(&p, sep) on a non-NULL p: the token up to the first
      separator, and what p points to afterwards (NULL when there was no
      separator). */
  function StrSep(s: string, sep: char): (r: (string, Option<string>))
    ensures sep !in r.0
    ensures r.1 == None ==> r.0 == s
    ensures r.1.Some? ==> s == r.0 + [sep] + r.1.value && |r.1.value| < |s|
  {
    var i := Find(s, sep);
    if i == |s| then (s, None)
    else
      assert s == s[..i] + [sep] + s[i + 1..];
      (s[..i], Some(s[i + 1..]))
  }

  /** All the tokens strsep() returns on s before p becomes NULL. */
  function Split(s: string, sep: char): (r: seq<string>)
    ensures |r| >= 1
    ensures forall k :: 0 <= k < |r| ==> sep !in r[k]
    decreases |s|
  {
    var (t, rest) := StrSep(s, sep);
    if rest == None then [t] else [t] + Split(rest.value, sep)
  }

  /** The tokens joined back with the separator between them. */
  function Join(ts: seq<string>, sep: char): string
    requires |ts| >= 1
  {
    if |ts| == 1 then ts[0] else ts[0] + [sep] + Join(ts[1..], sep)
  }

  /** The tokens still to come while p is the given pointer. */
  function Tokens(p: Option<string>, sep: char): seq<string>
  {
    if p.Some? then Split(p.value, sep) else []
  }

  /** One strsep() call moves the first of the tokens still to come to
      the tokens done. */
  lemma TokensStep(all: seq<string>, done: seq<string>, s: string, sep: char)
    requires all == done + Tokens(Some(s), sep)
    ensures all == (done + [StrSep(s, sep).0]) + Tokens(StrSep(s, sep).1, sep)
  {
    assert Tokens(Some(s), sep) == [StrSep(s, sep).0] + Tokens(StrSep(s, sep).1, sep);
  }

  lemma {:induction false} JoinSplit(s: string, sep: char)
    ensures Join(Split(s, sep), sep) == s
    decreases |s|
  {
    var (t, rest) := StrSep(s, sep);
    if rest.Some? {
      JoinSplit(rest.value, sep);
    }
  }

  lemma {:induction false} SplitJoin(ts: seq<string>, sep: char)
    requires |ts| >= 1 && forall k :: 0 <= k < |ts| ==> sep !in ts[k]
    ensures Split(Join(ts, sep), sep) == ts
    decreases |ts|
  {
    var s := Join(ts, sep);
    if |ts| == 1 {
      assert Find(s, sep) == |s|;
    } else {
      var rest := Join(ts[1..], sep);
      assert s == ts[0] + [sep] + rest;
      FindAfter(ts[0], sep, rest);
      assert StrSep(s, sep) == (ts[0], Some(rest)) by {
        assert s[..|ts[0]|] == ts[0];
        assert s[|ts[0]| + 1..] == rest;
      }
      SplitJoin(ts[1..], sep);
    }
  }

  lemma {:induction false} FindAfter(t: string, c: char, rest: string)
    requires c !in t
    ensures Find(t + [c] + rest, c) == |t|
    decreases |t|
  {
    if t != [] {
      assert (t + [c] + rest)[1..] == t[1..] + [c] + rest;
      FindAfter(t[1..], c, rest);
    }
  }

  // ---------------------------------------------------------------------
  // cache_ok()
  // ---------------------------------------------------------------------

  /** A struct timespec modification time. */
  datatype Timespec = Timespec(sec: int, nsec: int)

  /** a is strictly later than b: seconds first, then nanoseconds. */
  predicate Later(a: Timespec, b: Timespec)
  {
    a.sec > b.sec || (a.sec == b.sec && a.nsec > b.nsec)
  }

  /** The loop of cache_ok() over the search-path components left: every
      one must be stat()-able (in mtime) and no later than the cache time. */
  function Fresh(dirs: seq<string>, cacheTime: Timespec, mtime: map<string, Timespec>): bool
  {
    if dirs == [] then true
    else if dirs[0] !in mtime then false
    else if mtime[dirs[0]].sec > cacheTime.sec then false
    else if mtime[dirs[0]].sec == cacheTime.sec && mtime[dirs[0]].nsec > cacheTime.nsec then false
    else Fresh(dirs[1..], cacheTime, mtime)
  }

  /** cache_ok(): the cache can be trusted. mtime holds the modification
      time of every path stat() succeeds on. */
  function CacheOk(cache: string, path: string, mtime: map<string, Timespec>): bool
  {
    cache in mtime && Fresh(Split(path, ':'), mtime[cache], mtime)
  }

  lemma {:induction false} FreshIff(dirs: seq<string>, cacheTime: Timespec, mtime: map<string, Timespec>)
    ensures Fresh(dirs, cacheTime, mtime) <==>
            forall k :: 0 <= k < |dirs| ==> dirs[k] in mtime && !Later(mtime[dirs[k]], cacheTime)
  {
    if dirs != [] {
      FreshIff(dirs[1..], cacheTime, mtime);
      assert forall k :: 1 <= k < |dirs| ==> dirs[k] == dirs[1..][k - 1];
    }
  }

  /** The cache is fresh exactly when it can be stat()ed and every
      component of the search path, the empty ones included, can be
      stat()ed and was modified no later than the cache. */
  lemma CacheOkIff(cache: string, path: string, mtime: map<string, Timespec>)
    ensures CacheOk(cache, path, mtime) <==>
            cache in mtime &&
            forall d :: d in Split(path, ':') ==> d in mtime && !Later(mtime[d], mtime[cache])
  {
    if cache in mtime {
      FreshIff(Split(path, ':'), mtime[cache], mtime);
    }
  }

  /** A component modified at the very same time as the cache does not make
      it stale. */
  lemma SameTimeIsFresh(cache: string, dir: string, mtime: map<string, Timespec>)
    requires cache in mtime && dir in mtime && mtime[dir] == mtime[cache]
    requires ':' !in dir
    ensures CacheOk(cache, dir, mtime)
  {
    SplitJoin([dir], ':');
    CacheOkIff(cache, dir, mtime);
  }

  /** Touching any directory of the search path after the cache makes the
      next load rescan. */
  lemma TouchInvalidates(cache: string, path: string, mtime: map<string, Timespec>, dir: string, t: Timespec)
    requires cache in mtime && dir != cache && dir in Split(path, ':')
    requires Later(t, mtime[cache])
    ensures !CacheOk(cache, path, mtime[dir := t])
  {
    CacheOkIff(cache, path, mtime[dir := t]);
  }

  // ---------------------------------------------------------------------
  // The realloc()-grown item list
  // ---------------------------------------------------------------------

  /** The capacity both growing loops start with. */
  const InitialCapacity: nat := 4096

  /** The capacity after a full list is grown: n_max * 2 - n_max / 2. */
  function Grow(cap: nat): (r: nat)
    ensures cap > 0 ==> r > cap
    ensures r == cap + (cap + 1) / 2
  {
    cap * 2 - cap / 2
  }

  /** The names of a `struct item` array and its count n: cache_read() and
      the scan of do_load() append to it, growing it when it is full. */
  class NameList {
    var items: array<string>
    var n: nat

    ghost predicate Valid()
      reads this
    {
      n <= items.Length && items.Length > 0
    }

    /** The names appended so far. */
    function Contents(): (r: seq<string>)
      reads this, items
      requires Valid()
      ensures |r| == n
    {
      items[..n]
    }

    constructor ()
      ensures Valid() && fresh(items)
      ensures n == 0 && items.Length == InitialCapacity
    {
      items := new string[InitialCapacity];
      n := 0;
    }

    /** Appends a name, first growing a full array by Grow(). */
    method Push(name: string)
      requires Valid()
      modifies this, items
      ensures Valid()
      ensures Contents() == old(Contents()) + [name]
      ensures old(n) < old(items.Length) ==> items == old(items)
      ensures old(n) == old(items.Length) ==> fresh(items) && items.Length == Grow(old(items.Length))
    {
      if n >= items.Length {
        var bigger := new string[Grow(items.Length)];
        forall k | 0 <= k < n {
          bigger[k] := items[k];
        }
        items := bigger;
      }
      items[n] := name;
      n := n + 1;
    }
  }

  // ---------------------------------------------------------------------
  // The cache file: cache_write() and cache_read()
  // ---------------------------------------------------------------------

  /** The comment block cache_write() puts first. */
  const Header: string := "#\n" + "# Automatically generated by wlmenu\n" + "#\n" + "\n"

  /** One line per name. */
  function Lines(names: seq<string>): string
  {
    if names == [] then "" else names[0] + "\n" + Lines(names[1..])
  }

  /** What cache_write() puts in the file. */
  function CacheText(names: seq<string>): string
  {
    Header + Lines(names)
  }

  lemma {:induction false} LinesSnoc(names: seq<string>, x: string)
    ensures Lines(names + [x]) == Lines(names) + x + "\n"
  {
    if names != [] {
      assert (names + [x])[1..] == names[1..] + [x];
      LinesSnoc(names[1..], x);
    }
  }

  /** cache_write(): the header, then the first size names one per line;
      nothing at all when the file cannot be opened. */
  method CacheWrite(list: array<string>, size: nat, canOpen: bool) returns (file: Option<string>)
    requires size <= list.Length
    ensures file == if canOpen then Some(CacheText(list[..size])) else None
  {
    if !canOpen {
      return None;
    }
    var text := Header;
    var i := 0;
    while i < size
      invariant i <= size
      invariant text == Header + Lines(list[..i])
    {
      LinesSnoc(list[..i], list[i]);
      assert list[..i + 1] == list[..i] + [list[i]];
      text := text + list[i] + "\n";
      i := i + 1;
    }
    file := Some(text);
  }

  /** The lines cache_read() skips: comments, lines starting with white
      space, and empty lines. */
  predicate Kept(line: string)
  {
    |line| > 0 && line[0] != '#' && line[0] != ';' && !IsSpace(line[0])
  }

  function Filter(lines: seq<string>): (r: seq<string>)
    ensures forall k :: 0 <= k < |r| ==> Kept(r[k])
  {
    if lines == [] then []
    else if Kept(lines[0]) then [lines[0]] + Filter(lines[1..])
    else Filter(lines[1..])
  }

  /** The names cache_read() returns for the contents of the cache file. */
  function CacheLines(mem: string): seq<string>
  {
    Filter(Split(mem, '\n'))
  }

  /** The trailing-blank loop of cache_read() on the line buffer, starting
      at index len: it blanks white space backwards. */
  function TrimEnd(buf: seq<char>, len: nat): (r: (seq<char>, nat))
    requires len < |buf|
    ensures r.1 <= len && |r.0| == |buf|
    decreases len
  {
    if len > 0 && IsSpace(buf[len]) then TrimEnd(buf[len := '\0'], len - 1) else (buf, len)
  }

  /** The loop starts on the terminating NUL, which is not white space, so
      it never changes the line. */
  lemma TrimEndAtNul(line: string)
    ensures TrimEnd(line + ['\0'], |line|) == (line + ['\0'], |line|)
  {
    assert (line + ['\0'])[|line|] == '\0';
  }

  lemma {:induction false} FilterAppend(a: seq<string>, b: seq<string>)
    ensures Filter(a + b) == Filter(a) + Filter(b)
  {
    if a == [] {
      assert a + b == b;
    } else {
      assert (a + b)[0] == a[0] && (a + b)[1..] == a[1..] + b;
      FilterAppend(a[1..], b);
    }
  }

  /** cache_read() on the contents mem of the cache file: every line that
      is kept, in file order. */
  method CacheRead(mem: string) returns (list: NameList)
    ensures fresh(list) && fresh(list.items) && list.Valid()
    ensures list.Contents() == CacheLines(mem)
  {
    list := new NameList();
    var rest: Option<string> := Some(mem);
    ghost var done: seq<string> := [];
    while rest.Some?
      invariant fresh(list) && fresh(list.items) && list.Valid()
      invariant Split(mem, '\n') == done + Tokens(rest, '\n')
      invariant list.Contents() == Filter(done)
      decreases if rest.Some? then |rest.value| + 1 else 0
    {
      TokensStep(Split(mem, '\n'), done, rest.value, '\n');
      var (line, next) := StrSep(rest.value, '\n');
      rest := next;
      FilterAppend(done, [line]);
      done := done + [line];
      var len := |line|;
      if len > 0 && (line[0] == '#' || line[0] == ';' || IsSpace(line[0])) {
        continue;
      }
      var buf := line + ['\0'];
      TrimEndAtNul(line);
      var trimmed := TrimEnd(buf, len);
      buf, len := trimmed.0, trimmed.1;
      if len == 0 {
        continue;
      }
      assert buf[..len] == line;
      list.Push(buf[..len]);
    }
    assert Split(mem, '\n') == done;
  }

  lemma {:induction false} JoinAppend(a: seq<string>, b: seq<string>, sep: char)
    requires |a| >= 1 && |b| >= 1
    ensures Join(a + b, sep) == Join(a, sep) + [sep] + Join(b, sep)
    decreases |a|
  {
    if |a| > 1 {
      assert (a + b)[1..] == a[1..] + b;
      JoinAppend(a[1..], b, sep);
    }
  }

  lemma {:induction false} LinesJoin(names: seq<string>)
    ensures Lines(names) == Join(names + [""], '\n')
  {
    if names != [] {
      LinesJoin(names[1..]);
      assert (names + [""])[1..] == names[1..] + [""];
    }
  }

  lemma {:induction false} FilterKept(names: seq<string>)
    requires forall k :: 0 <= k < |names| ==> Kept(names[k])
    ensures Filter(names) == names
  {
    if names != [] {
      FilterKept(names[1..]);
    }
  }

  /** The header lines of the cache file. */
  const HeaderLines: seq<string> := ["#", "# Automatically generated by wlmenu", "#", ""]

  lemma HeaderJoin()
    ensures Join(HeaderLines, '\n') + "\n" == Header
  {
    var h := HeaderLines;
    var title := "# Automatically generated by wlmenu";
    assert h[3..] == [""];
    assert h[2..][1..] == h[3..];
    assert Join(h[2..], '\n') == "#" + ['\n'] + "";
    assert h[1..][1..] == h[2..];
    assert Join(h[1..], '\n') == title + ['\n'] + ("#" + ['\n'] + "");
    assert Join(h, '\n') == "#" + ['\n'] + (title + ['\n'] + ("#" + ['\n'] + ""));
    assert title + ['\n'] == "# Automatically generated by wlmenu\n";
    assert "#" + ['\n'] == "#\n";
  }

  lemma CacheTextJoin(names: seq<string>)
    ensures CacheText(names) == Join(HeaderLines + (names + [""]), '\n')
  {
    LinesJoin(names);
    JoinAppend(HeaderLines, names + [""], '\n');
    HeaderJoin();
  }

  /** Round trip: cache_read() gives back exactly the names cache_write()
      wrote, in order, when each is a line cache_read() keeps. */
  lemma CacheRoundTrip(names: seq<string>)
    requires forall k :: 0 <= k < |names| ==> Kept(names[k]) && '\n' !in names[k]
    ensures CacheLines(CacheText(names)) == names
  {
    var all := HeaderLines + (names + [""]);
    CacheTextJoin(names);
    forall k | 0 <= k < |all|
      ensures '\n' !in all[k]
    {
      if 4 <= k < 4 + |names| {
        assert all[k] == names[k - 4];
      }
    }
    SplitJoin(all, '\n');
    assert Filter(all) == names by {
      FilterAppend(HeaderLines, names + [""]);
      FilterAppend(names, [""]);
      FilterKept(names);
      HeaderSkipped();
    }
  }

  /** cache_read() skips every line of the header. */
  lemma HeaderSkipped()
    ensures Filter(HeaderLines) == []
  {
    var h := HeaderLines;
    assert h[3..] == [""] && [""][1..] == [];
    assert Filter(h[3..]) == [];
    assert h[2..][1..] == h[3..];
    assert Filter(h[2..]) == [];
    assert h[1..][1..] == h[2..];
    assert Filter(h[1..]) == [];
  }

  // ---------------------------------------------------------------------
  // The directory scan of do_load()
  // ---------------------------------------------------------------------

  /** A readdir() entry and the st_mode fstatat() reports for it, None when
      fstatat() fails. */
  datatype DirEntry = DirEntry(name: string, mode: Option<bv32>)

  /** S_ISREG(): the file-type bits S_IFMT (0170000) say regular (0100000). */
  predicate IsReg(mode: bv32) { mode & 0xF000 == 0x8000 }

  /** The owner-execute bit S_IXUSR (0100). */
  predicate OwnerExec(mode: bv32) { mode & 0x40 != 0 }

  /** The entries the scan keeps. */
  predicate Selected(e: DirEntry)
  {
    e.mode.Some? && IsReg(e.mode.value) && OwnerExec(e.mode.value)
  }

  /** The names kept from one directory, in readdir() order. */
  function ScanDir(entries: seq<DirEntry>): seq<string>
  {
    if entries == [] then []
    else (if Selected(entries[0]) then [entries[0].name] else []) + ScanDir(entries[1..])
  }

  /** The names kept from the directories of the search path, in order;
      dirs holds the listing of every directory opendir() can open. */
  function ScanPath(path: seq<string>, dirs: map<string, seq<DirEntry>>): seq<string>
  {
    if path == [] then []
    else (if path[0] in dirs then ScanDir(dirs[path[0]]) else []) + ScanPath(path[1..], dirs)
  }

  lemma {:induction false} ScanDirSnoc(entries: seq<DirEntry>, e: DirEntry)
    ensures ScanDir(entries + [e]) == ScanDir(entries) + (if Selected(e) then [e.name] else [])
  {
    if entries == [] {
      assert entries + [e] == [e];
    } else {
      assert (entries + [e])[0] == entries[0] && (entries + [e])[1..] == entries[1..] + [e];
      ScanDirSnoc(entries[1..], e);
    }
  }

  lemma {:induction false} ScanPathSnoc(path: seq<string>, d: string, dirs: map<string, seq<DirEntry>>)
    ensures ScanPath(path + [d], dirs) == ScanPath(path, dirs) + (if d in dirs then ScanDir(dirs[d]) else [])
  {
    var last := if d in dirs then ScanDir(dirs[d]) else [];
    if path == [] {
      assert path + [d] == [d];
      assert ScanPath([d], dirs) == last + ScanPath([], dirs);
    } else {
      var first := if path[0] in dirs then ScanDir(dirs[path[0]]) else [];
      var p := path + [d];
      assert p[0] == path[0] && p[1..] == path[1..] + [d];
      ScanPathSnoc(path[1..], d, dirs);
      assert ScanPath(p, dirs) == first + (ScanPath(path[1..], dirs) + last);
      ConcatAssoc(first, ScanPath(path[1..], dirs), last);
    }
  }

  /** A name is in a directory's scan exactly when a selected entry has it. */
  lemma {:induction false} ScanDirMember(entries: seq<DirEntry>, x: string)
    ensures x in ScanDir(entries) <==> exists e :: e in entries && Selected(e) && e.name == x
  {
    if entries != [] {
      ScanDirMember(entries[1..], x);
      assert forall e :: e in entries <==> e == entries[0] || e in entries[1..];
    }
  }

  /** A name is in the scan exactly when a directory of the search path that
      opens has a selected entry with that name. */
  lemma {:induction false} ScanPathMember(path: seq<string>, dirs: map<string, seq<DirEntry>>, x: string)
    ensures x in ScanPath(path, dirs) <==>
            exists d, e :: d in path && d in dirs && e in dirs[d] && Selected(e) && e.name == x
  {
    if path != [] {
      ScanPathMember(path[1..], dirs, x);
      if path[0] in dirs {
        ScanDirMember(dirs[path[0]], x);
      }
      assert forall d :: d in path <==> d == path[0] || d in path[1..];
    }
  }

  /** The readdir() loop of do_load() over one open directory: entries
      whose fstatat() fails and entries that are not executable regular
      files are skipped, the others appended. */
  method ScanInto(list: NameList, entries: seq<DirEntry>)
    requires list.Valid()
    modifies list, list.items
    ensures list.Valid()
    ensures list.items == old(list.items) || fresh(list.items)
    ensures list.Contents() == old(list.Contents()) + ScanDir(entries)
  {
    var k := 0;
    while k < |entries|
      invariant k <= |entries|
      invariant list.Valid()
      invariant list.items == old(list.items) || fresh(list.items)
      invariant list.Contents() == old(list.Contents()) + ScanDir(entries[..k])
    {
      var e := entries[k];
      ScanDirSnoc(entries[..k], e);
      assert entries[..k + 1] == entries[..k] + [e];
      k := k + 1;
      if e.mode.None? {
        continue;
      }
      if !IsReg(e.mode.value) || !OwnerExec(e.mode.value) {
        continue;
      }
      list.Push(e.name);
    }
    assert entries[..k] == entries;
  }

  /** The scan loop of do_load(): for each component of path in turn, every
      selected entry of the directory, if it opens, is appended. */
  method Scan(path: string, dirs: map<string, seq<DirEntry>>) returns (list: NameList)
    ensures fresh(list) && fresh(list.items) && list.Valid()
    ensures list.Contents() == ScanPath(Split(path, ':'), dirs)
  {
    list := new NameList();
    var rest: Option<string> := Some(path);
    ghost var done: seq<string> := [];
    while rest.Some?
      invariant fresh(list) && fresh(list.items) && list.Valid()
      invariant Split(path, ':') == done + Tokens(rest, ':')
      invariant list.Contents() == ScanPath(done, dirs)
      decreases if rest.Some? then |rest.value| + 1 else 0
    {
      TokensStep(Split(path, ':'), done, rest.value, ':');
      var (token, next) := StrSep(rest.value, ':');
      rest := next;
      ScanPathSnoc(done, token, dirs);
      done := done + [token];
      if token !in dirs {
        continue;
      }
      ScanInto(list, dirs[token]);
    }
    assert Split(path, ':') == done;
  }

  // ---------------------------------------------------------------------
  // dedup()
  // ---------------------------------------------------------------------

  /** The names dedup() keeps: the first one, then each one that strcmp()
      finds different from the last one kept. */
  function Compact(s: seq<string>): (r: seq<string>)
    ensures |r| <= |s| && (r == [] <==> s == [])
    decreases |s|
  {
    if |s| <= 1 then s
    else
      var p := Compact(s[..|s| - 1]);
      if StrCmp(p[|p| - 1], s[|s| - 1]) != 0 then p + [s[|s| - 1]] else p
  }

  /** What dedup() returns: the index of the last name kept, 0 when there
      are none. */
  function DedupIndex(s: seq<string>): nat
  {
    if s == [] then 0 else |Compact(s)| - 1
  }

  /** dedup(): compacts list[0..size) in place so that it starts with the
      kept names, and returns the index of the last one. */
  method Dedup(list: array<string>, size: nat) returns (i: nat)
    requires size <= list.Length
    modifies list
    ensures i == DedupIndex(old(list[..size]))
    ensures size == 0 ==> list[..] == old(list[..])
    ensures size > 0 ==> list[..i + 1] == Compact(old(list[..size]))
    ensures size > 0 ==> list[i + 1..] == old(list[i + 1..])
  {
    ghost var s, L0 := list[..size], list[..];
    if size == 0 {
      return 0;
    }
    i := 0;
    var j := 1;
    ghost var kept := [list[0]];
    DedupStart(s, L0, list[..], kept);
    while j < size
      invariant i < j <= size && |kept| == i + 1
      invariant kept == Compact(s[..j])
      invariant list[..] == kept + L0[i + 1..]
    {
      i, kept := DedupStep(list, i, j, s, L0, kept);
      j := j + 1;
    }
    DedupEnd(s, L0, list[..], i, j, kept);
  }

  lemma DedupStart(s: seq<string>, L0: seq<string>, L: seq<string>, kept: seq<string>)
    requires 0 < |s| <= |L0| && s == L0[..|s|] && L == L0 && kept == [L0[0]]
    ensures kept == Compact(s[..1]) && L == kept + L0[1..]
  {
    assert s[..1] == kept;
  }

  lemma DedupEnd(s: seq<string>, L0: seq<string>, L: seq<string>, i: nat, j: nat,
                 kept: seq<string>)
    requires 0 < j == |s| <= |L0| && i < j && |kept| == i + 1
    requires kept == Compact(s[..j]) && L == kept + L0[i + 1..]
    ensures i == DedupIndex(s)
    ensures L[..i + 1] == Compact(s) && L[i + 1..] == L0[i + 1..]
  {
    assert s[..j] == s;
  }

  /** The body of the dedup() loop for index j: list holds the kept names,
      then the untouched rest of the original array L0. */
  method DedupStep(list: array<string>, i: nat, j: nat, ghost s: seq<string>,
                   ghost L0: seq<string>, ghost kept: seq<string>)
    returns (i2: nat, ghost kept2: seq<string>)
    requires i < j < |s| <= |L0| && s == L0[..|s|] && |kept| == i + 1
    requires list[..] == kept + L0[i + 1..]
    requires kept == Compact(s[..j])
    modifies list
    ensures kept2 == Compact(s[..j + 1])
    ensures |kept2| == i2 + 1 && i2 <= j
    ensures list[..] == kept2 + L0[i2 + 1..]
  {
    assert list[j] == s[j] by {
      assert list[..][j] == L0[j];
    }
    assert list[i] == kept[i];
    CompactStep(s, j, kept);
    i2, kept2 := i, kept;
    if StrCmp(list[i], list[j]) != 0 {
      i2 := i + 1;
      list[i2] := list[j];
      WriteAfter(kept, L0, i2, s[j]);
      kept2 := kept + [s[j]];
    }
  }

  /** Writing x just after the kept prefix extends it by x. */
  lemma WriteAfter(kept: seq<string>, rest: seq<string>, i: nat, x: string)
    requires i == |kept| && i < |rest|
    ensures (kept + rest[i..])[i := x] == (kept + [x]) + rest[i + 1..]
  {
  }

  /** One step of dedup(): the next name is kept when it differs from the
      last one kept. */
  lemma CompactStep(s: seq<string>, j: nat, kept: seq<string>)
    requires 0 < j < |s| && kept == Compact(s[..j])
    ensures kept != []
    ensures Compact(s[..j + 1])
            == if StrCmp(kept[|kept| - 1], s[j]) != 0 then kept + [s[j]] else kept
  {
    assert s[..j + 1][..j] == s[..j];
  }

  /** dedup() with the count it evidently means to return: one more than
      the last index when anything is kept. */
  method DedupCount(list: array<string>, size: nat) returns (count: nat)
    requires size <= list.Length
    modifies list
    ensures count == |Compact(old(list[..size]))|
    ensures list[..count] == Compact(old(list[..size]))
  {
    count := Dedup(list, size);
    if size > 0 {
      count := count + 1;
    }
  }

  /** do_load() takes the index dedup() returns as the number of names: a
      search path holding the single executable "ls" yields no names. */
  lemma DedupIndexDropsLast()
    ensures |Compact(["ls"])| == 1 && DedupIndex(["ls"]) == 0
    ensures |Compact(["cat", "ls"])| == 2 && DedupIndex(["cat", "ls"]) == 1
  {
    assert ["cat", "ls"][..1] == ["cat"];
    assert StrCmp("cat", "ls") != 0;
  }

  lemma {:induction false} CompactAdjacent(s: seq<string>)
    ensures forall k :: 0 <= k < |Compact(s)| - 1 ==>
              StrCmp(Compact(s)[k], Compact(s)[k + 1]) != 0
    decreases |s|
  {
    if |s| > 1 {
      var p := Compact(s[..|s| - 1]);
      CompactAdjacent(s[..|s| - 1]);
      if StrCmp(p[|p| - 1], s[|s| - 1]) != 0 {
        var r := p + [s[|s| - 1]];
        forall k | 0 <= k < |r| - 1
          ensures StrCmp(r[k], r[k + 1]) != 0
        {
          if k < |p| - 1 {
            assert r[k] == p[k] && r[k + 1] == p[k + 1];
          } else {
            assert r[k] == p[|p| - 1] && r[k + 1] == s[|s| - 1];
          }
        }
        assert Compact(s) == r;
      }
    }
  }

  /** Every name dedup() keeps is one of the names it was given. */
  lemma {:induction false} CompactFrom(s: seq<string>, x: string)
    requires x in Compact(s)
    ensures x in s
    decreases |s|
  {
    if |s| > 1 {
      var p := Compact(s[..|s| - 1]);
      if x in p {
        CompactFrom(s[..|s| - 1], x);
      }
    }
  }

  /** The last name kept compares equal to the last name given. */
  lemma {:induction false} CompactLast(s: seq<string>)
    requires s != []
    ensures StrCmp(Compact(s)[|Compact(s)| - 1], s[|s| - 1]) == 0
    decreases |s|
  {
    if |s| > 1 {
      var p := Compact(s[..|s| - 1]);
      if StrCmp(p[|p| - 1], s[|s| - 1]) == 0 {
      } else {
        StrCmpZeroIff(s[|s| - 1], s[|s| - 1]);
      }
    } else {
      StrCmpZeroIff(s[0], s[0]);
    }
  }

  /** dedup() keeps every name it was given, up to strcmp() equality. */
  lemma {:induction false} CompactKeeps(s: seq<string>, x: string)
    requires forall y :: y in s ==> NulFree(y)
    requires x in s
    ensures x in Compact(s)
    decreases |s|
  {
    if |s| > 1 {
      var init := s[..|s| - 1];
      var p := Compact(init);
      if x in init {
        CompactKeeps(init, x);
      } else if StrCmp(p[|p| - 1], s[|s| - 1]) == 0 {
        assert x == s[|s| - 1];
        CompactFrom(init, p[|p| - 1]);
        StrCmpZeroIffEqual(p[|p| - 1], s[|s| - 1]);
      }
    }
  }

  /** Compacting a sorted sequence keeps it sorted. */
  lemma {:induction false} CompactSorted(s: seq<string>, cmp: (string, string) -> int)
    requires Sorted(s, cmp)
    ensures Sorted(Compact(s), cmp)
    decreases |s|
  {
    if |s| > 1 {
      var init := s[..|s| - 1];
      assert Sorted(init, cmp) by {
        forall p, q | 0 <= p < q < |init|
          ensures cmp(init[p], init[q]) <= 0
        {
          assert init[p] == s[p] && init[q] == s[q];
        }
      }
      CompactSorted(init, cmp);
      var c := Compact(init);
      if StrCmp(c[|c| - 1], s[|s| - 1]) != 0 {
        forall y | y in multiset(c)
          ensures cmp(y, s[|s| - 1]) <= 0
        {
          CompactFrom(init, y);
          var i :| 0 <= i < |init| && init[i] == y;
          assert s[i] == y;
        }
        SortedSnoc(c, s[|s| - 1], cmp);
      }
    }
  }

  /** The comparator only ties equal names, as strverscmp() does. */
  ghost predicate Antisymmetric(cmp: (string, string) -> int)
  {
    forall a, b :: cmp(a, b) <= 0 && cmp(b, a) <= 0 ==> a == b
  }

  predicate Distinct(s: seq<string>)
  {
    forall p, q :: 0 <= p < q < |s| ==> s[p] != s[q]
  }

  /** On a list sorted by a comparator that ties only equal names, the
      adjacent-duplicate removal of dedup() removes every duplicate. */
  lemma CompactDistinct(s: seq<string>, cmp: (string, string) -> int)
    requires Sorted(s, cmp) && Antisymmetric(cmp)
    ensures Distinct(Compact(s))
  {
    var r := Compact(s);
    CompactSorted(s, cmp);
    CompactAdjacent(s);
    forall p, q | 0 <= p < q < |r|
      ensures r[p] != r[q]
    {
      StrCmpZeroIff(r[p], r[p]);
      assert r[p] != r[p + 1];
      if p + 1 < q {
        assert cmp(r[p], r[p + 1]) <= 0 && cmp(r[p + 1], r[q]) <= 0;
      }
    }
  }

  /** The names sort() and a counting dedup() produce from any list of C
      strings: sorted, free of duplicates, and the same set of names. */
  lemma SortCompact(names: seq<string>, cmp: (string, string) -> int)
    requires TotalPreorder(cmp) && Antisymmetric(cmp)
    requires forall x :: x in names ==> NulFree(x)
    ensures var d := Compact(HybridSort(names, cmp));
            Sorted(d, cmp) && Distinct(d) && forall x :: x in d <==> x in names
  {
    var h := HybridSort(names, cmp);
    HybridSortCorrect(names, cmp);
    CompactSorted(h, cmp);
    CompactDistinct(h, cmp);
    forall y | y in h
      ensures NulFree(y)
    {
      assert y in multiset(h);
    }
    forall x
      ensures x in Compact(h) <==> x in names
    {
      assert x in h <==> x in multiset(h);
      assert x in names <==> x in multiset(names);
      if x in Compact(h) {
        CompactFrom(h, x);
      }
      if x in names {
        CompactKeeps(h, x);
      }
    }
  }

  // ---------------------------------------------------------------------
  // do_load() and load()
  // ---------------------------------------------------------------------

  /** sort() on the names, with a scratch buffer of its own. */
  method SortNames(list: array<string>, size: nat, cmp: (string, string) -> int)
    requires size <= list.Length
    modifies list
    ensures list[..size] == HybridSort(old(list[..size]), cmp)
    ensures list[size..] == old(list[size..])
  {
    var buf := new string[size];
    Sort(list, size, buf, 0, cmp);
  }

  /**
   * What do_load() sees of the file system: modification times for stat(),
   * the contents of the files open() can read, the entries of the
   * directories opendir() can open, and the paths fopen() can create.
   */
  datatype FileSystem = FileSystem(
    mtime: map<string, Timespec>,
    files: map<string, string>,
    dirs: map<string, seq<DirEntry>>,
    writable: set<string>)

  /**
   * The search path do_load() scans after cache_ok() said no. load() hands
   * both functions the same copy of $PATH, and cache_ok() cuts it with
   * strsep(): once the cache file stats, the loop's first strsep() writes a
   * NUL over the first ':', so the buffer then reads as the first component
   * alone. When the cache does not stat the buffer is left as it was.
   */
  function PathLeft(cache: string, path: string, mtime: map<string, Timespec>): (r: string)
    ensures r <= path
    ensures cache !in mtime ==> r == path
    ensures cache in mtime ==> Split(r, ':') == Split(path, ':')[..1]
  {
    if cache in mtime then
      var first := StrSep(path, ':').0;
      assert Find(first, ':') == |first|;
      first
    else path
  }

  /** What do_load() returns, or the message it dies with, and the text it
      writes to the cache file, given the names a cache miss produces. */
  function LoadResult(path: string, cache: string, fs: FileSystem, missNames: seq<string>)
    : (r: (Outcome<seq<string>>, Option<string>))
    ensures r.1.Some? ==> r.0.Done? && r.1.value == CacheText(r.0.value)
    ensures !CacheOk(cache, path, fs.mtime) ==> r.0 == Done(missNames)
  {
    if CacheOk(cache, path, fs.mtime) then
      if cache in fs.files then (Done(CacheLines(fs.files[cache])), None)
      else (Died("Failed to open cache\n"), None)
    else
      (Done(missNames), if cache in fs.writable then Some(CacheText(missNames)) else None)
  }

  /** do_load() as written: on a miss it scans what cache_ok() left of the
      path and takes dedup()'s index for the count of names. */
  function LoadSpec(path: string, cache: string, fs: FileSystem, cmp: (string, string) -> int)
    : (r: (Outcome<seq<string>>, Option<string>))
    ensures r.1.Some? ==> r.0.Done? && r.1.value == CacheText(r.0.value)
  {
    LoadResult(path, cache, fs, MissNamesAsWritten(ScanPath(Split(PathLeft(cache, path, fs.mtime), ':'), fs.dirs), cmp))
  }

  /** do_load() as evidently intended: on a miss it scans every component
      of the path and keeps every name dedup() compacts to. */
  function LoadSpecFixed(path: string, cache: string, fs: FileSystem, cmp: (string, string) -> int)
    : (r: (Outcome<seq<string>>, Option<string>))
    ensures r.1.Some? ==> r.0.Done? && r.1.value == CacheText(r.0.value)
  {
    LoadResult(path, cache, fs, Compact(HybridSort(ScanPath(Split(path, ':'), fs.dirs), cmp)))
  }

  /** The names do_load() as written returns on a cache miss: it takes the
      index dedup() returns for the count of names. */
  function MissNamesAsWritten(scan: seq<string>, cmp: (string, string) -> int): (r: seq<string>)
    ensures |r| == DedupIndex(HybridSort(scan, cmp))
    ensures r <= Compact(HybridSort(scan, cmp))
  {
    var sorted := HybridSort(scan, cmp);
    Compact(sorted)[..DedupIndex(sorted)]
  }

  /** do_load() as written: read a fresh cache, or scan what is left of the
      search path, sort, dedup and write the cache. */
  method DoLoad(path: string, cache: string, fs: FileSystem, cmp: (string, string) -> int)
    returns (out: Outcome<NameList>, written: Option<string>)
    ensures written == LoadSpec(path, cache, fs, cmp).1
    ensures out.Died? <==> LoadSpec(path, cache, fs, cmp).0.Died?
    ensures out.Died? ==> out.message == LoadSpec(path, cache, fs, cmp).0.message
    ensures out.Done? ==> fresh(out.value) && out.value.Valid()
                          && out.value.Contents() == LoadSpec(path, cache, fs, cmp).0.value
  {
    if CacheOk(cache, path, fs.mtime) {
      if cache !in fs.files {
        return Died("Failed to open cache\n"), None;
      }
      var list := CacheRead(fs.files[cache]);
      return Done(list), None;
    }
    var list := Scan(PathLeft(cache, path, fs.mtime), fs.dirs);
    ghost var sorted := HybridSort(list.Contents(), cmp);
    SortNames(list.items, list.n, cmp);
    assert list.items[..list.n] == sorted;
    var n := Dedup(list.items, list.n);
    assert list.items[..n] == MissNamesAsWritten(ScanPath(Split(PathLeft(cache, path, fs.mtime), ':'), fs.dirs), cmp) by {
      if |sorted| > 0 {
        assert list.items[..n] == list.items[..n + 1][..n];
      }
    }
    list.n := n;
    written := CacheWrite(list.items, n, cache in fs.writable);
    out := Done(list);
  }

  /** do_load() as evidently intended: the scan covers the whole search
      path and the count is the number of names dedup() keeps. */
  method DoLoadFixed(path: string, cache: string, fs: FileSystem, cmp: (string, string) -> int)
    returns (out: Outcome<NameList>, written: Option<string>)
    ensures written == LoadSpecFixed(path, cache, fs, cmp).1
    ensures out.Died? <==> LoadSpecFixed(path, cache, fs, cmp).0.Died?
    ensures out.Died? ==> out.message == LoadSpecFixed(path, cache, fs, cmp).0.message
    ensures out.Done? ==> fresh(out.value) && out.value.Valid()
                          && out.value.Contents() == LoadSpecFixed(path, cache, fs, cmp).0.value
  {
    if CacheOk(cache, path, fs.mtime) {
      if cache !in fs.files {
        return Died("Failed to open cache\n"), None;
      }
      var list := CacheRead(fs.files[cache]);
      return Done(list), None;
    }
    var list := Scan(path, fs.dirs);
    ghost var sorted := HybridSort(list.Contents(), cmp);
    SortNames(list.items, list.n, cmp);
    assert list.items[..list.n] == sorted;
    var n := DedupCount(list.items, list.n);
    list.n := n;
    written := CacheWrite(list.items, n, cache in fs.writable);
    out := Done(list);
  }

  /** Where load() keeps the cache: under $HOME. */
  function CachePath(home: string): (r: string)
    ensures |r| == |home| + 20 && r[..|home|] == home
  {
    home + "/.cache/wlmenu/cache"
  }

  /** load(): dies when PATH or HOME is not set, otherwise do_load() on
      $PATH with the cache under $HOME. */
  method Load(env: map<string, string>, fs: FileSystem, cmp: (string, string) -> int)
    returns (out: Outcome<NameList>, written: Option<string>)
    ensures "PATH" !in env ==> out == Died("Failed to retrieve ${PATH}\n") && written == None
    ensures "PATH" in env && "HOME" !in env ==>
              out == Died("Failed to retrieve ${HOME}\n") && written == None
    ensures "PATH" in env && "HOME" in env ==>
              var r := LoadSpec(env["PATH"], CachePath(env["HOME"]), fs, cmp);
              && written == r.1
              && (out.Died? <==> r.0.Died?)
              && (out.Died? ==> out.message == r.0.message)
              && (out.Done? ==> fresh(out.value) && out.value.Valid()
                                && out.value.Contents() == r.0.value)
  {
    if "PATH" !in env {
      return Died("Failed to retrieve ${PATH}\n"), None;
    }
    if "HOME" !in env {
      return Died("Failed to retrieve ${HOME}\n"), None;
    }
    out, written := DoLoad(env["PATH"], CachePath(env["HOME"]), fs, cmp);
  }

  /** On a cache miss do_load() as written drops a name of any non-empty
      scan: the last one of the sorted, compacted names. */
  lemma LoadMissDropsLast(path: string, cache: string, fs: FileSystem, cmp: (string, string) -> int)
    requires TotalPreorder(cmp) && Antisymmetric(cmp)
    requires !CacheOk(cache, path, fs.mtime)
    requires var scan := ScanPath(Split(PathLeft(cache, path, fs.mtime), ':'), fs.dirs);
             scan != [] && forall x :: x in scan ==> NulFree(x)
    ensures var scan := ScanPath(Split(PathLeft(cache, path, fs.mtime), ':'), fs.dirs);
            exists x :: x in scan && x !in LoadSpec(path, cache, fs, cmp).0.value
  {
    var scan := ScanPath(Split(PathLeft(cache, path, fs.mtime), ':'), fs.dirs);
    var d := Compact(HybridSort(scan, cmp));
    SortCompact(scan, cmp);
    var last := d[|d| - 1];
    assert last in scan;
    assert MissNamesAsWritten(scan, cmp) == d[..|d| - 1];
  }

  /**
   * After a stale cache do_load() as written rescans only the first
   * component: with PATH "/a:/b", a cache older than /a, and an executable
   * in each directory, the one in /b is never found, though the intended
   * rescan finds it.
   */
  lemma RescanFirstOnly(cmp: (string, string) -> int)
    requires TotalPreorder(cmp) && Antisymmetric(cmp)
    ensures var fs := StaleExample();
            && !CacheOk("/c", "/a:/b", fs.mtime)
            && ScanPath(Split(PathLeft("/c", "/a:/b", fs.mtime), ':'), fs.dirs) == ["x"]
            && ScanPath(Split("/a:/b", ':'), fs.dirs) == ["x", "y"]
            && "y" !in LoadSpec("/a:/b", "/c", fs, cmp).0.value
            && "y" in LoadSpecFixed("/a:/b", "/c", fs, cmp).0.value
  {
    var fs := StaleExample();
    ExampleScans();
    var names := LoadSpec("/a:/b", "/c", fs, cmp).0.value;
    assert names <= Compact(HybridSort(["x"], cmp));
    SortedNamesFromScan(["x"], cmp, "y");
    LoadMissKeepsAll("/a:/b", "/c", fs, cmp);
  }

  /** Sorting and compacting a scan brings in no name of its own. */
  lemma SortedNamesFromScan(scan: seq<string>, cmp: (string, string) -> int, x: string)
    requires TotalPreorder(cmp)
    ensures x in Compact(HybridSort(scan, cmp)) ==> x in scan
  {
    if x in Compact(HybridSort(scan, cmp)) {
      HybridSortCorrect(scan, cmp);
      CompactFrom(HybridSort(scan, cmp), x);
      assert x in multiset(HybridSort(scan, cmp));
    }
  }

  /** The two scans of RescanFirstOnly: the first component alone, and
      the whole path. */
  lemma ExampleScans()
    ensures Split(PathLeft("/c", "/a:/b", StaleExample().mtime), ':') == ["/a"]
    ensures Split("/a:/b", ':') == ["/a", "/b"]
    ensures ScanPath(["/a"], StaleExample().dirs) == ["x"]
    ensures ScanPath(["/a", "/b"], StaleExample().dirs) == ["x", "y"]
  {
    var fs := StaleExample();
    assert StrSep("/a:/b", ':') == ("/a", Some("/b")) by {
      assert Find("/a:/b", ':') == 2;
      assert "/a:/b"[..2] == "/a" && "/a:/b"[3..] == "/b";
    }
    assert StrSep("/b", ':') == ("/b", None) by {
      assert Find("/b", ':') == 2;
    }
    assert Split("/a:/b", ':') == ["/a", "/b"];
    assert Split("/a", ':') == ["/a"] by {
      assert StrSep("/a", ':') == ("/a", None) by {
        assert Find("/a", ':') == 2;
      }
    }
    assert Selected(DirEntry("x", Some(0x8040)));
    assert Selected(DirEntry("y", Some(0x8040)));
    assert ScanPath(["/a"], fs.dirs) == ["x"] by {
      assert ScanDir([DirEntry("x", Some(0x8040))]) == ["x"];
    }
    assert ScanPath(["/a", "/b"], fs.dirs) == ["x", "y"] by {
      assert ScanDir([DirEntry("y", Some(0x8040))]) == ["y"];
      ScanPathSnoc(["/a"], "/b", fs.dirs);
      assert ["/a", "/b"] == ["/a"] + ["/b"];
    }
  }

  /** The file system of RescanFirstOnly: the cache at /c is later than
      /b but older than /a, and each directory holds one executable. */
  function StaleExample(): (fs: FileSystem)
    ensures "/c" in fs.mtime && "/a" in fs.mtime && Later(fs.mtime["/a"], fs.mtime["/c"])
    ensures "/b" in fs.mtime && !Later(fs.mtime["/b"], fs.mtime["/c"])
  {
    FileSystem(
      map["/c" := Timespec(1, 0), "/a" := Timespec(2, 0), "/b" := Timespec(0, 0)],
      map[],
      map["/a" := [DirEntry("x", Some(0x8040))], "/b" := [DirEntry("y", Some(0x8040))]],
      {})
  }

  /** On a cache miss the catalog holds every name the scan found, once
      each, sorted. */
  lemma LoadMissKeepsAll(path: string, cache: string, fs: FileSystem, cmp: (string, string) -> int)
    requires TotalPreorder(cmp) && Antisymmetric(cmp)
    requires !CacheOk(cache, path, fs.mtime)
    requires forall x :: x in ScanPath(Split(path, ':'), fs.dirs) ==> NulFree(x)
    ensures var names := LoadSpecFixed(path, cache, fs, cmp).0.value;
            Sorted(names, cmp) && Distinct(names)
            && forall x :: x in names <==> x in ScanPath(Split(path, ':'), fs.dirs)
  {
    SortCompact(ScanPath(Split(path, ':'), fs.dirs), cmp);
  }

  /** The elements of the catalog of a cache miss all come from the scan. */
  lemma MissFromScan(path: string, cache: string, fs: FileSystem, cmp: (string, string) -> int, x: string)
    requires TotalPreorder(cmp)
    requires !CacheOk(cache, path, fs.mtime)
    requires x in LoadSpecFixed(path, cache, fs, cmp).0.value
    ensures x in ScanPath(Split(path, ':'), fs.dirs)
  {
    var scan := ScanPath(Split(path, ':'), fs.dirs);
    var sorted := HybridSort(scan, cmp);
    HybridSortCorrect(scan, cmp);
    CompactFrom(sorted, x);
    assert x in multiset(sorted);
  }

  /**
   * A later run reads back what a cache miss wrote: once the written cache
   * is fresh, do_load() returns the same names from it, provided every
   * scanned name is a line cache_read() keeps.
   */
  lemma ReloadReadsBack(path: string, cache: string, fs: FileSystem, fs2: FileSystem,
                        cmp: (string, string) -> int)
    requires TotalPreorder(cmp)
    requires !CacheOk(cache, path, fs.mtime) && cache in fs.writable
    requires forall x :: x in ScanPath(Split(path, ':'), fs.dirs) ==> Kept(x) && '\n' !in x
    requires fs2.files == fs.files[cache := LoadSpecFixed(path, cache, fs, cmp).1.value]
    requires CacheOk(cache, path, fs2.mtime)
    ensures LoadSpecFixed(path, cache, fs2, cmp).0 == LoadSpecFixed(path, cache, fs, cmp).0
  {
    var names := LoadSpecFixed(path, cache, fs, cmp).0.value;
    forall k | 0 <= k < |names|
      ensures Kept(names[k]) && '\n' !in names[k]
    {
      MissFromScan(path, cache, fs, cmp, names[k]);
    }
    CacheRoundTrip(names);
  }
}
