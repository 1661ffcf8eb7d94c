/**
 * The configuration file syntax that the parser of src/config.c accepts,
 * as functions of the file text t and a position p in it.
 *
 * The text is the file contents followed by the NUL that config_load()
 * appends; the parser never reads past the first NUL. Each function
 * returns what the parser function of the same name leaves behind: the
 * string it cuts out, the position of the cursor and the line counter; or
 * the line and reason it dies with.
 */
module ConfigSyntax {
  import opened CString

  /** A `struct config_entry`: the three strings its pointers read. */
  datatype Entry = Entry(section: string, key: string, value: string)

  /** Why the parser dies; each is one die() call of the source. */
  datatype Reason =
    | InvalidEndOfLine(c: char)
    | SectionComment
    | SectionNewline
    | SectionEof
    | SectionStart
    | SectionNameComment(c: char)
    | SectionNameNewline
    | SectionNameEof
    | SectionNameChar(c: char)
    | MissingBracket(c: char)
    | KeyComment
    | KeyNewline
    | KeyEof
    | KeyChar(c: char)
    | ValueComment
    | ValueNewline
    | ValueEof
    | ValueStart(c: char)
    | ValueChar(c: char)
    | KeyStart(c: char)
    | OutsideSection(c: char)

  /** A parser step: what it read, the cursor and line after it; or the
      line it died on and why. */
  datatype Parsed<T> = Ok(value: T, pos: nat, line: int) | Error(line: int, reason: Reason)

  /** The buffer ends with the NUL config_load() writes. */
  predicate Terminated(t: seq<char>) { |t| > 0 && t[|t| - 1] == '\0' }

  /** The number of line breaks in t[a..b]. */
  function Newlines(t: seq<char>, a: nat, b: nat): nat
    requires a <= b <= |t|
    decreases b - a
  {
    if a == b then 0 else (if t[a] == '\n' then 1 else 0) + Newlines(t, a + 1, b)
  }

  /** The cursor sits at the start of a line, or on the terminating NUL. */
  predicate AtLineStart(t: seq<char>, q: nat)
    requires q < |t|
  {
    t[q] == '\0' || (q > 0 && t[q - 1] == '\n')
  }

  /** Characters a value may continue with. */
  predicate IsValueChar(c: char) { IsGraph(c) && c != '#' && c != ';' }

  predicate IsSectionName(s: string)
  {
    s != [] && forall i :: 0 <= i < |s| ==> IsAlpha(s[i])
  }

  predicate IsKey(s: string)
  {
    s != [] && IsAlpha(s[0]) && forall i :: 0 <= i < |s| ==> IsAlnum(s[i])
  }

  predicate IsValue(s: string)
  {
    s != [] && forall i :: 0 <= i < |s| ==> IsValueChar(s[i])
  }

  /** What every entry the parser records looks like. */
  predicate WellFormed(e: Entry)
  {
    IsSectionName(e.section) && IsKey(e.key) && IsValue(e.value)
  }

  // ---------------------------------------------------------------------
  // Counting line breaks
  // ---------------------------------------------------------------------

  /** Line breaks of adjacent stretches add up. */
  lemma {:induction false} NewlinesJoin(t: seq<char>, a: nat, b: nat, c: nat)
    requires a <= b <= c <= |t|
    ensures Newlines(t, a, c) == Newlines(t, a, b) + Newlines(t, b, c)
    decreases b - a
  {
    if a < b {
      NewlinesJoin(t, a + 1, b, c);
    }
  }

  /** A stretch of the text without a line break counts none. */
  lemma {:induction false} NewlinesNone(t: seq<char>, a: nat, b: nat)
    requires a <= b <= |t| && forall i :: a <= i < b ==> t[i] != '\n'
    ensures Newlines(t, a, b) == 0
    decreases b - a
  {
    if a < b {
      NewlinesNone(t, a + 1, b);
    }
  }

  // ---------------------------------------------------------------------
  // Scanning
  // ---------------------------------------------------------------------

  /** The character classes the parser skips over with a loop. */
  datatype CharClass = Alphas | Alnums | Blanks | ValueChars

  predicate InClass(k: CharClass, c: char)
  {
    match k
    case Alphas => IsAlpha(c)
    case Alnums => IsAlnum(c)
    case Blanks => IsBlank(c)
    case ValueChars => IsValueChar(c)
  }

  /** The first index at or after p whose character is not in class k. No
      class holds the terminating NUL, so the scan stops on it at the
      latest. */
  function Span(t: seq<char>, p: nat, k: CharClass): (e: nat)
    requires Terminated(t) && p < |t|
    ensures p <= e < |t| && !InClass(k, t[e])
    ensures forall i :: p <= i < e ==> InClass(k, t[i])
    decreases |t| - p
  {
    if InClass(k, t[p]) then Span(t, p + 1, k) else p
  }

  /** Span stops exactly at the first character outside the class. */
  lemma {:induction false} SpanTo(t: seq<char>, p: nat, q: nat, k: CharClass)
    requires Terminated(t) && p <= q < |t|
    requires forall i :: p <= i < q ==> InClass(k, t[i])
    requires !InClass(k, t[q])
    ensures Span(t, p, k) == q
    decreases q - p
  {
    if p < q {
      SpanTo(t, p + 1, q, k);
    }
  }

  /** parser_skip_comment(): up to and including the next line break, or up
      to the NUL. */
  function SkipComment(t: seq<char>, p: nat, line: int): (r: (nat, int))
    requires Terminated(t) && p < |t|
    ensures p <= r.0 < |t| && (r.0 == p ==> t[p] == '\0')
    ensures AtLineStart(t, r.0)
    ensures r.1 == line + Newlines(t, p, r.0)
    decreases |t| - p
  {
    if t[p] == '\0' then (p, line)
    else if t[p] == '\n' then
      (p + 1, line + 1)
    else
      SkipComment(t, p + 1, line)
  }

  /** parser_end_line(): blanks, then a comment, a line break or the NUL. */
  function EndLine(t: seq<char>, p: nat, line: int): (r: Parsed<()>)
    requires Terminated(t) && p < |t|
    ensures r.Ok? ==> p <= r.pos < |t| && (r.pos == p ==> t[p] == '\0')
    ensures r.Ok? ==> AtLineStart(t, r.pos) && r.line == line + Newlines(t, p, r.pos)
    ensures r.Error? ==> r.line == line
    decreases |t| - p
  {
    var c := t[p];
    if c == ';' || c == '#' then
      var g := SkipComment(t, p + 1, line);
      Ok((), g.0, g.1)
    else if c == '\n' then
      Ok((), p + 1, line + 1)
    else if c == '\0' then Ok((), p, line)
    else if !IsBlank(c) then Error(line, InvalidEndOfLine(c))
    else
      EndLine(t, p + 1, line)
  }

  /** What follows a section name from index e: ']' or blanks and ']', then
      the end of the line. */
  function SectionClose(t: seq<char>, start: nat, e: nat, line: int): (r: Parsed<string>)
    requires Terminated(t) && start <= e < |t|
    ensures r.Ok? ==> r.value == t[start..e] && e < r.pos < |t| && AtLineStart(t, r.pos)
    ensures r.Ok? ==> r.line == line + Newlines(t, e, r.pos)
  {
    var c := t[e];
    if c == ';' || c == '#' then Error(line, SectionNameComment(c))
    else if c == '\n' then Error(line, SectionNameNewline)
    else if c == '\0' then Error(line, SectionNameEof)
    else if c == ']' then
      var r := EndLine(t, e + 1, line);
      if r.Ok? then
        Ok(t[start..e], r.pos, r.line)
      else Error(r.line, r.reason)
    else if !IsBlank(c) then Error(line, SectionNameChar(c))
    else BracketAfterBlanks(t, start, e, Span(t, e + 1, Blanks), line)
  }

  /** A blank at index e ended the section name that starts at start, and
      more blanks run up to index q: the ']' must be there, and the end of
      the line after it. A missing ']' is reported with the character the
      blanks stopped at. */
  function BracketAfterBlanks(t: seq<char>, start: nat, e: nat, q: nat, line: int): (r: Parsed<string>)
    requires Terminated(t) && start <= e < q < |t| && IsBlank(t[e]) && !IsBlank(t[q])
    requires forall i :: e < i < q ==> IsBlank(t[i])
    ensures r.Ok? ==> r.value == t[start..e] && q < r.pos < |t| && AtLineStart(t, r.pos)
    ensures r.Ok? ==> r.line == line + Newlines(t, e, r.pos)
    ensures r.Error? && t[q] != ']' ==> r == Error(line, MissingBracket(t[q]))
  {
    if t[q] != ']' then Error(line, MissingBracket(t[q]))
    else
      var r := EndLine(t, q + 1, line);
      if r.Ok? then
        assert forall i :: e <= i < q + 1 ==> t[i] != '\n' by {
          forall i | e <= i < q + 1
            ensures t[i] != '\n'
          {
            if e < i < q {
              assert IsBlank(t[i]);
            }
          }
        }
        NewlinesNone(t, e, q + 1);
        NewlinesJoin(t, e, q + 1, r.pos);
        Ok(t[start..e], r.pos, r.line)
      else Error(r.line, r.reason)
  }

  /** parser_read_section_name(), from just after the '['. */
  function SectionName(t: seq<char>, p: nat, line: int): (r: Parsed<string>)
    requires Terminated(t) && p < |t|
    ensures r.Ok? ==> IsSectionName(r.value)
    ensures r.Ok? ==> p < r.pos < |t| && AtLineStart(t, r.pos)
    ensures r.Ok? ==> r.line == line + Newlines(t, p, r.pos)
    decreases |t| - p
  {
    var c := t[p];
    if c == ' ' || c == '\t' then
      SectionName(t, p + 1, line)
    else if c == ';' || c == '#' then Error(line, SectionComment)
    else if c == '\n' then Error(line, SectionNewline)
    else if c == '\0' then Error(line, SectionEof)
    else if !IsAlpha(c) then Error(line, SectionStart)
    else SectionNameFrom(t, p, line)
  }

  /** The name runs over the letters from p, its first character. */
  function SectionNameFrom(t: seq<char>, p: nat, line: int): (r: Parsed<string>)
    requires Terminated(t) && p < |t| && IsAlpha(t[p])
    ensures r.Ok? ==> IsSectionName(r.value)
    ensures r.Ok? ==> p < r.pos < |t| && AtLineStart(t, r.pos)
    ensures r.Ok? ==> r.line == line + Newlines(t, p, r.pos)
  {
    var e := Span(t, p + 1, Alphas);
    var r := SectionClose(t, p, e, line);
    if r.Ok? then
      NewlinesNone(t, p, e);
      NewlinesJoin(t, p, e, r.pos);
      r
    else r
  }

  /** parser_read_key(), from the first character of the key: the
      alphanumeric run, then ':' or '=', or blanks and at most one ':' or
      '='. */
  function Key(t: seq<char>, p: nat, line: int): (r: Parsed<string>)
    requires Terminated(t) && p < |t|
    ensures r.Ok? ==> p < r.pos < |t| && r.line == line && Newlines(t, p, r.pos) == 0
    ensures r.Ok? ==> p + |r.value| < r.pos && r.value == t[p..p + |r.value|]
    ensures r.Ok? ==> (forall i :: 0 <= i < |r.value| ==> IsAlnum(r.value[i]))
    ensures r.Ok? && IsAlnum(t[p]) ==> r.value != []
    ensures r.Error? ==> r.line == line
  {
    var e := Span(t, p, Alnums);
    var r := KeyEnd(t, p, e, line);
    if r.Ok? then
      NewlinesNone(t, p, r.pos);
      r
    else r
  }

  /** What parser_read_key() does on the first non-alphanumeric character,
      at index e, of the key that starts at p. */
  function KeyEnd(t: seq<char>, p: nat, e: nat, line: int): (r: Parsed<string>)
    requires Terminated(t) && p <= e < |t| && !IsAlnum(t[e])
    ensures r.Ok? ==> r.value == t[p..e] && e < r.pos < |t| && r.line == line
    ensures r.Ok? ==> forall i :: e <= i < r.pos ==> t[i] != '\n'
    ensures r.Error? ==> r.line == line
  {
    var c := t[e];
    if c == ';' || c == '#' then Error(line, KeyComment)
    else if c == '\n' then Error(line, KeyNewline)
    else if c == ' ' || c == '\t' then
      var q := Span(t, e + 1, Blanks);
      Ok(t[p..e], if t[q] == '=' || t[q] == ':' then q + 1 else q, line)
    else if c == ':' || c == '=' then Ok(t[p..e], e + 1, line)
    else if c == '\0' then Error(line, KeyEof)
    else Error(line, KeyChar(c))
  }

  /** parser_read_value(): blanks, then a value that starts with a
      graphical character other than '#' and ';'. */
  function Value(t: seq<char>, p: nat, line: int): (r: Parsed<string>)
    requires Terminated(t) && p < |t|
    ensures r.Ok? ==> IsValue(r.value)
    ensures r.Ok? ==> p < r.pos < |t| && AtLineStart(t, r.pos)
    ensures r.Ok? ==> r.line == line + Newlines(t, p, r.pos)
    decreases |t| - p
  {
    var c := t[p];
    if c == ';' || c == '#' then Error(line, ValueComment)
    else if c == '\n' then Error(line, ValueNewline)
    else if c == '\0' then Error(line, ValueEof)
    else if IsBlank(c) then
      Value(t, p + 1, line)
    else if !IsGraph(c) then Error(line, ValueStart(c))
    else ValueFrom(t, p, line)
  }

  /** The value runs from s, its first character, to a line break, the
      NUL, a comment, or a blank that only blanks or a comment follow. */
  function ValueFrom(t: seq<char>, s: nat, line: int): (r: Parsed<string>)
    requires Terminated(t) && s < |t| && IsValueChar(t[s])
    ensures r.Ok? ==> IsValue(r.value)
    ensures r.Ok? ==> s < r.pos < |t| && AtLineStart(t, r.pos)
    ensures r.Ok? ==> r.line == line + Newlines(t, s, r.pos)
  {
    ValueEnd(t, s, Span(t, s + 1, ValueChars), line)
  }

  /** What the second loop of parser_read_value() does on the first
      character, at index e, that cannot continue the value that starts
      at s. */
  function ValueEnd(t: seq<char>, s: nat, e: nat, line: int): (r: Parsed<string>)
    requires Terminated(t) && s < e < |t| && !IsValueChar(t[e])
    requires forall i :: s <= i < e ==> IsValueChar(t[i])
    ensures r.Ok? ==> r.value == t[s..e] && IsValue(r.value)
    ensures r.Ok? ==> e <= r.pos < |t| && AtLineStart(t, r.pos)
    ensures r.Ok? ==> r.line == line + Newlines(t, s, r.pos)
  {
    var c := t[e];
    assert forall i :: s <= i < e ==> InClass(ValueChars, t[i]);
    NewlinesNone(t, s, e);
    if c == '\n' then
      NewlinesJoin(t, s, e, e + 1);
      Ok(t[s..e], e + 1, line + 1)
    else if c == '\0' then Ok(t[s..e], e, line)
    else if c == ';' || c == '#' then
      var g := SkipComment(t, e + 1, line);
      NewlinesJoin(t, s, e, g.0);
      Ok(t[s..e], g.0, g.1)
    else if IsBlank(c) then
      var r := EndLine(t, e + 1, line);
      if r.Ok? then
        NewlinesJoin(t, s, e, r.pos);
        Ok(t[s..e], r.pos, r.line)
      else Error(r.line, r.reason)
    else Error(line, ValueChar(c))
  }

  /** The entries es, then those of r. */
  function Prepend(es: seq<Entry>, r: Parsed<seq<Entry>>): (r': Parsed<seq<Entry>>)
    ensures r'.Ok? <==> r.Ok?
    ensures r'.Ok? ==> r'.value == es + r.value && r'.pos == r.pos && r'.line == r.line
    ensures r'.Error? ==> r' == r
  {
    if r.Ok? then Ok(es + r.value, r.pos, r.line) else r
  }

  /** The loop of parser_read_section() after the name: key = value lines,
      blank lines and comments, up to the next '[' or the NUL. */
  function SectionBody(t: seq<char>, p: nat, line: int, section: string): (r: Parsed<seq<Entry>>)
    requires Terminated(t) && p < |t|
    ensures r.Ok? ==> p <= r.pos < |t| && (t[r.pos] == '[' || t[r.pos] == '\0')
    ensures r.Ok? ==> r.line == line + Newlines(t, p, r.pos)
    ensures r.Ok? ==> forall e :: e in r.value ==>
                        e.section == section && IsKey(e.key) && IsValue(e.value)
    decreases |t| - p, 1
  {
    var c := t[p];
    if c == '#' || c == ';' then
      var g := SkipComment(t, p, line);
      var r := SectionBody(t, g.0, g.1, section);
      if r.Ok? then
        NewlinesJoin(t, p, g.0, r.pos);
        r
      else r
    else if c == '\n' then
      SectionBody(t, p + 1, line + 1, section)
    else if c == '[' || c == '\0' then Ok([], p, line)
    else if IsBlank(c) then
      SectionBody(t, p + 1, line, section)
    else if !IsAlpha(c) then Error(line, KeyStart(c))
    else SectionEntry(t, p, line, section)
  }

  /** One key = value pair of a section, then the rest of the section. */
  function SectionEntry(t: seq<char>, p: nat, line: int, section: string): (r: Parsed<seq<Entry>>)
    requires Terminated(t) && p < |t| && IsAlpha(t[p])
    ensures r.Ok? ==> p <= r.pos < |t| && (t[r.pos] == '[' || t[r.pos] == '\0')
    ensures r.Ok? ==> r.line == line + Newlines(t, p, r.pos)
    ensures r.Ok? ==> forall e :: e in r.value ==>
                        e.section == section && IsKey(e.key) && IsValue(e.value)
    decreases |t| - p, 0
  {
    var k := Key(t, p, line);
    if k.Error? then Error(k.line, k.reason)
    else
      var v := Value(t, k.pos, k.line);
      if v.Error? then Error(v.line, v.reason)
      else
        var rest := SectionBody(t, v.pos, v.line, section);
        if rest.Ok? then
          NewlinesJoin(t, p, k.pos, v.pos);
          NewlinesJoin(t, p, v.pos, rest.pos);
          Prepend([Entry(section, k.value, v.value)], rest)
        else rest
  }

  /** parser_read_section(), from just after the '['. */
  function Section(t: seq<char>, p: nat, line: int): (r: Parsed<seq<Entry>>)
    requires Terminated(t) && p < |t|
    ensures r.Ok? ==> p < r.pos < |t| && (t[r.pos] == '[' || t[r.pos] == '\0')
    ensures r.Ok? ==> r.line == line + Newlines(t, p, r.pos)
    ensures r.Ok? ==> forall e :: e in r.value ==> WellFormed(e)
  {
    var n := SectionName(t, p, line);
    if n.Error? then Error(n.line, n.reason)
    else
      var b := SectionBody(t, n.pos, n.line, n.value);
      if b.Ok? then
        NewlinesJoin(t, p, n.pos, b.pos);
        b
      else b
  }

  /** A section opened by the '[' at p, then the rest of the file. */
  function SectionThenDocument(t: seq<char>, p: nat, line: int): (r: Parsed<seq<Entry>>)
    requires Terminated(t) && p < |t| && t[p] == '['
    ensures r.Ok? ==> p < r.pos <= |t| && t[r.pos - 1] == '\0'
    ensures r.Ok? ==> r.line == line + Newlines(t, p, r.pos)
    ensures r.Ok? ==> forall e :: e in r.value ==> WellFormed(e)
    decreases |t| - p, 0
  {
    var s := Section(t, p + 1, line);
    if s.Error? then Error(s.line, s.reason)
    else
      var r := Document(t, s.pos, s.line);
      if r.Ok? then
        NewlinesJoin(t, p, s.pos, r.pos);
        Ok(s.value + r.value, r.pos, r.line)
      else r
  }

  /** The characters config_do_load() skips outside a section. */
  predicate IsGapChar(c: char)
  {
    c == '#' || c == ';' || c == '\n' || c == '\t' || c == ' '
  }

  /** What config_do_load() skips at p outside a section: a comment, a
      line break or a blank. */
  function Gap(t: seq<char>, p: nat, line: int): (r: (nat, int))
    requires Terminated(t) && p < |t| && IsGapChar(t[p])
    ensures p < r.0 < |t|
    ensures r.1 == line + Newlines(t, p, r.0)
  {
    var c := t[p];
    if c == '#' || c == ';' then
      var g := SkipComment(t, p + 1, line);
      NewlinesJoin(t, p, p + 1, g.0);
      g
    else if c == '\n' then (p + 1, line + 1)
    else (p + 1, line)
  }

  /** config_do_load(): outside sections only blanks, line breaks and
      comments; each '[' opens a section; the NUL ends the file. */
  function Document(t: seq<char>, p: nat, line: int): (r: Parsed<seq<Entry>>)
    requires Terminated(t) && p < |t|
    ensures r.Ok? ==> p < r.pos <= |t| && t[r.pos - 1] == '\0'
    ensures r.Ok? ==> r.line == line + Newlines(t, p, r.pos)
    ensures r.Ok? ==> forall e :: e in r.value ==> WellFormed(e)
    decreases |t| - p, 1
  {
    var c := t[p];
    if c == '[' then SectionThenDocument(t, p, line)
    else if c == '\0' then
      Ok([], p + 1, line)
    else if !IsGapChar(c) then Error(line, OutsideSection(c))
    else
      var g := Gap(t, p, line);
      var r := Document(t, g.0, g.1);
      if r.Ok? then
        NewlinesJoin(t, p, g.0, r.pos);
        r
      else r
  }

  /** The entries config_do_load() records for a file, in file order, or
      the line and reason it dies with; lines count from 1. */
  function Parse(t: seq<char>): (r: Parsed<seq<Entry>>)
    requires Terminated(t)
    ensures r.Ok? ==> r.pos <= |t| && r.line == 1 + Newlines(t, 0, r.pos)
    ensures r.Ok? ==> forall e :: e in r.value ==> WellFormed(e)
  {
    Document(t, 0, 1)
  }

  // ---------------------------------------------------------------------
  // The character the missing-']' message prints
  // ---------------------------------------------------------------------

  /** A byte the parser reads: inside the buffer config_load() allocated,
      or just past its end. */
  datatype Read = InBuffer(c: char) | PastEnd

  /** The character parser_read_section_name() prints when the blanks after
      a section name end at q with something other than ']': the test
      `*parser->cur++ != ']'` has already moved the cursor on, so the message
      reads index q + 1, which lies past the buffer when q holds the NUL. */
  function BracketReportAsWritten(t: seq<char>, q: nat): (r: Read)
    requires q < |t|
    ensures r.PastEnd? <==> q == |t| - 1
    ensures r.InBuffer? ==> r.c == t[q + 1]
  {
    if q + 1 < |t| then InBuffer(t[q + 1]) else PastEnd
  }

  /** On "[ab x]" the message names ']' instead of the offending 'x', and
      on "[ab " at the end of the file it reads one byte past the buffer;
      SectionClose reports the character at q, 'x' and the NUL. */
  lemma BracketReportFinding()
    ensures SectionName("[ab x]\n\0", 1, 1) == Error(1, MissingBracket('x'))
    ensures BracketReportAsWritten("[ab x]\n\0", 4) == InBuffer(']')
    ensures SectionName("[ab \0", 1, 1) == Error(1, MissingBracket('\0'))
    ensures BracketReportAsWritten("[ab \0", 4) == PastEnd
  {
    var t := "[ab x]\n\0";
    assert Span(t, 2, Alphas) == 3;
    assert Span(t, 4, Blanks) == 4;
    var u := "[ab \0";
    assert Span(u, 2, Alphas) == 3;
    assert Span(u, 4, Blanks) == 4;
  }

  // ---------------------------------------------------------------------
  // Files the parser accepts and rejects
  // ---------------------------------------------------------------------

  /** The text "[ui]\nfont mono\n" and its NUL, character by character. */
  predicate BlankSeparatorText(t: seq<char>)
  {
    |t| == 16
    && t[0] == '[' && t[1] == 'u' && t[2] == 'i' && t[3] == ']'
    && t[4] == '\n' && t[5] == 'f' && t[6] == 'o' && t[7] == 'n'
    && t[8] == 't' && t[9] == ' ' && t[10] == 'm' && t[11] == 'o'
    && t[12] == 'n' && t[13] == 'o' && t[14] == '\n' && t[15] == '\0'
  }

  /** The header of that text. */
  lemma BlankSeparatorHeader(t: seq<char>)
    requires BlankSeparatorText(t)
    ensures SectionName(t, 1, 1) == Ok("ui", 5, 2)
  {
    SpanTo(t, 2, 3, Alphas);
    assert EndLine(t, 4, 1) == Ok((), 5, 2);
    assert t[1..3] == "ui";
    assert SectionClose(t, 1, 3, 1) == Ok("ui", 5, 2);
  }

  /** Its pair line. */
  lemma BlankSeparatorPair(t: seq<char>)
    requires BlankSeparatorText(t)
    ensures IsAlpha(t[5]) && Key(t, 5, 2) == Ok("font", 10, 2)
    ensures Value(t, 10, 2) == Ok("mono", 15, 3)
  {
    SpanTo(t, 5, 9, Alnums);
    SpanTo(t, 10, 10, Blanks);
    assert t[5..9] == "font";
    SpanTo(t, 11, 14, ValueChars);
    assert t[10..14] == "mono";
  }

  /** The whole text parses to its one entry. */
  lemma BlankSeparatorReads(t: seq<char>)
    requires BlankSeparatorText(t)
    ensures Document(t, 0, 1) == Ok([Entry("ui", "font", "mono")], 16, 3)
  {
    var e := Entry("ui", "font", "mono");
    BlankSeparatorHeader(t);
    BlankSeparatorPair(t);
    assert SectionBody(t, 15, 3, "ui") == Ok([], 15, 3);
    assert [e] + [] == [e];
    assert SectionEntry(t, 5, 2, "ui") == Ok([e], 15, 3);
    assert SectionBody(t, 5, 2, "ui") == Ok([e], 15, 3);
    assert Section(t, 1, 1) == Ok([e], 15, 3);
    assert Document(t, 15, 3) == Ok([], 16, 3);
  }

  /** A key may be separated from its value by blanks alone. */
  lemma ParseAcceptsBlankSeparator()
    ensures Parse("[ui]\nfont mono\n\0") == Ok([Entry("ui", "font", "mono")], 16, 3)
  {
    BlankSeparatorReads("[ui]\nfont mono\n\0");
  }

  /** A digit in a section name is fatal. */
  lemma ParseRejectsDigitInSection()
    ensures Parse("[ui2]\n\0") == Error(1, SectionNameChar('2'))
  {
    var t := "[ui2]\n\0";
    assert Span(t, 2, Alphas) == 3;
    assert Section(t, 1, 1) == Error(1, SectionNameChar('2'));
  }

  /** A key outside any section is fatal. */
  lemma ParseRejectsKeyOutsideSection()
    ensures Parse("font=mono\n\0") == Error(1, OutsideSection('f'))
  {
  }

  /** The text "[ui]\nfont=\n" and its NUL, character by character. */
  predicate EmptyValueText(t: seq<char>)
  {
    |t| == 12
    && t[0] == '[' && t[1] == 'u' && t[2] == 'i' && t[3] == ']'
    && t[4] == '\n' && t[5] == 'f' && t[6] == 'o' && t[7] == 'n'
    && t[8] == 't' && t[9] == '=' && t[10] == '\n' && t[11] == '\0'
  }

  /** In that text the value of "font" is missing. */
  lemma EmptyValueReads(t: seq<char>)
    requires EmptyValueText(t)
    ensures Document(t, 0, 1) == Error(2, ValueNewline)
  {
    SpanTo(t, 2, 3, Alphas);
    assert EndLine(t, 4, 1) == Ok((), 5, 2);
    assert t[1..3] == "ui";
    assert SectionClose(t, 1, 3, 1) == Ok("ui", 5, 2);
    assert SectionName(t, 1, 1) == Ok("ui", 5, 2);
    SpanTo(t, 5, 9, Alnums);
    assert t[5..9] == "font";
    assert Key(t, 5, 2) == Ok("font", 10, 2);
    assert Value(t, 10, 2) == Error(2, ValueNewline);
    assert SectionEntry(t, 5, 2, "ui") == Error(2, ValueNewline);
    assert SectionBody(t, 5, 2, "ui") == Error(2, ValueNewline);
    assert Section(t, 1, 1) == Error(2, ValueNewline);
  }

  /** An empty value is fatal, on the line of its key. */
  lemma ParseRejectsEmptyValue()
    ensures Parse("[ui]\nfont=\n\0") == Error(2, ValueNewline)
  {
    EmptyValueReads("[ui]\nfont=\n\0");
  }
}
