/**
 * The parser of src/config.c as the code runs it: a cursor over the
 * buffer config_load() filled, a line counter, and NUL characters written
 * behind the cursor to end the strings the entries point to. Every method
 * is proved to do what the function of module ConfigSyntax with the same
 * part of the grammar describes.
 */
module ConfigParser {
  import opened CString
  import opened Status
  import opened Sorting
  import opened ConfigSyntax
  import opened ConfigStore

  /** `struct parser`; the path it carries only for messages is left out. */
  class Parser {
    const config: Config
    const mem: array<char>
    /** The buffer as config_load() filled it, before any NUL was written. */
    ghost const text: seq<char>
    var line: int
    var cur: nat

    /** From the cursor on the buffer is still the text; behind it the
        parser has only overwritten characters with NULs. */
    ghost predicate Valid()
      reads this, mem
    {
      && Terminated(text)
      && mem.Length == |text|
      && cur <= |text|
      && (forall i :: cur <= i < |text| ==> mem[i] == text[i])
      && NulsOnly()
    }

    /** Every character of the buffer is the text's, or a NUL. The
        quantifier only comes into play where a proof names a Slot. */
    ghost predicate NulsOnly()
      reads mem
    {
      mem.Length == |text| &&
      forall i {:trigger Slot(i)} :: 0 <= i < |text| ==> mem[i] == text[i] || mem[i] == '\0'
    }

    /** The C string at index at of the buffer reads v. */
    ghost predicate StringAt(at: nat, v: string)
      reads mem
    {
      at + |v| < mem.Length && mem[at..at + |v|] == v && mem[at + |v|] == '\0'
    }

    /** The set-up of config_do_load(): the cursor at the start of the
        configuration's buffer, on line 1. */
    constructor (c: Config)
      requires Terminated(c.mem[..])
      ensures Valid() && config == c && mem == c.mem && text == c.mem[..]
      ensures cur == 0 && line == 1
    {
      config := c;
      mem := c.mem;
      text := c.mem[..];
      cur := 0;
      line := 1;
    }

    /** parser_skip_comment(). */
    method SkipComment()
      requires Valid() && cur < |text|
      modifies this
      ensures Valid()
      ensures cur == ConfigSyntax.SkipComment(text, old(cur), old(line)).0
      ensures line == ConfigSyntax.SkipComment(text, old(cur), old(line)).1
    {
      while mem[cur] != '\0' && mem[cur] != '\n'
        invariant Valid() && cur < |text|
        invariant ConfigSyntax.SkipComment(text, cur, line) == ConfigSyntax.SkipComment(text, old(cur), old(line))
        decreases |text| - cur
        modifies this
      {
        cur := cur + 1;
      }
      if mem[cur] == '\n' {
        line := line + 1;
        cur := cur + 1;
      }
    }

    /** parser_end_line(). */
    method EndLine() returns (r: Parsed<()>)
      requires Valid() && cur < |text|
      modifies this
      ensures Valid()
      ensures r == ConfigSyntax.EndLine(text, old(cur), old(line))
      ensures r.Ok? ==> cur == r.pos && line == r.line
    {
      while true
        invariant Valid() && cur < |text|
        invariant ConfigSyntax.EndLine(text, cur, line) == ConfigSyntax.EndLine(text, old(cur), old(line))
        decreases |text| - cur
      {
        var c := mem[cur];
        if c == ';' || c == '#' {
          cur := cur + 1;
          SkipComment();
          return Ok((), cur, line);
        } else if c == '\n' {
          line := line + 1;
          cur := cur + 1;
          return Ok((), cur, line);
        } else if c == '\0' {
          return Ok((), cur, line);
        } else if !IsBlank(c) {
          return Error(line, InvalidEndOfLine(c));
        }
        cur := cur + 1;
      }
    }

    /** `*parser->cur++ = '\0'`: ends the string that starts at index at
        and runs up to the cursor, which moves on. */
    method Terminate(at: nat) returns (v: string)
      requires Valid() && at <= cur < |text| - 1
      requires forall i :: at <= i < cur ==> mem[i] == text[i]
      modifies this, mem
      ensures Valid() && cur == old(cur) + 1 && line == old(line)
      ensures mem[..] == old(mem[..])[old(cur) := '\0']
      ensures v == text[at..old(cur)] && StringAt(at, v)
    {
      v := mem[at..cur];
      mem[cur] := '\0';
      cur := cur + 1;
      forall i | 0 <= i < |text|
        ensures mem[i] == text[i] || mem[i] == '\0'
      {
        assert Slot(i) == i;
      }
    }

    /** parser_read_section_name(), from just after the '['; on success
        the name is the C string at index `at` of the buffer. */
    method ReadSectionName() returns (r: Parsed<string>, at: nat)
      requires Valid() && cur < |text|
      modifies this, mem
      ensures Valid()
      ensures r == SectionName(text, old(cur), old(line))
      ensures r.Ok? ==> cur == r.pos && line == r.line
      ensures r.Ok? ==> StringAt(at, r.value)
    {
      at := 0;
      while mem[cur] == ' ' || mem[cur] == '\t'
        invariant Valid() && cur < |text|
        invariant SectionName(text, cur, line) == SectionName(text, old(cur), old(line))
        decreases |text| - cur
        modifies this
      {
        cur := cur + 1;
      }
      var c := mem[cur];
      if c == ';' || c == '#' {
        return Error(line, SectionComment), at;
      } else if c == '\n' {
        return Error(line, SectionNewline), at;
      } else if c == '\0' {
        return Error(line, SectionEof), at;
      } else if !IsAlpha(c) {
        return Error(line, SectionStart), at;
      }
      at := cur;
      r := ReadSectionNameFrom();
    }

    /** The letters of a section name, from its first one. */
    method ReadSectionNameFrom() returns (r: Parsed<string>)
      requires Valid() && cur < |text| && IsAlpha(text[cur])
      modifies this, mem
      ensures Valid()
      ensures r == SectionNameFrom(text, old(cur), old(line))
      ensures r.Ok? ==> cur == r.pos && line == r.line
      ensures r.Ok? ==> StringAt(old(cur), r.value)
    {
      var at := cur;
      cur := cur + 1;
      while IsAlpha(mem[cur])
        invariant Valid() && at < cur < |text| && line == old(line)
        invariant forall i :: at + 1 <= i < cur ==> IsAlpha(text[i])
        decreases |text| - cur
        modifies this
      {
        cur := cur + 1;
      }
      SpanTo(text, at + 1, cur, Alphas);
      r := CloseSectionName(at);
    }

    /** The end of parser_read_section_name(): the cursor on the first
        character after the name, which starts at index at. */
    method CloseSectionName(at: nat) returns (r: Parsed<string>)
      requires Valid() && at < cur < |text|
      requires forall i :: at <= i < cur ==> mem[i] == text[i]
      modifies this, mem
      ensures Valid()
      ensures r == SectionClose(text, at, old(cur), old(line))
      ensures r.Ok? ==> cur == r.pos && line == r.line
      ensures r.Ok? ==> StringAt(at, r.value)
    {
      var e := cur;
      var c := mem[e];
      if c == ';' || c == '#' {
        return Error(line, SectionNameComment(c));
      } else if c == '\n' {
        return Error(line, SectionNameNewline);
      } else if c == '\0' {
        return Error(line, SectionNameEof);
      }
      if c == ']' {
        var name := Terminate(at);
        var l := EndLine();
        if l.Error? {
          return Error(l.line, l.reason);
        }
        return Ok(name, cur, line);
      } else if !IsBlank(c) {
        return Error(line, SectionNameChar(c));
      }
      var name := Terminate(at);
      r := BracketAfterName(at, e, name);
    }

    /** The blanks after a section name that a blank at index e ended,
        then the ']' and the end of the line. */
    method BracketAfterName(ghost at: nat, ghost e: nat, name: string) returns (r: Parsed<string>)
      requires Valid() && at <= e && cur == e + 1 < |text| && IsBlank(text[e])
      requires name == text[at..e]
      modifies this
      ensures Valid()
      ensures r == BracketAfterBlanks(text, at, e, Span(text, e + 1, Blanks), old(line))
      ensures r.Ok? ==> cur == r.pos && line == r.line && r.value == name
    {
      while IsBlank(mem[cur])
        invariant Valid() && e < cur < |text| && line == old(line)
        invariant forall i :: e + 1 <= i < cur ==> IsBlank(text[i])
        decreases |text| - cur
      {
        cur := cur + 1;
      }
      SpanTo(text, e + 1, cur, Blanks);
      if mem[cur] != ']' {
        return Error(line, MissingBracket(mem[cur]));
      }
      cur := cur + 1;
      var l := EndLine();
      if l.Error? {
        return Error(l.line, l.reason);
      }
      return Ok(name, cur, line);
    }

    /** parser_read_key(), from the key's first character; on success the
        key is the C string that starts there. */
    method ReadKey() returns (r: Parsed<string>)
      requires Valid() && cur < |text|
      modifies this, mem
      ensures Valid()
      ensures r == Key(text, old(cur), old(line))
      ensures r.Ok? ==> cur == r.pos && line == r.line
      ensures r.Ok? ==> StringAt(old(cur), r.value)
    {
      var p := cur;
      while IsAlnum(mem[cur])
        invariant Valid() && p <= cur < |text| && line == old(line)
        invariant forall i :: p <= i < cur ==> IsAlnum(text[i])
        decreases |text| - cur
        modifies this
      {
        cur := cur + 1;
      }
      SpanTo(text, p, cur, Alnums);
      r := KeyTail(p);
    }

    /** The end of parser_read_key(): the cursor on the first character
        after the letters and digits of the key that starts at p. */
    method KeyTail(p: nat) returns (r: Parsed<string>)
      requires Valid() && p <= cur < |text| && !IsAlnum(text[cur])
      requires forall i :: p <= i < cur ==> mem[i] == text[i] && IsAlnum(text[i])
      modifies this, mem
      ensures Valid()
      ensures r == KeyEnd(text, p, old(cur), old(line))
      ensures r.Ok? ==> cur == r.pos && line == r.line
      ensures r.Ok? ==> StringAt(p, r.value)
    {
      var e := cur;
      var c := mem[e];
      if c == ';' || c == '#' {
        return Error(line, KeyComment);
      } else if c == '\n' {
        return Error(line, KeyNewline);
      } else if c == '\0' {
        return Error(line, KeyEof);
      } else if !(c == ' ' || c == '\t' || c == ':' || c == '=') {
        return Error(line, KeyChar(c));
      }
      var key := Terminate(p);
      if c == ' ' || c == '\t' {
        while IsBlank(mem[cur])
          invariant Valid() && e < cur < |text| && line == old(line)
          invariant forall i :: e + 1 <= i < cur ==> IsBlank(text[i])
          decreases |text| - cur
          modifies this
        {
          cur := cur + 1;
        }
        SpanTo(text, e + 1, cur, Blanks);
        if mem[cur] == '=' || mem[cur] == ':' {
          cur := cur + 1;
        }
      }
      return Ok(key, cur, line);
    }

    /** parser_read_value(): blanks, then the value; on success the value
        is the C string at index at of the buffer. */
    method ReadValue() returns (r: Parsed<string>, at: nat)
      requires Valid() && cur < |text|
      modifies this, mem
      ensures Valid()
      ensures r == Value(text, old(cur), old(line))
      ensures r.Ok? ==> cur == r.pos && line == r.line
      ensures r.Ok? ==> StringAt(at, r.value)
    {
      at := 0;
      while IsBlank(mem[cur])
        invariant Valid() && cur < |text|
        invariant Value(text, cur, line) == Value(text, old(cur), old(line))
        decreases |text| - cur
        modifies this
      {
        cur := cur + 1;
      }
      var c := mem[cur];
      if c == ';' || c == '#' {
        return Error(line, ValueComment), at;
      } else if c == '\n' {
        return Error(line, ValueNewline), at;
      } else if c == '\0' {
        return Error(line, ValueEof), at;
      } else if !IsGraph(c) {
        return Error(line, ValueStart(c)), at;
      }
      at := cur;
      r := ReadValueFrom();
    }

    /** The second loop of parser_read_value(), from the value's first
        character. */
    method ReadValueFrom() returns (r: Parsed<string>)
      requires Valid() && cur < |text| && IsValueChar(text[cur])
      modifies this, mem
      ensures Valid()
      ensures r == ValueFrom(text, old(cur), old(line))
      ensures r.Ok? ==> cur == r.pos && line == r.line
      ensures r.Ok? ==> StringAt(old(cur), r.value)
    {
      var s := cur;
      cur := cur + 1;
      while IsValueChar(mem[cur])
        invariant Valid() && s < cur < |text| && line == old(line)
        invariant forall i :: s + 1 <= i < cur ==> IsValueChar(text[i])
        decreases |text| - cur
        modifies this
      {
        cur := cur + 1;
      }
      SpanTo(text, s + 1, cur, ValueChars);
      r := ValueTail(s);
    }

    /** The end of parser_read_value(): the cursor on the first character
        that cannot continue the value that starts at s. */
    method ValueTail(s: nat) returns (r: Parsed<string>)
      requires Valid() && s < cur < |text| && !IsValueChar(text[cur])
      requires forall i :: s <= i < cur ==> mem[i] == text[i] && IsValueChar(text[i])
      modifies this, mem
      ensures Valid()
      ensures r == ValueEnd(text, s, old(cur), old(line))
      ensures r.Ok? ==> cur == r.pos && line == r.line
      ensures r.Ok? ==> StringAt(s, r.value)
    {
      var e := cur;
      var c := mem[e];
      if c == '\n' {
        var value := Terminate(s);
        line := line + 1;
        return Ok(value, cur, line);
      } else if c == '\0' {
        assert mem[s..e] == text[s..e];
        return Ok(mem[s..e], cur, line);
      } else if c == ';' || c == '#' {
        var value := Terminate(s);
        SkipComment();
        return Ok(value, cur, line);
      } else if IsBlank(c) {
        var value := Terminate(s);
        var l := EndLine();
        if l.Error? {
          return Error(l.line, l.reason);
        }
        return Ok(value, cur, line);
      }
      return Error(line, ValueChar(c));
    }

    /** `++parser->cur` over a character that is not the final NUL. */
    method Advance()
      requires Valid() && cur < |text| - 1
      modifies this
      ensures Valid() && cur == old(cur) + 1 && line == old(line)
    {
      cur := cur + 1;
    }

    /** The inner loop of parser_read_section(): comments, line breaks
        and blanks up to the next key, '[' or NUL. */
    method SkipToKey(ghost section: string)
      requires Valid() && cur < |text|
      modifies this
      ensures Valid() && old(cur) <= cur < |text| && !IsGapChar(text[cur])
      ensures SectionBody(text, old(cur), old(line), section) == SectionBody(text, cur, line, section)
    {
      while IsGapChar(mem[cur])
        invariant Valid() && old(cur) <= cur < |text|
        invariant SectionBody(text, old(cur), old(line), section) == SectionBody(text, cur, line, section)
        decreases |text| - cur
      {
        BodyGap(text, cur, line, section);
        if mem[cur] == '#' || mem[cur] == ';' {
          SkipComment();
        } else if mem[cur] == '\n' {
          line := line + 1;
          Advance();
        } else {
          Advance();
        }
      }
    }

    /** The cases of config_do_load() that pass over comments, line breaks
        and blanks outside any section. */
    method SkipGap()
      requires Valid() && cur < |text|
      modifies this
      ensures Valid() && old(cur) <= cur < |text| && !IsGapChar(text[cur])
      ensures Document(text, old(cur), old(line)) == Document(text, cur, line)
    {
      while IsGapChar(mem[cur])
        invariant Valid() && old(cur) <= cur < |text|
        invariant Document(text, old(cur), old(line)) == Document(text, cur, line)
        decreases |text| - cur
      {
        SkipGapChar();
      }
    }

    /** One round of the gap loop: a comment, a line break or a blank. */
    method SkipGapChar()
      requires Valid() && cur < |text| && IsGapChar(text[cur])
      modifies this
      ensures Valid() && old(cur) < cur < |text|
      ensures Document(text, old(cur), old(line)) == Document(text, cur, line)
    {
      ghost var p, l := cur, line;
      var c := mem[cur];
      Advance();
      if c == '#' || c == ';' {
        DocumentComment(text, p, cur, l);
        SkipComment();
      } else if c == '\n' {
        DocumentNewline(text, p, cur, l);
        line := line + 1;
      } else {
        DocumentBlank(text, p, cur, l);
      }
    }

    /** The loop of config_do_load(): outside sections only comments, line
        breaks and blanks; each '[' opens a section, whose entries go to
        the configuration; the NUL ends the file. */
    method Run() returns (r: Parsed<seq<Entry>>)
      requires Valid() && cur < |text| && config.Valid()
      modifies this, mem, config, config.entries
      ensures Valid() && config.Valid() && config.mem == old(config.mem)
      ensures r == Document(text, old(cur), old(line))
      ensures r.Ok? ==> config.Entries() == old(config.Entries()) + r.value
      ensures config.entries == old(config.entries) || fresh(config.entries)
    {
      ghost var before := config.Entries();
      var found: seq<Entry> := [];
      PrependNone(Document(text, cur, line));
      while true
        invariant Valid() && cur < |text| && config.Valid() && config.mem == old(config.mem)
        invariant config.entries == old(config.entries) || fresh(config.entries)
        invariant config.Entries() == before + found
        invariant Document(text, old(cur), old(line)) == Prepend(found, Document(text, cur, line))
        decreases |text| - cur
      {
        SkipGap();
        ghost var p, l := cur, line;
        var c := mem[cur];
        if c == '[' {
          assert text[cur] == '[' && cur != |text| - 1;
          Advance();
          ghost var q := cur;
          var s := ReadSection();
          DocumentSection(text, p, q, l, s);
          if s.Error? {
            return Error(s.line, s.reason);
          }
          PrependPrepend(found, s.value, Document(text, cur, line));
          AppendAssoc(before, found, s.value);
          found := found + s.value;
        } else if c == '\0' {
          cur := cur + 1;
          assert found + [] == found;
          return Ok(found, cur, line);
        } else {
          cur := cur + 1;
          return Error(line, OutsideSection(c));
        }
      }
    }

    /** One pass of the loop of parser_read_section() that finds a key:
        the key, the value, and config_add_entry(). */
    method ReadPair(section: string) returns (r: Parsed<Entry>)
      requires Valid() && cur < |text| && IsAlpha(text[cur]) && config.Valid()
      modifies this, mem, config, config.entries
      ensures Valid() && config.Valid() && config.mem == old(config.mem)
      ensures config.entries == old(config.entries) || fresh(config.entries)
      ensures r == Pair(text, old(cur), old(line), section)
      ensures r.Ok? ==> cur == r.pos && line == r.line
      ensures r.Ok? ==> config.Entries() == old(config.Entries()) + [r.value]
    {
      var k := ReadKey();
      if k.Error? {
        return Error(k.line, k.reason);
      }
      var v, _ := ReadValue();
      if v.Error? {
        return Error(v.line, v.reason);
      }
      var e := Entry(section, k.value, v.value);
      config.AddEntry(e);
      return Ok(e, cur, line);
    }

    /** parser_read_section(), from just after the '[': the name, then
        every key = value pair up to the next '[' or the NUL goes to the
        configuration, in file order. */
    method ReadSection() returns (r: Parsed<seq<Entry>>)
      requires Valid() && cur < |text| && config.Valid()
      modifies this, mem, config, config.entries
      ensures Valid() && config.Valid() && config.mem == old(config.mem)
      ensures r == Section(text, old(cur), old(line))
      ensures r.Ok? ==> cur == r.pos && line == r.line
      ensures r.Ok? ==> config.Entries() == old(config.Entries()) + r.value
      ensures config.entries == old(config.entries) || fresh(config.entries)
    {
      var n, _ := ReadSectionName();
      if n.Error? {
        return Error(n.line, n.reason);
      }
      var name := n.value;
      ghost var before := config.Entries();
      var added: seq<Entry> := [];
      assert Section(text, old(cur), old(line)) == SectionBody(text, cur, line, name);
      PrependNone(SectionBody(text, cur, line, name));
      while true
        invariant Valid() && cur < |text| && config.Valid() && config.mem == old(config.mem)
        invariant config.entries == old(config.entries) || fresh(config.entries)
        invariant config.Entries() == before + added
        invariant Section(text, old(cur), old(line)) == Prepend(added, SectionBody(text, cur, line, name))
        decreases |text| - cur
      {
        SkipToKey(name);
        var c := mem[cur];
        if c == '[' || c == '\0' {
          assert SectionBody(text, cur, line, name) == Ok([], cur, line);
          assert added + [] == added;
          return Ok(added, cur, line);
        } else if !IsAlpha(c) {
          return Error(line, KeyStart(c));
        } else {
          ghost var p, l := cur, line;
          var e := ReadPair(name);
          if e.Error? {
            return Error(e.line, e.reason);
          }
          SectionEntryPair(text, p, l, name);
          PrependPrepend(added, [e.value], SectionBody(text, cur, line, name));
          AppendAssoc(before, added, [e.value]);
          added := added + [e.value];
        }
      }
    }
  }

  lemma AppendAssoc(a: seq<Entry>, b: seq<Entry>, c: seq<Entry>)
    ensures (a + b) + c == a + (b + c)
  {
  }

  /** No entries before a parse result leave it as it is. */
  lemma PrependNone(r: Parsed<seq<Entry>>)
    ensures Prepend([], r) == r
  {
    if r.Ok? {
      assert [] + r.value == r.value;
    }
  }

  /** Entries before a parse result, then more: the same as all of them
      before it. */
  lemma PrependPrepend(a: seq<Entry>, b: seq<Entry>, r: Parsed<seq<Entry>>)
    ensures Prepend(a, Prepend(b, r)) == Prepend(a + b, r)
  {
    if r.Ok? {
      assert a + (b + r.value) == (a + b) + r.value;
    }
  }

  /** One key = value line of a section: the key, then the value. */
  function Pair(t: seq<char>, p: nat, line: int, section: string): (r: Parsed<Entry>)
    requires Terminated(t) && p < |t|
    ensures r.Ok? ==> p < r.pos < |t| && r.value.section == section
    ensures r.Ok? ==> IsKey(r.value.key) || !IsAlpha(t[p])
    ensures r.Ok? ==> IsValue(r.value.value)
  {
    var k := Key(t, p, line);
    if k.Error? then Error(k.line, k.reason)
    else
      var v := Value(t, k.pos, k.line);
      if v.Error? then Error(v.line, v.reason)
      else Ok(Entry(section, k.value, v.value), v.pos, v.line)
  }

  /** A section goes on with one pair, then the rest of it. */
  lemma SectionEntryPair(t: seq<char>, p: nat, line: int, section: string)
    requires Terminated(t) && p < |t| && IsAlpha(t[p])
    ensures var e := Pair(t, p, line, section);
      SectionEntry(t, p, line, section)
        == if e.Ok? then Prepend([e.value], SectionBody(t, e.pos, e.line, section))
           else Error(e.line, e.reason)
  {
  }

  /** Inside a section a comment, a line break or a blank is passed
      over. */
  lemma BodyGap(t: seq<char>, p: nat, line: int, section: string)
    requires Terminated(t) && p < |t| && IsGapChar(t[p])
    ensures p + 1 < |t|
    ensures SectionBody(t, p, line, section)
              == if t[p] == '#' || t[p] == ';' then SectionBody(t, SkipComment(t, p, line).0, SkipComment(t, p, line).1, section)
                 else if t[p] == '\n' then SectionBody(t, p + 1, line + 1, section)
                 else SectionBody(t, p + 1, line, section)
  {
  }

  /** Outside sections a comment runs to the end of its line. */
  lemma DocumentComment(t: seq<char>, p: nat, q: nat, line: int)
    requires Terminated(t) && p < |t| && (t[p] == '#' || t[p] == ';') && q == p + 1
    ensures q < |t|
    ensures Document(t, p, line) == Document(t, SkipComment(t, q, line).0, SkipComment(t, q, line).1)
  {
  }

  /** Outside sections a line break counts a line. */
  lemma DocumentNewline(t: seq<char>, p: nat, q: nat, line: int)
    requires Terminated(t) && p < |t| && t[p] == '\n' && q == p + 1
    ensures q < |t|
    ensures Document(t, p, line) == Document(t, q, line + 1)
  {
  }

  /** Outside sections a blank is passed over. */
  lemma DocumentBlank(t: seq<char>, p: nat, q: nat, line: int)
    requires Terminated(t) && p < |t| && IsBlank(t[p]) && q == p + 1
    ensures q < |t|
    ensures Document(t, p, line) == Document(t, q, line)
  {
  }

    /** At a '[' the file goes on with a section, then the rest of the
      file. */
  lemma DocumentSection(t: seq<char>, p: nat, q: nat, line: int, s: Parsed<seq<Entry>>)
    requires Terminated(t) && p < |t| && t[p] == '[' && q == p + 1
    requires s == Section(t, q, line)
    ensures Document(t, p, line)
              == if s.Ok? then Prepend(s.value, Document(t, s.pos, s.line)) else Error(s.line, s.reason)
  {
  }

  /** config_do_load(): a parser set to the start of the buffer of c runs
      over all of it; the entries it reads are added to c in file order. */
  method DoLoad(c: Config) returns (r: Parsed<seq<Entry>>)
    requires c.Valid() && Terminated(c.mem[..])
    modifies c, c.entries, c.mem
    ensures c.Valid() && c.mem == old(c.mem)
    ensures r == Parse(old(c.mem[..]))
    ensures r.Ok? ==> c.Entries() == old(c.Entries()) + r.value
    ensures c.entries == old(c.entries) || fresh(c.entries)
  {
    var parser := new Parser(c);
    r := parser.Run();
  }

  /** Index i under another name, which only a proof that needs the
      quantifier of Parser.NulsOnly() mentions. */
  ghost function Slot(i: int): int
  {
    i
  }

  /** What opening and reading the configuration file gives config_load();
      the system calls themselves are not part of this model. */
  datatype Source =
    | NoPath
    | OpenFailed(errno: int)
    | StatFailed(errno: int)
    | ReadFailed(errno: int)
    | Contents(data: string)

  /** How config_load() ends: nothing to load, loaded, or the process dies
      through die_error() with errno and a message, or through die() in
      the parser. */
  datatype LoadOutcome =
    | Unchanged
    | Loaded
    | IoError(errno: int, message: string)
    | SyntaxError(line: int, reason: Reason)

  /** config_load(): without a path, or when the file does not exist, the
      configuration stays as it is; otherwise the file contents and a NUL
      become its buffer, the entry array starts with one slot per 80
      bytes, and the parsed entries end up sorted by section and key. */
  method Load(c: Config, path: string, file: Source) returns (r: LoadOutcome)
    modifies c
    ensures file.NoPath? || (file.OpenFailed? && file.errno == ENOENT) ==> r == Unchanged && unchanged(c)
    ensures file.OpenFailed? && file.errno != ENOENT ==>
              r == IoError(file.errno, "Failed to open configuration file \"" + path + "\"")
    ensures file.StatFailed? ==> r == IoError(file.errno, "Failed to retrieve status of configuration file")
    ensures file.ReadFailed? ==> r == IoError(file.errno, "Failed to read configuration file \"" + path + "\"")
    ensures file.Contents? ==> c.Valid() && fresh(c.mem) && c.mem.Length == |file.data| + 1
    ensures file.Contents? && Parse(file.data + ['\0']).Error? ==>
              r == SyntaxError(Parse(file.data + ['\0']).line, Parse(file.data + ['\0']).reason)
    ensures file.Contents? && Parse(file.data + ['\0']).Ok? ==>
              && r == Loaded
              && c.Entries() == HybridSort(Parse(file.data + ['\0']).value, EntryCmp)
              && Sorted(c.Entries(), EntryCmp)
              && multiset(c.Entries()) == multiset(Parse(file.data + ['\0']).value)
  {
    match file
    case NoPath =>
      return Unchanged;
    case OpenFailed(errno) =>
      if errno == ENOENT {
        return Unchanged;
      }
      return IoError(errno, "Failed to open configuration file \"" + path + "\"");
    case StatFailed(errno) =>
      return IoError(errno, "Failed to retrieve status of configuration file");
    case ReadFailed(errno) =>
      return IoError(errno, "Failed to read configuration file \"" + path + "\"");
    case Contents(data) =>
      ghost var t := data + ['\0'];
      c.mem := new char[|data| + 1](i => if 0 <= i < |data| then data[i] else '\0');
      assert c.mem[..] == t;
      c.size := InitialSize(|data|);
      c.n := 0;
      c.entries := new Entry[c.size];
      assert c.Entries() == [];
      var p := DoLoad(c);
      if p.Error? {
        return SyntaxError(p.line, p.reason);
      }
      assert c.Entries() == p.value;
      c.SortEntries();
      return Loaded;
  }
}
