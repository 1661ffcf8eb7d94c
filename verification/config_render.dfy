/**
 * A printer for configuration entries, and the proof that the parser of
 * src/config.c reads back exactly what it prints: every entry under its
 * own section header, then one `key=value` line.
 */
module ConfigRender {
  import opened CString
  import opened ConfigSyntax

  /** One entry as a header line and a pair line. */
  function RenderEntry(e: Entry): (r: string)
    ensures |r| == |e.section| + |e.key| + |e.value| + 5
  {
    "[" + e.section + "]\n" + e.key + "=" + e.value + "\n"
  }

  /** The entries one after the other. */
  function Render(es: seq<Entry>): (r: string)
    ensures es == [] ==> r == []
  {
    if es == [] then [] else RenderEntry(es[0]) + Render(es[1..])
  }

  // ---------------------------------------------------------------------
  // Reading pieces of the text
  // ---------------------------------------------------------------------

  /** The text holds w from index p on. */
  predicate HoldsAt(t: seq<char>, p: nat, w: seq<char>)
  {
    p + |w| <= |t| && t[p..p + |w|] == w
  }

  lemma HoldsAtSplit(t: seq<char>, p: nat, a: seq<char>, b: seq<char>)
    requires HoldsAt(t, p, a + b)
    ensures HoldsAt(t, p, a) && HoldsAt(t, p + |a|, b)
  {
    assert t[p..p + |a|] == t[p..p + |a + b|][..|a|];
    assert t[p + |a|..p + |a + b|] == t[p..p + |a + b|][|a|..];
  }

  lemma HoldsAtIndex(t: seq<char>, p: nat, w: seq<char>, i: nat)
    requires HoldsAt(t, p, w) && i < |w|
    ensures t[p + i] == w[i]
  {
    assert t[p + i] == t[p..p + |w|][i];
  }

  /** The characters of a rendered entry, piece by piece. */
  lemma EntryPieces(t: seq<char>, p: nat, e: Entry)
    requires HoldsAt(t, p, RenderEntry(e))
    ensures t[p] == '['
    ensures HoldsAt(t, p + 1, e.section + "]\n")
    ensures HoldsAt(t, p + |e.section| + 3, e.key + "=")
    ensures HoldsAt(t, p + |e.section| + 3 + |e.key| + 1, e.value + "\n")
  {
    var s, k, v := e.section, e.key, e.value;
    var tail := (k + "=") + (v + "\n");
    assert RenderEntry(e) == "[" + ((s + "]\n") + tail);
    HoldsAtSplit(t, p, "[", (s + "]\n") + tail);
    HoldsAtIndex(t, p, "[", 0);
    HoldsAtSplit(t, p + 1, s + "]\n", tail);
    HoldsAtSplit(t, p + |s| + 3, k + "=", v + "\n");
  }

  // ---------------------------------------------------------------------
  // The parser on the pieces of one entry
  // ---------------------------------------------------------------------

  /** A header `name]` followed by a line break. */
  lemma SectionNameReads(t: seq<char>, p: nat, s: string, line: int)
    requires Terminated(t) && IsSectionName(s)
    requires HoldsAt(t, p, s + "]\n") && p + |s| + 2 < |t|
    ensures SectionName(t, p, line) == Ok(s, p + |s| + 2, line + 1)
  {
    HoldsAtSplit(t, p, s, "]\n");
    HoldsAtIndex(t, p + |s|, "]\n", 0);
    HoldsAtIndex(t, p + |s|, "]\n", 1);
    forall i | p <= i < p + |s|
      ensures IsAlpha(t[i])
    {
      HoldsAtIndex(t, p, s, i - p);
    }
    SpanTo(t, p + 1, p + |s|, Alphas);
    assert EndLine(t, p + |s| + 1, line) == Ok((), p + |s| + 2, line + 1);
    assert SectionClose(t, p, p + |s|, line) == Ok(s, p + |s| + 2, line + 1);
  }

  /** A key and its '='. */
  lemma KeyReads(t: seq<char>, p: nat, k: string, line: int)
    requires Terminated(t) && IsKey(k)
    requires HoldsAt(t, p, k + "=") && p + |k| + 1 < |t|
    ensures IsAlpha(t[p]) && Key(t, p, line) == Ok(k, p + |k| + 1, line)
  {
    HoldsAtSplit(t, p, k, "=");
    HoldsAtIndex(t, p + |k|, "=", 0);
    forall i | p <= i < p + |k|
      ensures IsAlnum(t[i])
    {
      HoldsAtIndex(t, p, k, i - p);
    }
    SpanTo(t, p, p + |k|, Alnums);
    assert KeyEnd(t, p, p + |k|, line) == Ok(k, p + |k| + 1, line);
  }

  /** A value and its line break. */
  lemma ValueReads(t: seq<char>, p: nat, v: string, line: int)
    requires Terminated(t) && IsValue(v)
    requires HoldsAt(t, p, v + "\n") && p + |v| + 1 < |t|
    ensures Value(t, p, line) == Ok(v, p + |v| + 1, line + 1)
  {
    HoldsAtSplit(t, p, v, "\n");
    HoldsAtIndex(t, p + |v|, "\n", 0);
    forall i | p <= i < p + |v|
      ensures IsValueChar(t[i])
    {
      HoldsAtIndex(t, p, v, i - p);
    }
    SpanTo(t, p + 1, p + |v|, ValueChars);
    assert ValueFrom(t, p, line) == Ok(v, p + |v| + 1, line + 1);
  }

  /** A section ends at the next '[' or at the NUL. */
  lemma SectionBodyStops(t: seq<char>, p: nat, line: int, section: string)
    requires Terminated(t) && p < |t| && (t[p] == '[' || t[p] == '\0')
    ensures SectionBody(t, p, line, section) == Ok([], p, line)
  {
  }

  /** One pair, then the rest of the section. */
  lemma SectionEntryUnfold(t: seq<char>, p: nat, line: int, section: string,
                           k: string, kp: nat, v: string, vp: nat, vl: int)
    requires Terminated(t) && p < |t| && IsAlpha(t[p])
    requires Key(t, p, line) == Ok(k, kp, line)
    requires kp < |t| && Value(t, kp, line) == Ok(v, vp, vl)
    ensures SectionEntry(t, p, line, section)
              == Prepend([Entry(section, k, v)], SectionBody(t, vp, vl, section))
  {
  }

  /** A pair line and nothing else before the next '[' or the NUL. */
  lemma PairReads(t: seq<char>, q: nat, k: string, v: string, line: int, s: string, w: nat)
    requires Terminated(t) && q < |t| && IsAlpha(t[q])
    requires Key(t, q, line) == Ok(k, q + |k| + 1, line)
    requires w == q + |k| + |v| + 2 && w < |t|
    requires Value(t, q + |k| + 1, line) == Ok(v, w, line + 1)
    requires t[w] == '[' || t[w] == '\0'
    ensures SectionBody(t, q, line, s) == Ok([Entry(s, k, v)], w, line + 1)
  {
    SectionBodyStops(t, w, line + 1, s);
    SectionEntryUnfold(t, q, line, s, k, q + |k| + 1, v, w, line + 1);
    assert SectionBody(t, q, line, s) == SectionEntry(t, q, line, s);
    assert [Entry(s, k, v)] + [] == [Entry(s, k, v)];
    assert Prepend([Entry(s, k, v)], Ok([], w, line + 1)) == Ok([Entry(s, k, v)], w, line + 1);
  }

  /** One rendered entry, read as a section that the next '[' or the NUL
      ends. */
  lemma EntryReads(t: seq<char>, p: nat, e: Entry, line: int, w: nat)
    requires Terminated(t) && WellFormed(e)
    requires HoldsAt(t, p, RenderEntry(e)) && w == p + |RenderEntry(e)| && w < |t|
    requires t[w] == '[' || t[w] == '\0'
    ensures Section(t, p + 1, line) == Ok([e], w, line + 2)
  {
    var s, k, v := e.section, e.key, e.value;
    var q := p + |s| + 3;
    EntryPieces(t, p, e);
    assert w == q + |k| + |v| + 2;
    PairLineReads(t, q, k, v, line + 1, s, w);
    SectionNameReads(t, p + 1, s, line);
    assert e == Entry(s, k, v);
    SectionUnfold(t, p + 1, line, s, q, line + 1);
  }

  /** A `key=value` line and nothing else before the next '[' or the NUL. */
  lemma PairLineReads(t: seq<char>, q: nat, k: string, v: string, line: int, s: string, w: nat)
    requires Terminated(t) && IsKey(k) && IsValue(v)
    requires HoldsAt(t, q, k + "=") && HoldsAt(t, q + |k| + 1, v + "\n")
    requires w == q + |k| + |v| + 2 && w < |t|
    requires t[w] == '[' || t[w] == '\0'
    ensures SectionBody(t, q, line, s) == Ok([Entry(s, k, v)], w, line + 1)
  {
    KeyReads(t, q, k, line);
    ValueReads(t, q + |k| + 1, v, line);
    assert q + |k| + 1 + |v| + 1 == w;
    PairReads(t, q, k, v, line, s, w);
  }

  /** A section is its header, then its body. */
  lemma SectionUnfold(t: seq<char>, p: nat, line: int, s: string, q: nat, l: int)
    requires Terminated(t) && p < |t|
    requires SectionName(t, p, line) == Ok(s, q, l) && q < |t|
    ensures Section(t, p, line) == SectionBody(t, q, l, s)
  {
  }

  /** The section opened at p, then the rest of the file. */
  lemma SectionThenDocumentUnfold(t: seq<char>, p: nat, line: int,
                                  es: seq<Entry>, sp: nat, sl: int, rest: seq<Entry>, rp: nat, rl: int)
    requires Terminated(t) && p + 1 < |t| && t[p] == '['
    requires Section(t, p + 1, line) == Ok(es, sp, sl)
    requires sp < |t| && Document(t, sp, sl) == Ok(rest, rp, rl)
    ensures Document(t, p, line) == Ok(es + rest, rp, rl)
  {
    assert Document(t, p, line) == SectionThenDocument(t, p, line);
  }

  /** A rendered entry, then whatever the rest of the file parses to. */
  lemma DocumentStep(t: seq<char>, p: nat, e: Entry, line: int, w: nat, rest: seq<Entry>, rp: nat, rl: int)
    requires Terminated(t) && WellFormed(e)
    requires HoldsAt(t, p, RenderEntry(e)) && w == p + |RenderEntry(e)| && w < |t|
    requires t[w] == '[' || t[w] == '\0'
    requires Document(t, w, line + 2) == Ok(rest, rp, rl)
    ensures Document(t, p, line) == Ok([e] + rest, rp, rl)
  {
    assert t[p] == '[' by {
      HoldsAtIndex(t, p, RenderEntry(e), 0);
    }
    EntryReads(t, p, e, line, w);
    SectionThenDocumentUnfold(t, p, line, [e], w, line + 2, rest, rp, rl);
  }

  /** Two printed pieces followed by the NUL: the second piece starts
      where the first ends, and the first is followed by a '[' or the NUL. */
  lemma HoldsAtNext(t: seq<char>, p: nat, a: seq<char>, b: seq<char>)
    requires HoldsAt(t, p, a + b) && p + |a + b| < |t| && t[p + |a + b|] == '\0'
    requires b == [] || b[0] == '['
    ensures HoldsAt(t, p, a) && HoldsAt(t, p + |a|, b)
    ensures p + |a| + |b| < |t| && t[p + |a| + |b|] == '\0'
    ensures t[p + |a|] == '[' || t[p + |a|] == '\0'
  {
    HoldsAtSplit(t, p, a, b);
    if b != [] {
      HoldsAtIndex(t, p + |a|, b, 0);
    }
  }

  /** The printout of a non-empty list: its first entry, then the rest,
      which starts with a section header unless it is empty. */
  lemma RenderCons(es: seq<Entry>)
    requires es != []
    ensures Render(es) == RenderEntry(es[0]) + Render(es[1..])
    ensures Render(es[1..]) == [] || Render(es[1..])[0] == '['
  {
    if es[1..] != [] {
      RenderStart(es[1..]);
    }
  }

  /** The NUL ends the file. */
  lemma DocumentAtEnd(t: seq<char>, p: nat, line: int)
    requires Terminated(t) && p < |t| && t[p] == '\0'
    ensures Document(t, p, line) == Ok([], p + 1, line)
  {
  }

  /** The entries, printed and followed by the NUL, read back as
      themselves, ending just past the NUL at q on line l; each entry
      takes two lines. */
  lemma {:induction false} DocumentReadsRender(t: seq<char>, p: nat, es: seq<Entry>, line: int, q: nat, l: int)
    requires Terminated(t) && forall e :: e in es ==> WellFormed(e)
    requires HoldsAt(t, p, Render(es)) && p + |Render(es)| < |t| && t[p + |Render(es)|] == '\0'
    requires q == p + |Render(es)| + 1 && l == line + 2 * |es|
    ensures Document(t, p, line) == Ok(es, q, l)
    decreases es
  {
    if es == [] {
      DocumentAtEnd(t, p, line);
    } else {
      var e, rest := es[0], es[1..];
      var a, b := RenderEntry(e), Render(rest);
      var w := p + |a|;
      assert HoldsAt(t, p, a) && HoldsAt(t, w, b)
          && w + |b| < |t| && t[w + |b|] == '\0'
          && (t[w] == '[' || t[w] == '\0')
          && q == w + |b| + 1 by {
        RenderCons(es);
        HoldsAtNext(t, p, a, b);
      }
      assert WellFormed(e) && forall x :: x in rest ==> WellFormed(x) by {
        assert forall x :: x in rest ==> x in es;
      }
      assert [e] + rest == es;
      DocumentReadsRender(t, w, rest, line + 2, q, l);
      DocumentStep(t, p, e, line, w, rest, q, l);
    }
  }

  /** Printed entries start with a section header. */
  lemma RenderStart(es: seq<Entry>)
    requires es != []
    ensures |Render(es)| > 0 && Render(es)[0] == '['
  {
    assert Render(es) == RenderEntry(es[0]) + Render(es[1..]);
  }

  /** The printer and the parser are inverse: the file the printer writes
      parses to the same entries, in the same order. */
  lemma ParseRender(es: seq<Entry>)
    requires forall e :: e in es ==> WellFormed(e)
    ensures Parse(Render(es) + ['\0']) == Ok(es, |Render(es)| + 1, 1 + 2 * |es|)
  {
    var t := Render(es) + ['\0'];
    assert t[0..|Render(es)|] == Render(es);
    DocumentReadsRender(t, 0, es, 1, |Render(es)| + 1, 1 + 2 * |es|);
  }
}
