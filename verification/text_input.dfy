/**
 * The typed-input line shared by the widget (char str[32] with len) and
 * the text box (char input[] with size): a fixed buffer whose first len
 * slots hold what was typed and whose other slots are NUL.
 *
 * The functions here are what one call does to the buffer; the classes in
 * the Widget and Textbox modules are proved against them.
 */
module TextInput {
  import opened CString

  /** The buffer and its fill count (signed, so a count below zero can be told). */
  datatype Line = Line(buf: seq<char>, len: int)

  /** The state every call expects: a count inside the buffer, NULs after it. */
  predicate Wf(l: Line)
  {
    && 0 <= l.len < |l.buf|
    && forall i :: l.len <= i < |l.buf| ==> l.buf[i] == '\0'
  }

  /** What has been typed. */
  function Typed(l: Line): string
    requires 0 <= l.len <= |l.buf|
  {
    l.buf[..l.len]
  }

  /** A character is appended only below the last slot and only when it is ASCII. */
  predicate Accepts(l: Line, c: int)
  {
    0 <= l.len < |l.buf| - 1 && IsAscii(c)
  }

  /** widget_insert_char(), textbox_insert(). */
  function Insert(l: Line, c: int): (r: Line)
    ensures Accepts(l, c) ==> r.len == l.len + 1 && |r.buf| == |l.buf|
    ensures Accepts(l, c) ==> Typed(r) == Typed(l) + [c as char]
    ensures Accepts(l, c) ==> r.buf[r.len..] == l.buf[r.len..]
    ensures !Accepts(l, c) ==> r == l
  {
    if Accepts(l, c) then
      var r := Line(l.buf[l.len := c as char], l.len + 1);
      assert Typed(r) == Typed(l) + [c as char];
      r
    else
      l
  }

  /** widget_remove_char(), textbox_remove(). */
  function Remove(l: Line): (r: Line)
    requires 0 <= l.len <= |l.buf|
    ensures |r.buf| == |l.buf|
    ensures l.len > 0 ==> r.len == l.len - 1
    ensures l.len > 0 ==> Typed(l) == Typed(r) + [l.buf[l.len - 1]]
    ensures l.len > 0 ==> r.buf[r.len] == '\0' && r.buf[r.len + 1..] == l.buf[r.len + 1..]
    ensures l.len == 0 ==> r == l
  {
    if l.len != 0 then
      var r := Line(l.buf[l.len - 1 := '\0'], l.len - 1);
      assert Typed(l) == Typed(r) + [l.buf[l.len - 1]];
      r
    else
      l
  }

  /**
   * widget_clear_input_str(), and textbox_clear() as evidently intended:
   * every used slot becomes NUL and the count becomes zero.
   */
  function Clear(l: Line): (r: Line)
    requires 0 <= l.len <= |l.buf|
    ensures r.len == 0 && |r.buf| == |l.buf|
    ensures forall i :: 0 <= i < l.len ==> r.buf[i] == '\0'
    ensures r.buf[l.len..] == l.buf[l.len..]
  {
    Line(seq(l.len, _ => '\0') + l.buf[l.len..], 0)
  }

  /**
   * textbox_clear() as written: the same NULs, but the loop's post-decrement
   * runs once more after the count reaches zero and leaves it at -1.
   */
  function ClearAsWritten(l: Line): (r: Line)
    requires 0 <= l.len <= |l.buf|
    ensures r.buf == Clear(l).buf
    ensures r.len == -1
  {
    Line(seq(l.len, _ => '\0') + l.buf[l.len..], -1)
  }

  /** The string a caller reads through widget_input_str() or textbox_str(). */
  function Text(l: Line): (r: string)
  {
    CStr(l.buf)
  }

  /** The buffer widget_draw_input() shows: the typed text and a '_' cursor. */
  function WithCursor(l: Line): (r: Line)
    requires 0 <= l.len < |l.buf|
    ensures r.len == l.len + 1 && |r.buf| == |l.buf|
    ensures Typed(r) == Typed(l) + ['_']
  {
    var r := Line(l.buf[l.len := '_'], l.len + 1);
    assert Typed(r) == Typed(l) + ['_'];
    r
  }

  // ---------------------------------------------------------------------
  // Properties
  // ---------------------------------------------------------------------

  /** Every call keeps the state well-formed. */
  lemma InsertRemoveClearWf(l: Line, c: int)
    requires Wf(l)
    ensures Wf(Insert(l, c))
    ensures Wf(Remove(l))
    ensures Wf(Clear(l))
  {
    var r := Remove(l);
    if l.len > 0 {
      forall i | r.len <= i < |r.buf|
        ensures r.buf[i] == '\0'
      {
        if i > r.len {
          assert r.buf[i] == l.buf[r.len + 1..][i - r.len - 1];
        }
      }
    }
  }

  /** Removing right after an accepted insertion restores the state. */
  lemma RemoveUndoesInsert(l: Line, c: int)
    requires Wf(l) && Accepts(l, c)
    ensures Remove(Insert(l, c)) == l
  {
    var r := Remove(Insert(l, c));
    assert r.buf == l.buf by {
      assert |r.buf| == |l.buf|;
      forall i | 0 <= i < |l.buf|
        ensures r.buf[i] == l.buf[i]
      {
      }
    }
  }

  /** Clearing a well-formed state empties the whole buffer. */
  lemma ClearEmpties(l: Line)
    requires Wf(l)
    ensures Clear(l).buf == seq(|l.buf|, _ => '\0')
    ensures Text(Clear(l)) == [] && Typed(Clear(l)) == []
  {
    var r := Clear(l);
    forall i | 0 <= i < |l.buf|
      ensures r.buf[i] == '\0'
    {
      if i >= l.len {
        assert r.buf[i] == l.buf[l.len..][i - l.len];
      }
    }
    assert r.buf == seq(|l.buf|, _ => '\0');
  }

  /**
   * The text a caller reads is terminated inside the buffer and is a prefix
   * of what was typed; it is all of it unless a NUL (which is ASCII) was
   * typed.
   */
  lemma TextIsTyped(l: Line)
    requires Wf(l)
    ensures l.buf[l.len] == '\0'
    ensures Text(l) <= Typed(l)
    ensures NulFree(Typed(l)) ==> Text(l) == Typed(l)
  {
    TextPrefix(l.buf, l.len);
  }

  lemma {:induction false} TextPrefix(b: seq<char>, n: nat)
    requires n < |b| && b[n] == '\0'
    ensures CStr(b) <= b[..n]
    ensures NulFree(b[..n]) ==> CStr(b) == b[..n]
  {
    if n > 0 && b[0] != '\0' {
      assert b[1..][n - 1] == '\0';
      TextPrefix(b[1..], n - 1);
      assert b[..n] == [b[0]] + b[1..][..n - 1];
    }
  }

  /** Drawing the cursor and taking it away again leaves the state as it was. */
  lemma CursorRestored(l: Line)
    requires Wf(l)
    ensures Remove(WithCursor(l)) == l
  {
    var r := Remove(WithCursor(l));
    assert r.buf == l.buf by {
      forall i | 0 <= i < |l.buf|
        ensures r.buf[i] == l.buf[i]
      {
      }
    }
  }

  /**
   * After textbox_clear() as written no character is ever accepted again,
   * and the state is no longer well-formed, so a later textbox_remove()
   * writes in front of the buffer.
   */
  lemma ClearAsWrittenFinding(l: Line, c: int)
    requires Wf(l)
    ensures !Wf(ClearAsWritten(l))
    ensures !Accepts(ClearAsWritten(l), c)
    ensures ClearAsWritten(l).len - 1 < 0
  {
  }
}
