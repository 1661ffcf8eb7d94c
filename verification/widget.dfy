/**
 * The widget's bounded state: the input line (char str[32] with len), the
 * list of result rows with its capacity, and the highlighted row; plus the
 * bounding rectangle of its two areas.
 *
 * Drawing itself (cairo, FreeType, colours) is not modelled: the drawing
 * methods below keep only what they do to the state and which rows they
 * would paint, and how.
 */
module Widget {
  import opened CString
  import opened Status
  import TextInput

  /** SIZE_MAX of a 64-bit size_t, what n_rows - 1 wraps to when n_rows is 0. */
  const SIZE_MAX: nat := 0xFFFF_FFFF_FFFF_FFFF

  /** ARRAY_SIZE(w->str). */
  const STR_SIZE: nat := 32

  /** The row capacity widget_init() allocates. */
  const DEFAULT_MAX_ROWS: nat := 10

  function Min(a: int, b: int): int { if a <= b then a else b }

  class Widget {
    /** The row pointers; the array is the allocation, of max_rows slots. */
    var rows: array<string>
    var nRows: nat
    var maxRows: nat
    var highlight: nat
    const str: array<char>
    var len: nat

    /** The input line as the TextInput functions see it. */
    function Input(): TextInput.Line
      reads this, str
    {
      TextInput.Line(str[..], len)
    }

    ghost predicate Valid()
      reads this, str, rows
    {
      && str.Length == STR_SIZE
      && TextInput.Wf(Input())
      && rows.Length == maxRows
      && nRows <= maxRows <= SIZE_MAX
    }

    /** The rows inserted since the last clear. */
    ghost function Rows(): seq<string>
      reads this, rows
      requires nRows <= rows.Length
    {
      rows[..nRows]
    }

    /** widget_init(): an empty input line, no rows, room for ten. */
    constructor ()
      ensures Valid() && fresh(str) && fresh(rows)
      ensures Input() == TextInput.Line(seq(STR_SIZE, _ => '\0'), 0)
      ensures Rows() == [] && maxRows == DEFAULT_MAX_ROWS && highlight == 0
    {
      str := new char[STR_SIZE](_ => '\0');
      rows := new string[DEFAULT_MAX_ROWS];
      maxRows := DEFAULT_MAX_ROWS;
      nRows := 0;
      highlight := 0;
      len := 0;
    }

    /**
     * widget_set_max_rows(): reallocates the row array, keeping the rows
     * that fit, and leaves n_rows and the highlight alone; the state stays
     * valid only when n_rows still fits.
     */
    method SetMaxRows(m: nat)
      requires Valid() && m <= SIZE_MAX
      modifies this
      ensures fresh(rows) && rows.Length == m && maxRows == m
      ensures rows[..Min(m, old(rows.Length))] == old(rows[..Min(m, rows.Length)])
      ensures nRows == old(nRows) && highlight == old(highlight) && Input() == old(Input())
      ensures old(nRows) <= m ==> Valid() && Rows() == old(Rows())
    {
      var a := new string[m];
      var k := Min(m, rows.Length);
      forall i | 0 <= i < k {
        a[i] := rows[i];
      }
      rows := a;
      maxRows := m;
      assert rows[..k] == old(rows[..k]);
      if nRows <= m {
        assert Rows() == rows[..k][..nRows];
      }
    }

    // -------------------------------------------------------------------
    // The input line
    // -------------------------------------------------------------------

    /** widget_clear_input_str(): NULs the used slots from the last one down. */
    method ClearInputStr()
      requires Valid()
      modifies this, str
      ensures Valid()
      ensures Input() == TextInput.Clear(old(Input()))
      ensures rows == old(rows) && nRows == old(nRows) && highlight == old(highlight)
    {
      while len != 0
        invariant len <= old(len)
        invariant str[..] == old(str[..])[..len] + seq(old(len) - len, _ => '\0') + old(str[..])[old(len)..]
        invariant rows == old(rows) && nRows == old(nRows) && maxRows == old(maxRows)
        invariant highlight == old(highlight)
      {
        len := len - 1;
        str[len] := '\0';
      }
      assert str[..] == TextInput.Clear(old(Input())).buf;
      TextInput.InsertRemoveClearWf(old(Input()), 0);
    }

    /** widget_input_str(): the typed text, up to a NUL typed into it. */
    function InputStr(): (r: string)
      reads this, str, rows
      requires Valid()
      ensures r <= str[..len]
      ensures NulFree(str[..len]) ==> r == str[..len]
    {
      TextInput.TextIsTyped(Input());
      TextInput.Text(Input())
    }

    /** widget_input_strlen(): the number of characters typed. */
    function InputStrlen(): (r: nat)
      reads this, str, rows
      requires Valid()
      ensures r == |TextInput.Typed(Input())|
    {
      len
    }

    /** widget_insert_char(): appends an ASCII character below the last slot. */
    method InsertChar(c: int)
      requires Valid()
      modifies this, str
      ensures Valid()
      ensures Input() == TextInput.Insert(old(Input()), c)
      ensures rows == old(rows) && nRows == old(nRows) && highlight == old(highlight)
    {
      if len < STR_SIZE - 1 && IsAscii(c) {
        str[len] := c as char;
        len := len + 1;
      }
      TextInput.InsertRemoveClearWf(old(Input()), c);
    }

    /** widget_remove_char(): takes back the last character, if any. */
    method RemoveChar()
      requires Valid()
      modifies this, str
      ensures Valid()
      ensures Input() == TextInput.Remove(old(Input()))
      ensures rows == old(rows) && nRows == old(nRows) && highlight == old(highlight)
    {
      if len != 0 {
        len := len - 1;
        str[len] := '\0';
      }
      TextInput.InsertRemoveClearWf(old(Input()), 0);
    }

    /**
     * The input half of widget_draw(): shows the typed text followed by a
     * '_' cursor, written into the buffer for the call and taken out again.
     */
    method DrawInput() returns (shown: string)
      requires Valid()
      modifies this, str
      ensures shown == TextInput.Typed(old(Input())) + ['_']
      ensures Input() == old(Input())
      ensures rows == old(rows) && nRows == old(nRows) && highlight == old(highlight)
    {
      str[len] := '_';
      len := len + 1;
      assert Input() == TextInput.WithCursor(old(Input()));
      shown := str[..len];
      len := len - 1;
      str[len] := '\0';
      TextInput.CursorRestored(old(Input()));
    }

    // -------------------------------------------------------------------
    // Rows and the highlight
    // -------------------------------------------------------------------

    /** widget_has_empty_row(): room for one more row. */
    function HasEmptyRow(): (r: bool)
      reads this, str, rows
      requires Valid()
      ensures r <==> |Rows()| < rows.Length
    {
      nRows < maxRows
    }

    /** widget_rows(): the number of rows. */
    function RowCount(): (r: nat)
      reads this, str, rows
      requires Valid()
      ensures r == |Rows()|
    {
      nRows
    }

    /** widget_insert_row(): appends a row while there is room, else drops it. */
    method InsertRow(s: string)
      requires Valid()
      modifies rows, this
      ensures Valid() && rows == old(rows) && maxRows == old(maxRows)
      ensures old(HasEmptyRow()) ==> Rows() == old(Rows()) + [s]
      ensures !old(HasEmptyRow()) ==> Rows() == old(Rows())
      ensures highlight == old(highlight) && Input() == old(Input())
    {
      if nRows < maxRows {
        rows[nRows] := s;
        nRows := nRows + 1;
        assert Rows() == old(Rows()) + [s];
      }
    }

    /** widget_clear_rows(): forgets the rows, not the highlight. */
    method ClearRows()
      requires Valid()
      modifies this
      ensures Valid() && Rows() == [] && rows == old(rows) && maxRows == old(maxRows)
      ensures highlight == old(highlight) && Input() == old(Input())
    {
      nRows := 0;
    }

    /**
     * widget_highlight(): the highlighted row, None without rows. The index
     * is not checked against n_rows: a highlight at or past n_rows reads a
     * slot that holds no current row, so it must at least lie in the array.
     */
    function Highlighted(): (r: Option<string>)
      reads this, str, rows
      requires Valid()
      requires nRows == 0 || highlight < maxRows
      ensures r.None? <==> |Rows()| == 0
      ensures nRows > 0 ==> r == Some(rows[highlight])
      ensures 0 < nRows && highlight < nRows ==> r == Some(Rows()[highlight]) && r.value in Rows()
    {
      if nRows == 0 then None else Some(rows[highlight])
    }

    /** widget_highlight_up(): one row up, never below the first. */
    method HighlightUp()
      requires Valid()
      modifies this
      ensures Valid() && rows == old(rows) && nRows == old(nRows) && Input() == old(Input())
      ensures old(highlight) > 0 ==> highlight == old(highlight) - 1
      ensures old(highlight) == 0 ==> highlight == 0
      ensures old(highlight) < nRows ==> highlight < nRows
    {
      if highlight != 0 {
        highlight := highlight - 1;
      }
    }

    /**
     * widget_highlight_down() as evidently intended: one row down, never
     * past the last row, so a highlight on a row stays on a row.
     */
    method HighlightDown()
      requires Valid()
      modifies this
      ensures Valid() && rows == old(rows) && nRows == old(nRows) && Input() == old(Input())
      ensures old(highlight) + 1 < nRows ==> highlight == old(highlight) + 1
      ensures old(highlight) + 1 >= nRows ==> highlight == old(highlight)
      ensures old(highlight) < nRows ==> highlight < nRows
    {
      if highlight + 1 < nRows {
        highlight := highlight + 1;
      }
    }

    /**
     * The output half of widget_draw(): first clamps the highlight to the
     * last row (n_rows - 1 wraps to SIZE_MAX when there are no rows), then
     * paints each row, the highlighted one in the highlight colours, then
     * one blank rectangle per unused row slot.
     */
    method DrawOutput() returns (painted: seq<(string, bool)>, blanks: nat)
      requires Valid()
      modifies this
      ensures Valid() && rows == old(rows) && nRows == old(nRows) && Input() == old(Input())
      ensures old(highlight) < nRows ==> highlight == old(highlight)
      ensures old(highlight) >= nRows ==> highlight == (if nRows > 0 then nRows - 1 else SIZE_MAX)
      ensures nRows > 0 ==> highlight < nRows
      ensures |painted| == |Rows()|
      ensures forall i :: 0 <= i < |painted| ==> painted[i] == (Rows()[i], i == highlight)
      ensures blanks == maxRows - nRows
    {
      if highlight >= nRows {
        highlight := (nRows + SIZE_MAX) % (SIZE_MAX + 1);
      }
      painted := [];
      var i := 0;
      while i < nRows
        invariant i <= nRows
        invariant |painted| == i
        invariant forall k :: 0 <= k < i ==> painted[k] == (Rows()[k], k == highlight)
      {
        painted := painted + [(rows[i], i == highlight)];
        i := i + 1;
      }
      blanks := 0;
      i := nRows;
      while i < maxRows
        invariant nRows <= i <= maxRows
        invariant blanks == i - nRows
      {
        blanks := blanks + 1;
        i := i + 1;
      }
    }
  }

  /**
   * widget_highlight_down() as written: it moves while the highlight is
   * below n_rows, so from the last row it reaches n_rows itself.
   */
  function HighlightDownAsWritten(highlight: nat, nRows: nat): (r: nat)
    ensures highlight < nRows ==> r == highlight + 1
    ensures highlight >= nRows ==> r == highlight
  {
    if highlight < nRows then highlight + 1 else highlight
  }

  /**
   * From the last of n rows the as-written step leaves the highlight on no
   * row; widget_highlight() then reads the slot after the rows, which with
   * a full list is outside the row array.
   */
  lemma HighlightDownFinding(nRows: nat, maxRows: nat)
    requires 0 < nRows
    ensures HighlightDownAsWritten(nRows - 1, nRows) == nRows
    ensures nRows == maxRows ==> HighlightDownAsWritten(nRows - 1, nRows) >= maxRows
  {
  }

  // ---------------------------------------------------------------------
  // widget_area()
  // ---------------------------------------------------------------------

  datatype Rect = Rect(x: int, y: int, width: int, height: int)

  function Right(r: Rect): int { r.x + r.width }

  function Bottom(r: Rect): int { r.y + r.height }

  /** Rectangle a covers rectangle b. */
  predicate Contains(a: Rect, b: Rect)
  {
    a.x <= b.x && a.y <= b.y && Right(b) <= Right(a) && Bottom(b) <= Bottom(a)
  }

  /**
   * widget_area(): the rectangle spanning the output and the input areas,
   * each of its edges taken from one of them.
   */
  function Area(output: Rect, input: Rect): (r: Rect)
    ensures Contains(r, output) && Contains(r, input)
    ensures r.x == output.x || r.x == input.x
    ensures r.y == output.y || r.y == input.y
    ensures Right(r) == Right(output) || Right(r) == Right(input)
    ensures Bottom(r) == Bottom(output) || Bottom(r) == Bottom(input)
  {
    var x := if output.x < input.x then output.x else input.x;
    var y := if output.y < input.y then output.y else input.y;
    var xw1 := output.x + output.width;
    var xw2 := input.x + input.width;
    var yh1 := output.y + output.height;
    var yh2 := input.y + input.height;
    Rect(x, y, (if xw1 > xw2 then xw1 else xw2) - x, (if yh1 > yh2 then yh1 else yh2) - y)
  }

  /** No smaller rectangle covers both areas. */
  lemma AreaSmallest(output: Rect, input: Rect, q: Rect)
    requires Contains(q, output) && Contains(q, input)
    ensures Contains(q, Area(output, input))
  {
  }
}
