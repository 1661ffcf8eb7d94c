/**
 * The text box: a char buffer input[] and its fill count size. The
 * buffer's capacity is set in textbox.h, which is not part of this model;
 * here it is the constructor's parameter.
 */
module Textbox {
  import opened CString
  import TextInput

  class Textbox {
    const input: array<char>
    var size: int

    /** The buffer as the TextInput functions see it. */
    function Contents(): TextInput.Line
      reads this, input
    {
      TextInput.Line(input[..], size)
    }

    ghost predicate Valid()
      reads this, input
    {
      TextInput.Wf(Contents())
    }

    /** textbox_init(): the whole buffer NUL, nothing typed. */
    constructor (capacity: nat)
      requires 1 <= capacity
      ensures Valid() && fresh(input) && input.Length == capacity
      ensures Contents() == TextInput.Line(seq(capacity, _ => '\0'), 0)
    {
      input := new char[capacity](_ => '\0');
      size := 0;
    }

    /** textbox_insert(): appends an ASCII character below the last slot. */
    method Insert(c: int)
      requires Valid()
      modifies this, input
      ensures Valid()
      ensures Contents() == TextInput.Insert(old(Contents()), c)
    {
      if 0 <= size < input.Length - 1 && IsAscii(c) {
        input[size] := c as char;
        size := size + 1;
      }
      TextInput.InsertRemoveClearWf(old(Contents()), c);
    }

    /** textbox_remove(): takes back the last character, if any. */
    method Remove()
      requires Valid()
      modifies this, input
      ensures Valid()
      ensures Contents() == TextInput.Remove(old(Contents()))
    {
      if size != 0 {
        size := size - 1;
        input[size] := '\0';
      }
      TextInput.InsertRemoveClearWf(old(Contents()), 0);
    }

    /** textbox_clear() as evidently intended: NULs the used slots, size 0. */
    method Clear()
      requires Valid()
      modifies this, input
      ensures Valid()
      ensures Contents() == TextInput.Clear(old(Contents()))
    {
      while size != 0
        invariant 0 <= size <= old(size)
        invariant input[..] == old(input[..])[..size] + seq(old(size) - size, _ => '\0') + old(input[..])[old(size)..]
      {
        size := size - 1;
        input[size] := '\0';
      }
      assert input[..] == TextInput.Clear(old(Contents())).buf;
      TextInput.InsertRemoveClearWf(old(Contents()), 0);
    }

    /**
     * textbox_clear() as written: while (size--) input[size] = 0. The test
     * that ends the loop still decrements, so size ends at -1.
     */
    method ClearAsWritten()
      requires Valid()
      modifies this, input
      ensures Contents() == TextInput.ClearAsWritten(old(Contents()))
    {
      while size != 0
        invariant 0 <= size <= old(size)
        invariant input[..] == old(input[..])[..size] + seq(old(size) - size, _ => '\0') + old(input[..])[old(size)..]
      {
        size := size - 1;
        input[size] := '\0';
      }
      size := size - 1;
      assert input[..] == TextInput.ClearAsWritten(old(Contents())).buf;
    }

    /** textbox_str(): the typed text, up to a NUL typed into it. */
    function Str(): (r: string)
      reads this, input
      requires Valid()
      ensures r <= input[..size]
      ensures NulFree(input[..size]) ==> r == input[..size]
    {
      TextInput.TextIsTyped(Contents());
      TextInput.Text(Contents())
    }
  }
}
