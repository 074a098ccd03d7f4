// Wrapping the selected range of a text field in formatting markers: the
// applyFormat helpers of the chat input and the post composer and the reply
// formatter of the mailbox all splice `marker + selected + marker` into the
// text between the selection bounds.

module Selection {
  import InlineFormat

  datatype Format = Bold | Italic | Underline

  /** The marker the formatter reads back for each format. */
  function Marker(f: Format): string {
    match f
    case Bold => "**"
    case Italic => "*"
    case Underline => "__"
  }

  /** `text.substring(0, start) + marker + selected + marker + text.substring(end)`,
    * or text itself when the selection is empty. The bounds come from a
    * textarea, which keeps start <= end <= text length. */
  function Wrap(text: string, start: nat, end: nat, marker: string): (r: string)
    requires start <= end <= |text|
    ensures start == end ==> r == text
    ensures start < end ==> |r| == |text| + 2 * |marker|
    ensures start < end ==> r[..start] == text[..start] && r[end + 2 * |marker|..] == text[end..]
    ensures start < end ==> r[start..start + |marker|] == marker && r[end + |marker|..end + 2 * |marker|] == marker
  {
    if start == end then text
    else text[..start] + marker + text[start..end] + marker + text[end..]
  }

  /** The selection set after wrapping covers exactly the originally selected text. */
  lemma WrapKeepsSelection(text: string, start: nat, end: nat, marker: string)
    requires start < end <= |text|
    ensures Wrap(text, start, end, marker)[start + |marker|..end + |marker|] == text[start..end]
  {
    var r := Wrap(text, start, end, marker);
    assert r == text[..start] + marker + text[start..end] + marker + text[end..];
    assert r[start + |marker|..end + |marker|] == text[start..end];
  }

  /** Deleting the two inserted markers gives the original text back. */
  function Unwrap(r: string, start: nat, end: nat, marker: string): string
    requires start <= end && end + 2 * |marker| <= |r|
  {
    r[..start] + r[start + |marker|..end + |marker|] + r[end + 2 * |marker|..]
  }

  lemma UnwrapWrap(text: string, start: nat, end: nat, marker: string)
    requires start < end <= |text|
    ensures Unwrap(Wrap(text, start, end, marker), start, end, marker) == text
  {
    WrapKeepsSelection(text, start, end, marker);
    var r := Wrap(text, start, end, marker);
    assert text == text[..start] + text[start..end] + text[end..];
  }

  /** Selecting a whole plain text and pressing Bold yields text the message
    * formatter renders as one strong element. */
  lemma WrapAllBold(x: string)
    requires InlineFormat.AllInert(x) && x != []
    ensures InlineFormat.FormatMessage(Wrap(x, 0, |x|, Marker(Bold))) == "<strong>" + x + "</strong>"
  {
    assert Wrap(x, 0, |x|, "**") == "**" + x + "**" by {
      assert x[..0] == [] && x[0..|x|] == x && x[|x|..] == [];
    }
    InlineFormat.FormatBold(x);
  }

  lemma WrapAllItalic(x: string)
    requires InlineFormat.AllInert(x) && x != []
    ensures InlineFormat.FormatMessage(Wrap(x, 0, |x|, Marker(Italic))) == "<em>" + x + "</em>"
  {
    assert Wrap(x, 0, |x|, "*") == "*" + x + "*" by {
      assert x[..0] == [] && x[0..|x|] == x && x[|x|..] == [];
    }
    InlineFormat.FormatItalic(x);
  }

  lemma WrapAllUnderline(x: string)
    requires InlineFormat.AllInert(x) && x != []
    ensures InlineFormat.FormatMessage(Wrap(x, 0, |x|, Marker(Underline))) == "<u>" + x + "</u>"
  {
    assert Wrap(x, 0, |x|, "__") == "__" + x + "__" by {
      assert x[..0] == [] && x[0..|x|] == x && x[|x|..] == [];
    }
    InlineFormat.FormatUnderline(x);
  }
}
