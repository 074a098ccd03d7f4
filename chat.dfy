// The two text composers: the chat input under a conversation (message
// field, format toolbar, Enter to send) and the create-post modal (content
// field reset on open, Post button).

module Chat {
  import opened Common
  import opened Selection

  /** What the chat input hands to its send callback: the trimmed text, or
    * nothing when the field is blank. */
  function Outgoing(message: string): (r: Option<string>)
    ensures r.None? <==> IsBlank(message)
    ensures r.Some? ==> r.value == Trim(message)
  {
    if IsBlank(message) then None else Some(Trim(message))
  }

  /** A sent chat message is non-empty, has no white space at either end, and
    * is the field's text with only surrounding white space removed. */
  lemma OutgoingTrimmed(message: string) returns (i: nat, j: nat)
    requires Outgoing(message).Some?
    ensures i < j <= |message| && Outgoing(message).value == message[i..j]
    ensures AllWhitespace(message[..i]) && AllWhitespace(message[j..])
    ensures !IsWhitespace(message[i]) && !IsWhitespace(message[j - 1])
  {
    i, j := TrimShape(message);
    assert message[i] == message[i..j][0];
    assert message[j - 1] == message[i..j][j - i - 1];
  }

  /** Enter without Shift submits; every other key, Shift+Enter included, types. */
  predicate IsSubmitKey(key: string, shift: bool) {
    key == "Enter" && !shift
  }

  class ChatInput {
    var message: string
    var showFormatTools: bool

    constructor ()
      ensures message == [] && !showFormatTools
    {
      message := [];
      showFormatTools := false;
    }

    /** Typing: the field takes the new value, and the format toolbar shows
      * exactly when the field is non-empty. */
    method Edit(value: string)
      modifies this
      ensures message == value && showFormatTools == (value != [])
    {
      message := value;
      if |value| > 0 && !showFormatTools {
        showFormatTools := true;
      } else if |value| == 0 && showFormatTools {
        showFormatTools := false;
      }
    }

    /** The send button: a non-blank message is sent trimmed, the field is
      * cleared and the toolbar hidden; a blank one changes nothing. */
    method Send() returns (sent: Option<string>)
      modifies this
      ensures sent == Outgoing(old(message))
      ensures sent.Some? ==> message == [] && !showFormatTools
      ensures sent.None? ==> message == old(message) && showFormatTools == old(showFormatTools)
    {
      if !IsBlank(message) {
        sent := Some(Trim(message));
        message := [];
        showFormatTools := false;
      } else {
        sent := None;
      }
    }

    method KeyDown(key: string, shift: bool) returns (sent: Option<string>)
      modifies this
      ensures IsSubmitKey(key, shift) ==> sent == Outgoing(old(message))
      ensures IsSubmitKey(key, shift) && sent.Some? ==> message == [] && !showFormatTools
      ensures !IsSubmitKey(key, shift) ==> sent == None
      ensures sent.None? ==> message == old(message) && showFormatTools == old(showFormatTools)
    {
      if IsSubmitKey(key, shift) {
        sent := Send();
      } else {
        sent := None;
      }
    }

    /** A toolbar button: wraps the selection [start, end) in the format's
      * marker and returns the selection to restore, which covers the
      * original text; an empty selection leaves the field alone. */
    method ApplyFormat(f: Format, start: nat, end: nat) returns (selection: Option<(nat, nat)>)
      requires start <= end <= |message|
      modifies this
      ensures message == Wrap(old(message), start, end, Marker(f))
      ensures showFormatTools == old(showFormatTools)
      ensures start == end ==> selection == None
      ensures start < end ==> selection == Some((start + |Marker(f)|, end + |Marker(f)|))
    {
      if start == end {
        selection := None;
        return;
      }
      var chars := Marker(f);
      message := message[..start] + chars + message[start..end] + chars + message[end..];
      selection := Some((start + |chars|, end + |chars|));
    }
  }

  /** What the create-post modal hands to its post callback: the content as
    * typed, untrimmed, provided it is not blank. */
  function PostOutgoing(content: string): (r: Option<string>)
    ensures r.None? <==> IsBlank(content)
    ensures r.Some? ==> r.value == content
  {
    if IsBlank(content) then None else Some(content)
  }

  /** The Post button is enabled exactly when posting would fire. */
  predicate PostEnabled(content: string) {
    !IsBlank(content)
  }

  /** Chat trims, posting does not: both accept the same texts, and a post
    * keeps the white space a chat message loses. */
  lemma PostKeepsWhitespace(content: string)
    ensures PostOutgoing(content).Some? <==> Outgoing(content).Some?
    ensures PostOutgoing(content).Some? <==> PostEnabled(content)
    ensures PostOutgoing(content).Some? && IsWhitespace(content[0]) ==>
      PostOutgoing(content).value != Outgoing(content).value
  {
    if PostOutgoing(content).Some? && IsWhitespace(content[0]) {
      var i, j := OutgoingTrimmed(content);
      assert Outgoing(content).value[0] == content[i];
      assert Outgoing(content).value[0] != content[0];
    }
  }

  class PostComposer {
    var content: string

    constructor ()
      ensures content == []
    {
      content := [];
    }

    /** Opening the modal clears whatever was typed before. */
    method Open()
      modifies this
      ensures content == []
    {
      content := [];
    }

    method Edit(value: string)
      modifies this
      ensures content == value
    {
      content := value;
    }

    /** The Post button: the content is handed on untrimmed when it is not
      * blank; the field is left as it is either way. */
    method Post() returns (posted: Option<string>)
      ensures posted == PostOutgoing(content)
    {
      if !IsBlank(content) {
        posted := Some(content);
      } else {
        posted := None;
      }
    }

    method ApplyFormat(f: Format, start: nat, end: nat) returns (selection: Option<(nat, nat)>)
      requires start <= end <= |content|
      modifies this
      ensures content == Wrap(old(content), start, end, Marker(f))
      ensures start == end ==> selection == None
      ensures start < end ==> selection == Some((start + |Marker(f)|, end + |Marker(f)|))
    {
      if start == end {
        selection := None;
        return;
      }
      var chars := Marker(f);
      content := content[..start] + chars + content[start..end] + chars + content[end..];
      selection := Some((start + |chars|, end + |chars|));
    }
  }
}
