// The compose window of the mailbox: the recipient chip inputs (to, cc,
// bcc), the send validation, and the window-state transitions.

module Compose {
  import opened Common
  import Mailbox

  /** No address is listed twice. */
  predicate Distinct(recipients: seq<string>) {
    forall i, j :: 0 <= i < j < |recipients| ==> recipients[i] != recipients[j]
  }

  /** The keys that commit the typed address as a chip. */
  predicate IsCommitKey(key: string) {
    key == "Enter" || key == "," || key == " "
  }

  /** The list after committing `input`: its trimmed value is appended when
    * it is non-empty and not yet listed. */
  function Commit(recipients: seq<string>, input: string): (r: seq<string>)
    ensures Distinct(recipients) ==> Distinct(r)
    ensures Trim(input) == [] || Trim(input) in recipients ==> r == recipients
    ensures Trim(input) != [] && Trim(input) !in recipients ==> r == recipients + [Trim(input)]
  {
    var value := Trim(input);
    if value != [] && value !in recipients then recipients + [value] else recipients
  }

  /** Committing the same text twice adds it once. */
  lemma CommitIdempotent(recipients: seq<string>, input: string)
    ensures Commit(Commit(recipients, input), input) == Commit(recipients, input)
  {
  }

  /** The last chip dropped (`slice(0, -1)`), keeping the others in order. */
  lemma DropLastDistinct(recipients: seq<string>)
    requires Distinct(recipients) && recipients != []
    ensures Distinct(recipients[..|recipients| - 1])
  {
  }

  /** `filter((_, i) => i !== index)` keeps distinct lists distinct. */
  lemma RemoveAtDistinct(recipients: seq<string>, index: int)
    requires Distinct(recipients)
    ensures Distinct(RemoveAt(recipients, index))
  {
    if 0 <= index < |recipients| {
      var r := RemoveAt(recipients, index);
      forall i, j | 0 <= i < j < |r| ensures r[i] != r[j] {
        var i' := if i < index then i else i + 1;
        var j' := if j < index then j else j + 1;
        assert r[i] == recipients[i'] && r[j] == recipients[j'];
      }
    }
  }

  /** One recipient field: its chips and the text being typed. */
  class RecipientInput {
    var recipients: seq<string>
    var inputValue: string

    predicate Valid()
      reads this
    {
      Distinct(recipients)
    }

    constructor ()
      ensures recipients == [] && inputValue == [] && Valid()
    {
      recipients := [];
      inputValue := [];
    }

    method Type(value: string)
      modifies this
      ensures inputValue == value && recipients == old(recipients)
    {
      inputValue := value;
    }

    /** handleKeyDown: a commit key with text typed commits it and clears the
      * input; Backspace on an empty input drops the last chip; any other key
      * changes nothing here. */
    method KeyDown(key: string)
      requires Valid()
      modifies this
      ensures Valid()
      ensures IsCommitKey(key) && old(inputValue) != [] ==>
        recipients == Commit(old(recipients), old(inputValue)) && inputValue == []
      ensures !(IsCommitKey(key) && old(inputValue) != []) && key == "Backspace" && old(inputValue) == [] ==>
        recipients == (if old(recipients) == [] then [] else old(recipients)[..|old(recipients)| - 1]) &&
        inputValue == []
      ensures !(IsCommitKey(key) && old(inputValue) != []) && !(key == "Backspace" && old(inputValue) == []) ==>
        recipients == old(recipients) && inputValue == old(inputValue)
    {
      if IsCommitKey(key) && inputValue != [] {
        recipients := Commit(recipients, inputValue);
        inputValue := [];
      } else if key == "Backspace" && inputValue == [] && |recipients| > 0 {
        DropLastDistinct(recipients);
        recipients := recipients[..|recipients| - 1];
      }
    }

    /** The × on chip `index`. */
    method Remove(index: int)
      requires Valid()
      modifies this
      ensures recipients == RemoveAt(old(recipients), index) && inputValue == old(inputValue) && Valid()
    {
      RemoveAtDistinct(recipients, index);
      recipients := RemoveAt(recipients, index);
    }
  }

  /** handleSend: refused (with an alert) when no field has a recipient;
    * otherwise the fields and the subject go through unchanged. */
  function SendData(to: seq<string>, cc: seq<string>, bcc: seq<string>, subject: string, body: string):
    (r: Option<Mailbox.ComposeData>)
    ensures r.None? <==> to == [] && cc == [] && bcc == []
    ensures r.Some? ==> r.value.to == to && r.value.cc == cc && r.value.bcc == bcc && r.value.subject == subject
    ensures r.Some? ==> r.value.body == body
    ensures r.Some? ==> r.value.to + r.value.cc + r.value.bcc != []
  {
    if to == [] && cc == [] && bcc == [] then None
    else Some(Mailbox.ComposeData(to, cc, bcc, subject, body))
  }

  // ------------------------------------------------------- window states

  /** The maximise button. */
  function ToggleMaximize(s: Mailbox.ComposeState): (r: Mailbox.ComposeState)
    ensures r == Mailbox.Normal || r == Mailbox.Maximized
    ensures r == Mailbox.Normal <==> s == Mailbox.Maximized
  {
    if s == Mailbox.Maximized then Mailbox.Normal else Mailbox.Maximized
  }

  /** A click on the header restores a minimised window and does nothing else. */
  function HeaderClick(s: Mailbox.ComposeState): (r: Mailbox.ComposeState)
    ensures s == Mailbox.Minimized ==> r == Mailbox.Normal
    ensures s != Mailbox.Minimized ==> r == s
  {
    if s == Mailbox.Minimized then Mailbox.Normal else s
  }

  /** Maximising twice returns an open window to where it was. */
  lemma ToggleMaximizeTwice(s: Mailbox.ComposeState)
    requires s == Mailbox.Normal || s == Mailbox.Maximized
    ensures ToggleMaximize(ToggleMaximize(s)) == s
  {
  }

  /** Minimise then a header click gives the normal window. */
  lemma MinimizeThenRestore()
    ensures HeaderClick(Mailbox.Minimized) == Mailbox.Normal
    ensures ToggleMaximize(HeaderClick(Mailbox.Minimized)) == Mailbox.Maximized
  {
  }
}
