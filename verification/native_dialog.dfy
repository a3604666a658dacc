/**
 The native `HtmlDialog` DOM node, seen only through its accessor contract.
 Its readable flags are an input record; its mutators are recorded as
 commands, because how they change the node is not part of this model.
 */
module NativeDialog {
  import opened Wrappers

  /** What `isOpen()`, `isModal()` and `getReturnValue()` answer right now. */
  datatype DialogView = DialogView(open: bool, modal: bool, returnValue: string)

  /** One call the binding issues on the native node, with its argument. */
  datatype Command =
    | Show
    | ShowModal
    | Close(returnValue: string)
    | SetOpen(open: bool)
    | SetReturnValue(returnValue: string)

  /** The dialog lifecycle states of the HTML dialog element. */
  datatype DialogState = Closed | OpenModeless | OpenModal

  /** The lifecycle state a view stands for; the modal flag of a closed
      dialog carries no meaning. */
  function StateOf(d: DialogView): (s: DialogState)
    ensures s == Closed <==> !d.open
    ensures s == OpenModal <==> d.open && d.modal
  {
    if !d.open then Closed
    else if d.modal then OpenModal
    else OpenModeless
  }

  /** The string a command hands to the native node, if it carries one. */
  function StringArgument(c: Command): (r: Option<string>) {
    match c
    case Close(s) => Some(s)
    case SetReturnValue(s) => Some(s)
    case _ => None
  }

  /** The last string handed to the native node by a command sequence:
      whatever the node does with the strings it receives, this is the one it
      received last. */
  function LastStringArgument(cmds: seq<Command>): (r: Option<string>)
    ensures r.None? <==> forall i :: 0 <= i < |cmds| ==> StringArgument(cmds[i]).None?
    ensures r.Some? ==>
      exists i :: 0 <= i < |cmds| && StringArgument(cmds[i]) == r &&
        forall j :: i < j < |cmds| ==> StringArgument(cmds[j]).None?
  {
    if |cmds| == 0 then None
    else
      var later := LastStringArgument(cmds[1..]);
      if later.Some? then
        assert forall i :: 0 <= i < |cmds| - 1 ==> cmds[1..][i] == cmds[i + 1];
        later
      else
        assert forall i :: 0 < i < |cmds| ==> cmds[1..][i - 1] == cmds[i];
        StringArgument(cmds[0])
  }

  /** Appending commands: the later block wins as soon as it passes a string. */
  lemma {:induction false} LastStringArgumentAppend(a: seq<Command>, b: seq<Command>)
    ensures LastStringArgument(a + b) ==
      if LastStringArgument(b).Some? then LastStringArgument(b) else LastStringArgument(a)
  {
    if |a| == 0 {
      assert a + b == b;
    } else {
      assert (a + b)[1..] == a[1..] + b;
      LastStringArgumentAppend(a[1..], b);
    }
  }
}
