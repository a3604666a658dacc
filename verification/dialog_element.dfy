/**
 The script-facing `HTMLDialogElement` host object. `show` and `showModal`
 read the native dialog's open and modal flags, then either raise a runtime
 error or issue one native call. The setters and `close` coerce their
 argument and issue native mutators. The getters return the native values.
 */
module DialogElement {
  import opened Wrappers
  import opened ScriptValues
  import opened NativeDialog

  /** The one error the binding raises itself. */
  const AlreadyOpen := RuntimeError("InvalidStateError: Dialog is already open.")

  /** What a member hands back to the script engine. */
  datatype HostValue = Void | Boolean(b: bool) | Text(s: string)

  /** The effect of one member invocation: it returns a value after issuing
      native commands in order, or it raises before issuing any. */
  datatype Outcome =
    | Completed(value: HostValue, commands: seq<Command>)
    | Raised(error: RuntimeError)

  /** The native commands an outcome stands for. */
  function Issued(o: Outcome): (cmds: seq<Command>) {
    if o.Completed? then o.commands else []
  }

  /** Guard of `show()` in the HTML dialog lifecycle: a modeless display is
      refused only while the dialog is open as a modal one. */
  predicate ShowPermitted(s: DialogState) {
    s != OpenModal
  }

  /** Guard of `showModal()`: refused only while the dialog is open modelessly. */
  predicate ShowModalPermitted(s: DialogState) {
    s != OpenModeless
  }

  /** Getter of the `open` property. */
  function IsOpen(d: DialogView): (r: Outcome)
    ensures r.Completed? && Issued(r) == []
    ensures r.value == Boolean(StateOf(d) != Closed)
  {
    Completed(Boolean(d.open), [])
  }

  /** Setter of the `open` property. */
  function SetOpen(rt: Coercions, v: ScriptValue): (r: Outcome)
    ensures r.Completed? && r.value == Void
    ensures |Issued(r)| == 1 && Issued(r)[0].SetOpen?
    ensures Issued(r)[0].open <==> rt.toBoolean(v)
  {
    Completed(Void, [Command.SetOpen(rt.toBoolean(v))])
  }

  /** `show()`: displays the dialog modelessly. */
  function Show(d: DialogView): (r: Outcome)
    ensures r.Raised? <==> d.open && d.modal
    ensures r.Raised? ==> r.error == AlreadyOpen && Issued(r) == []
    ensures r.Completed? ==> r.value == Void && Issued(r) == [Command.Show]
  {
    if d.open then
      if d.modal then Raised(AlreadyOpen) else Completed(Void, [Command.Show])
    else
      Completed(Void, [Command.Show])
  }

  /** `close(returnValue)`. A null or undefined argument first closes with
      the empty string; the call with the stringified argument follows in
      every case, since the null branch does not return early. */
  function Close(rt: Coercions, v: ScriptValue): (r: Outcome)
    ensures r.Completed? && r.value == Void
    ensures !IsNullOrUndefined(v) ==> Issued(r) == [Command.Close(rt.toString(v))]
    ensures IsNullOrUndefined(v) ==> Issued(r) == [Command.Close(""), Command.Close(rt.toString(v))]
    ensures LastStringArgument(Issued(r)) == Some(rt.toString(v))
  {
    var first := if IsNullOrUndefined(v) then [Command.Close("")] else [];
    Completed(Void, first + [Command.Close(rt.toString(v))])
  }

  /** `showModal()`: displays the dialog as a modal one. */
  function ShowModal(d: DialogView): (r: Outcome)
    ensures r.Raised? <==> d.open && !d.modal
    ensures r.Raised? ==> r.error == AlreadyOpen && Issued(r) == []
    ensures r.Completed? ==> r.value == Void && Issued(r) == [Command.ShowModal]
  {
    if d.open then
      if !d.modal then Raised(AlreadyOpen) else Completed(Void, [Command.ShowModal])
    else
      Completed(Void, [Command.ShowModal])
  }

  /** Getter of the `returnValue` property. */
  function GetReturnValue(d: DialogView): (r: Outcome)
    ensures r.Completed? && Issued(r) == []
    ensures r.value.Text? && r.value.s == d.returnValue
  {
    Completed(Text(d.returnValue), [])
  }

  /** Setter of the `returnValue` property; the same fall-through as `close`. */
  function SetReturnValue(rt: Coercions, v: ScriptValue): (r: Outcome)
    ensures r.Completed? && r.value == Void
    ensures !IsNullOrUndefined(v) ==> Issued(r) == [Command.SetReturnValue(rt.toString(v))]
    ensures IsNullOrUndefined(v) ==>
      Issued(r) == [Command.SetReturnValue(""), Command.SetReturnValue(rt.toString(v))]
    ensures LastStringArgument(Issued(r)) == Some(rt.toString(v))
  {
    var first := if IsNullOrUndefined(v) then [Command.SetReturnValue("")] else [];
    Completed(Void, first + [Command.SetReturnValue(rt.toString(v))])
  }

  // Properties relating the members to the dialog lifecycle and to each other.

  /** Each guard fires exactly when the lifecycle forbids the transition. */
  lemma GuardsFollowLifecycle(d: DialogView)
    ensures Show(d).Raised? <==> !ShowPermitted(StateOf(d))
    ensures ShowModal(d).Raised? <==> !ShowModalPermitted(StateOf(d))
  {
  }

  /** The two guards never fire together: a closed dialog accepts both calls,
      a repeat in the current mode is accepted, and only a switch to the
      other mode is refused. */
  lemma GuardsNeverBothFire(d: DialogView)
    ensures !(Show(d).Raised? && ShowModal(d).Raised?)
    ensures StateOf(d) == Closed ==> Show(d).Completed? && ShowModal(d).Completed?
    ensures StateOf(d) == OpenModeless ==> Show(d).Completed? && ShowModal(d).Raised?
    ensures StateOf(d) == OpenModal ==> ShowModal(d).Completed? && Show(d).Raised?
  {
  }

  /** The modal flag is consulted only when the dialog is open. */
  lemma ModalFlagIgnoredWhenClosed(d: DialogView, modal: bool)
    requires !d.open
    ensures Show(d) == Show(d.(modal := modal))
    ensures ShowModal(d) == ShowModal(d.(modal := modal))
  {
  }

  /** Whatever was issued before, after `close(v)` or `returnValue = v` the
      last string the native node received is the coerced argument, never the
      empty string of the null branch (unless the coercion itself yields it). */
  lemma LastWriteWins(rt: Coercions, history: seq<Command>, v: ScriptValue)
    ensures LastStringArgument(history + Issued(Close(rt, v))) == Some(rt.toString(v))
    ensures LastStringArgument(history + Issued(SetReturnValue(rt, v))) == Some(rt.toString(v))
  {
    LastStringArgumentAppend(history, Issued(Close(rt, v)));
    LastStringArgumentAppend(history, Issued(SetReturnValue(rt, v)));
  }

  /** Under the usual ECMAScript coercion of the sentinels, `close(null)`
      and `returnValue = undefined` end by passing "null" and "undefined",
      not the empty string. */
  lemma FallThroughPassesSentinelText(rt: Coercions)
    requires SentinelsAsEcmaScript(rt)
    ensures LastStringArgument(Issued(Close(rt, Null))) == Some("null")
    ensures LastStringArgument(Issued(Close(rt, Undefined))) == Some("undefined")
    ensures LastStringArgument(Issued(SetReturnValue(rt, Null))) == Some("null")
    ensures LastStringArgument(Issued(SetReturnValue(rt, Undefined))) == Some("undefined")
    ensures Issued(Close(rt, Null))[0] == Command.Close("")
    ensures Issued(Close(rt, Undefined))[0] == Command.Close("")
    ensures Issued(SetReturnValue(rt, Null))[0] == Command.SetReturnValue("")
    ensures Issued(SetReturnValue(rt, Undefined))[0] == Command.SetReturnValue("")
  {
  }

  /** `open = v` depends on `v` only through its truthiness. */
  lemma SetOpenOnlyTruthiness(rt: Coercions, v: ScriptValue, w: ScriptValue)
    requires rt.toBoolean(v) == rt.toBoolean(w)
    ensures SetOpen(rt, v) == SetOpen(rt, w)
  {
  }
}
