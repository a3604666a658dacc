/**
 Profile-gated exposure of the dialog binding to scripts: the browser
 profiles the class is registered for, the members it declares, and the
 dispatch of a script's member access to the member it names.
 */
module Configuration {
  import opened Wrappers
  import opened ScriptValues
  import opened NativeDialog
  import DialogElement

  /** The simulated browser families. */
  datatype Profile = Chrome | Edge | Firefox | FirefoxEsr | InternetExplorer

  /** The profiles `HTMLDialogElement` is declared for. */
  const DialogProfiles: set<Profile> := {Chrome, Edge, Firefox, FirefoxEsr}

  datatype MemberKind = Getter | Setter | Function

  /** The Java member a script-visible member is bound to. */
  datatype Binding =
    | BindIsOpen | BindSetOpen | BindShow | BindClose
    | BindShowModal | BindGetReturnValue | BindSetReturnValue

  datatype Descriptor = Descriptor(name: string, kind: MemberKind, binding: Binding)

  /** The members the class declares, as the script sees them. Getter and
      setter names drop the Java `is`/`get`/`set` prefix. */
  const DialogDescriptors: seq<Descriptor> := [
    Descriptor("open", Getter, BindIsOpen),
    Descriptor("open", Setter, BindSetOpen),
    Descriptor("show", Function, BindShow),
    Descriptor("close", Function, BindClose),
    Descriptor("showModal", Function, BindShowModal),
    Descriptor("returnValue", Getter, BindGetReturnValue),
    Descriptor("returnValue", Setter, BindSetReturnValue)
  ]

  /** At most one descriptor per name and kind. */
  predicate UniqueDescriptors(ds: seq<Descriptor>) {
    forall i, j :: 0 <= i < j < |ds| ==> (ds[i].name, ds[i].kind) != (ds[j].name, ds[j].kind)
  }

  lemma DialogDescriptorsUnique()
    ensures UniqueDescriptors(DialogDescriptors)
  {
  }

  /** The binding of the first descriptor at or after position `from` with
      the given name and kind. */
  function Find(ds: seq<Descriptor>, name: string, kind: MemberKind, from: nat): (r: Option<Binding>)
    requires from <= |ds|
    decreases |ds| - from
  {
    if from == |ds| then None
    else if ds[from].name == name && ds[from].kind == kind then Some(ds[from].binding)
    else Find(ds, name, kind, from + 1)
  }

  /** The search finds a descriptor exactly when one with that name and kind
      exists, and what it finds is one of them. */
  lemma {:induction false} FindCorrect(ds: seq<Descriptor>, name: string, kind: MemberKind, from: nat)
    requires from <= |ds|
    ensures Find(ds, name, kind, from).None? <==>
      forall i :: from <= i < |ds| ==> ds[i].name != name || ds[i].kind != kind
    ensures Find(ds, name, kind, from).Some? ==>
      exists i :: from <= i < |ds| && ds[i] == Descriptor(name, kind, Find(ds, name, kind, from).value)
    decreases |ds| - from
  {
    if from < |ds| && !(ds[from].name == name && ds[from].kind == kind) {
      FindCorrect(ds, name, kind, from + 1);
    }
  }

  /** The member a script access names under a profile, if it is visible. */
  function Resolve(profile: Profile, name: string, kind: MemberKind): (r: Option<Binding>)
    ensures r.Some? <==> profile in DialogProfiles && exists b :: Descriptor(name, kind, b) in DialogDescriptors
    ensures r.Some? ==> Descriptor(name, kind, r.value) in DialogDescriptors
  {
    FindCorrect(DialogDescriptors, name, kind, 0);
    if profile in DialogProfiles then Find(DialogDescriptors, name, kind, 0) else None
  }

  /** A member access coming from the script engine. */
  datatype Access =
    | Get(name: string)
    | Set(name: string, value: ScriptValue)
    | Call(name: string, args: seq<ScriptValue>)

  function KindOf(a: Access): (k: MemberKind) {
    match a
    case Get(_) => Getter
    case Set(_, _) => Setter
    case Call(_, _) => Function
  }

  /** The value a Java parameter of type `Object` receives: an omitted
      argument arrives as `undefined`, extra arguments are dropped. */
  function FirstArgument(a: Access): (v: ScriptValue) {
    match a
    case Get(_) => Undefined
    case Set(_, v) => v
    case Call(_, args) => if |args| > 0 then args[0] else Undefined
  }

  /** Runs the bound member. */
  function Invoke(rt: Coercions, d: DialogView, b: Binding, v: ScriptValue): (r: DialogElement.Outcome) {
    match b
    case BindIsOpen => DialogElement.IsOpen(d)
    case BindSetOpen => DialogElement.SetOpen(rt, v)
    case BindShow => DialogElement.Show(d)
    case BindClose => DialogElement.Close(rt, v)
    case BindShowModal => DialogElement.ShowModal(d)
    case BindGetReturnValue => DialogElement.GetReturnValue(d)
    case BindSetReturnValue => DialogElement.SetReturnValue(rt, v)
  }

  /** A member access on a dialog host object: `None` when the member is not
      visible under the profile (the engine then applies its own missing-member
      rule), otherwise the outcome of the bound member. */
  function Dispatch(rt: Coercions, profile: Profile, d: DialogView, a: Access): (r: Option<DialogElement.Outcome>)
    ensures profile !in DialogProfiles ==> r.None?
  {
    match Resolve(profile, a.name, KindOf(a))
    case None => None
    case Some(b) => Some(Invoke(rt, d, b, FirstArgument(a)))
  }

  /** An access is not found exactly when the profile is not one the class is
      declared for or no declared member has its name and kind; a found access
      runs the member a matching descriptor binds, with the first argument. */
  lemma DispatchCorrect(rt: Coercions, profile: Profile, d: DialogView, a: Access)
    ensures Dispatch(rt, profile, d, a).None? <==>
      profile !in DialogProfiles || forall b :: Descriptor(a.name, KindOf(a), b) !in DialogDescriptors
    ensures Dispatch(rt, profile, d, a).Some? ==>
      exists b :: Descriptor(a.name, KindOf(a), b) in DialogDescriptors &&
        Dispatch(rt, profile, d, a).value == Invoke(rt, d, b, FirstArgument(a))
  {
  }

  /** Under a profile the class is declared for, the two property getters
      reach their Java counterparts. */
  lemma DispatchReachesGetters(rt: Coercions, profile: Profile, d: DialogView)
    requires profile in DialogProfiles
    ensures Dispatch(rt, profile, d, Get("open")) == Some(DialogElement.IsOpen(d))
    ensures Dispatch(rt, profile, d, Get("returnValue")) == Some(DialogElement.GetReturnValue(d))
  {
  }

  /** Under a profile the class is declared for, the two property setters
      reach their Java counterparts with the assigned value. */
  lemma DispatchReachesSetters(rt: Coercions, profile: Profile, d: DialogView, v: ScriptValue)
    requires profile in DialogProfiles
    ensures Dispatch(rt, profile, d, Set("open", v)) == Some(DialogElement.SetOpen(rt, v))
    ensures Dispatch(rt, profile, d, Set("returnValue", v)) == Some(DialogElement.SetReturnValue(rt, v))
  {
  }

  /** Under a profile the class is declared for, `show` and `showModal`
      reach their Java counterparts whatever arguments they are given. */
  lemma DispatchReachesShowCalls(rt: Coercions, profile: Profile, d: DialogView, args: seq<ScriptValue>)
    requires profile in DialogProfiles
    ensures Dispatch(rt, profile, d, Call("show", args)) == Some(DialogElement.Show(d))
    ensures Dispatch(rt, profile, d, Call("showModal", args)) == Some(DialogElement.ShowModal(d))
  {
  }

  /** Under a profile the class is declared for, `close` receives its first
      argument, or `undefined` when called without one. */
  lemma DispatchReachesClose(rt: Coercions, profile: Profile, d: DialogView, args: seq<ScriptValue>, v: ScriptValue)
    requires profile in DialogProfiles
    ensures Dispatch(rt, profile, d, Call("close", [v] + args)) == Some(DialogElement.Close(rt, v))
    ensures Dispatch(rt, profile, d, Call("close", [])) == Some(DialogElement.Close(rt, Undefined))
  {
  }

  /** Nothing else among the class's own members is exposed: a name and kind
      outside the descriptor table is not found under any profile. Inherited
      members are resolved by the engine and are not part of this table. */
  lemma OnlyDeclaredMembersVisible(rt: Coercions, profile: Profile, d: DialogView, a: Access)
    requires forall b :: Descriptor(a.name, KindOf(a), b) !in DialogDescriptors
    ensures Dispatch(rt, profile, d, a).None?
  {
  }

  /** A dispatched access issues native commands only when it completes,
      and only the `show` and `showModal` calls can raise. */
  lemma OnlyShowCallsRaise(rt: Coercions, profile: Profile, d: DialogView, a: Access)
    requires Dispatch(rt, profile, d, a).Some? && Dispatch(rt, profile, d, a).value.Raised?
    ensures a.Call? && (a.name == "show" || a.name == "showModal")
    ensures Dispatch(rt, profile, d, a).value.error == DialogElement.AlreadyOpen
  {
  }
}
