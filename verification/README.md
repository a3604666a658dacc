# HTMLDialogElement binding — a Dafny model

HtmlUnit exposes each DOM node to its embedded JavaScript engine (Rhino) as a
host object. `HTMLDialogElement` is the host object of the HTML `<dialog>`
element. It wraps a native `HtmlDialog`:

- `show()` and `showModal()` read the native `isOpen` and `isModal` flags.
  They then either raise the runtime error
  `InvalidStateError: Dialog is already open.` or issue one native `show()`
  or `showModal()`.
- The `open` and `returnValue` setters and `close(v)` coerce their argument.
  They then issue native mutators (`setOpen(b)`, `setReturnValue(s)`,
  `close(s)`).
- The `open` and `returnValue` getters return the native values.

The class is registered only for some browser profiles.

The model is functional:

- `script_values.dfy`: module `ScriptValues`. Script values are opaque, with
  distinguished `Null` and `Undefined`. The runtime's `toBoolean`/`toString`
  form a `Coercions` record of two total functions. They are a parameter, so
  every property holds for any coercion algorithm that returns normally.
- `wrappers.dfy`: module `Wrappers`, holding `Option`.
- `native_dialog.dfy`: module `NativeDialog`. The native node is a read-only
  `DialogView` (`open`, `modal`, `returnValue`) plus the `Command`s the binding
  issues on it. `StateOf` maps a view to the lifecycle state `Closed`,
  `OpenModeless` or `OpenModal`. `LastStringArgument` gives the last string
  a command sequence passes to the node.
- `dialog_element.dfy`: module `DialogElement`. One function per Java member.
  Each returns `Raised(error)` or `Completed(value, commands)`, where
  `commands` are the native calls in the order they are issued. The lemmas
  relate the members to the lifecycle guards and to each other.
- `configuration.dfy`: module `Configuration`. It holds the profile set of the
  class, the table of script-visible members (name, kind, bound Java member),
  profile-gated resolution, and dispatch of a script access (get, set or call)
  to the bound member.

The code differs from the usual description of the dialog lifecycle. The
model follows the code:

- `close(v)` with `v` null or undefined does not return early. It calls the
  native `close("")` and then `close(toString(v))`. So the last string passed
  to the native node is the coerced sentinel, `"null"` or `"undefined"` under
  ECMAScript coercion, not `""`. What the native node then does with the
  strings it receives is outside the model.
- Assigning `returnValue` does the same. It passes `""` and then
  `toString(v)`.

`FallThroughPassesSentinelText` states both consequences.

## Model

| member | source | states |
|---|---|---|
| DialogElement.IsOpen | src/main/java/org/htmlunit/javascript/host/html/HTMLDialogElement.java:51-54 | the `open` getter issues no command and answers true exactly when the dialog is in an open lifecycle state (modeless or modal) |
| DialogElement.SetOpen | src/main/java/org/htmlunit/javascript/host/html/HTMLDialogElement.java:60-65 | the `open` setter raises no error of its own and issues exactly one native `setOpen`, whose flag is the truthiness of the assigned value |
| DialogElement.Show | src/main/java/org/htmlunit/javascript/host/html/HTMLDialogElement.java:70-81 | `show()` raises "InvalidStateError: Dialog is already open." exactly when the dialog is open and modal, issuing nothing; otherwise it issues exactly one native `show()` and nothing else |
| DialogElement.Close | src/main/java/org/htmlunit/javascript/host/html/HTMLDialogElement.java:87-94 | `close(v)` never raises a state error; for v not null/undefined it issues one `close(toString(v))`; for null/undefined it issues `close("")` then `close(toString(v))`; either way the last string passed is `toString(v)` |
| DialogElement.ShowModal | src/main/java/org/htmlunit/javascript/host/html/HTMLDialogElement.java:99-110 | `showModal()` raises the same error exactly when the dialog is open and not modal, issuing nothing; otherwise it issues exactly one native `showModal()` |
| DialogElement.GetReturnValue | src/main/java/org/htmlunit/javascript/host/html/HTMLDialogElement.java:115-118 | the `returnValue` getter issues no command and returns the native return value unchanged |
| DialogElement.SetReturnValue | src/main/java/org/htmlunit/javascript/host/html/HTMLDialogElement.java:124-131 | the `returnValue` setter never raises a state error; it has the same fall-through as `close`: `setReturnValue("")` then `setReturnValue(toString(v))` for null/undefined, only the latter otherwise |
| DialogElement.GuardsFollowLifecycle | src/main/java/org/htmlunit/javascript/host/html/HTMLDialogElement.java:74-105 | each guard fires exactly when the lifecycle forbids the transition: `show` only from open-modal, `showModal` only from open-modeless |
| DialogElement.GuardsNeverBothFire | src/main/java/org/htmlunit/javascript/host/html/HTMLDialogElement.java:74-105 | the two guards never both fire; from a closed dialog neither raises; a repeat call in the current mode is accepted; only a call switching to the other mode is refused |
| DialogElement.ModalFlagIgnoredWhenClosed | src/main/java/org/htmlunit/javascript/host/html/HTMLDialogElement.java:74-107 | the modal flag is consulted only inside the open branch: for a closed dialog the outcome of `show`/`showModal` does not depend on it |
| DialogElement.LastWriteWins | src/main/java/org/htmlunit/javascript/host/html/HTMLDialogElement.java:88-130 | after any earlier commands, `close(v)` or `returnValue = v` leaves `toString(v)` as the last string the native node received |
| DialogElement.FallThroughPassesSentinelText | src/main/java/org/htmlunit/javascript/host/html/HTMLDialogElement.java:89-130 | with ECMAScript coercion of the sentinels, `close(null)`/`close(undefined)` and assigning null/undefined to `returnValue` end by passing "null"/"undefined", after a first call with "" |
| DialogElement.SetOpenOnlyTruthiness | src/main/java/org/htmlunit/javascript/host/html/HTMLDialogElement.java:62-64 | the `open` setter depends on the assigned value only through its boolean coercion |
| Configuration.Resolve | src/main/java/org/htmlunit/javascript/host/html/HTMLDialogElement.java:38 | a member is found exactly when the profile is one of CHROME, EDGE, FF, FF_ESR and the class declares a member of that name and kind |
| Configuration.Dispatch | src/main/java/org/htmlunit/javascript/host/html/HTMLDialogElement.java:38 | under a profile other than CHROME, EDGE, FF, FF_ESR every access is not found |
| Configuration.DispatchCorrect | src/main/java/org/htmlunit/javascript/host/html/HTMLDialogElement.java:38-131 | an access is not found exactly when the profile is not declared or no declared member has its name and kind; a found access runs the Java member a matching descriptor binds, with the first argument |
| Configuration.DialogDescriptorsUnique | src/main/java/org/htmlunit/javascript/host/html/HTMLDialogElement.java:51-125 | the declared members have at most one descriptor per name and kind (`open` and `returnValue` each have one getter and one setter) |
| Configuration.DispatchReachesGetters | src/main/java/org/htmlunit/javascript/host/html/HTMLDialogElement.java:51-117 | reading `open` or `returnValue` reaches `isOpen()` or `getReturnValue()` |
| Configuration.DispatchReachesSetters | src/main/java/org/htmlunit/javascript/host/html/HTMLDialogElement.java:60-125 | assigning `open` or `returnValue` reaches `setOpen` or `setReturnValue` with the assigned value |
| Configuration.DispatchReachesShowCalls | src/main/java/org/htmlunit/javascript/host/html/HTMLDialogElement.java:70-100 | calling `show` or `showModal` reaches the Java member whatever arguments are given |
| Configuration.DispatchReachesClose | src/main/java/org/htmlunit/javascript/host/html/HTMLDialogElement.java:87-88 | calling `close` passes its first argument, or `undefined` when there is none |
| Configuration.OnlyDeclaredMembersVisible | src/main/java/org/htmlunit/javascript/host/html/HTMLDialogElement.java:38-131 | a name and kind the class does not declare is not found under any profile |
| Configuration.OnlyShowCallsRaise | src/main/java/org/htmlunit/javascript/host/html/HTMLDialogElement.java:76-105 | the only accesses that raise an error of the binding's own are calls of `show` and `showModal`, and the error raised is always "InvalidStateError: Dialog is already open." |

## Left out

- The native `HtmlDialog` is not part of this model. How its `show`, `showModal`, `close`, `setOpen` and `setReturnValue` change `open`, `modal` and `returnValue` is unknown here. The model records the commands issued instead of their effects.
- Rhino's `ScriptRuntime.toBoolean` and `toString` are not part of this model. They are parameters. Number-to-string conversion involves floating point.
- The coercions are assumed to return normally and to run no script code. Rhino's `toString` throws on a Symbol. On an object it calls the script's own `toString`/`valueOf`, which can throw or touch the dialog again before the native `close(s)` or `setReturnValue(s)`.
- DialogElement.SetOpen: "never raises" means no error raised by the binding itself; an error thrown by the coercion is not modelled, for the reason above.
- DialogElement.Close: "never raises" means no state error; an error thrown by `toString(v)`, or script code it runs, is not modelled.
- DialogElement.SetReturnValue: "never raises" means no state error; an error thrown by `toString(v)`, or script code it runs, is not modelled.
- Configuration.OnlyShowCallsRaise: covers only errors the binding raises itself, not errors thrown from inside a coercion.
- `getDomNodeOrDie` failing on a node without a DOM counterpart is left out. The model assumes the host object is bound to a live dialog node.
- How `Context.reportRuntimeError` builds the exception object is left out. The model keeps only its message.
- The `SupportedBrowser` enumeration is not part of this model. The profiles Chrome, Edge, Firefox and Firefox ESR come from the class declaration. The model adds InternetExplorer as an assumption, to stand for any profile the class is not declared for.
- Annotation and reflection registration is left out beyond the static member table. That includes the inherited `HTMLElement` members and the constructor.
- The Rhino `Function` behaviour (`apply`, `bind`, `call`, `eval`, `toString`) exercised by the page-load tests belongs to the script engine and is not modelled.
- Concurrency is left out. Each session runs scripts one at a time.
- Properties about the dialog's state after a call cannot be stated, because the native effects are unknown. Examples: repeated `close()` leaving the dialog closed, or a `showModal`-then-`show` scenario seen through later reads. The model states them per call, over whatever view the native node presents.
