/**
 The script runtime (Rhino) as the dialog binding sees it: opaque script
 values with the two distinguished sentinels `null` and `undefined`, the
 runtime's boolean and string coercions, and the runtime error that
 `Context.reportRuntimeError` produces.
 */
module ScriptValues {

  /** A value handed to a host object by the script engine. Every value that
      is neither `null` nor `undefined` (numbers, strings, objects, ...) is an
      `Other`, identified only by an opaque handle. */
  datatype ScriptValue = Null | Undefined | Other(handle: nat)

  /** The test `v == null || Undefined.isUndefined(v)` of the binding. */
  predicate IsNullOrUndefined(v: ScriptValue) {
    v.Null? || v.Undefined?
  }

  /** The runtime's `ScriptRuntime.toBoolean` and `ScriptRuntime.toString`.
      They are total and never fail; their algorithms belong to the runtime,
      so the model quantifies over every pair of such functions. */
  datatype Coercions = Coercions(toBoolean: ScriptValue -> bool, toString: ScriptValue -> string)

  /** What ECMAScript's ToBoolean and ToString (section 7.1 of ECMA-262)
      yield on the two sentinels. Only used to exhibit consequences of the
      binding under the runtime's usual behaviour; no operation assumes it. */
  predicate SentinelsAsEcmaScript(rt: Coercions) {
    && rt.toString(Null) == "null"
    && rt.toString(Undefined) == "undefined"
    && !rt.toBoolean(Null)
    && !rt.toBoolean(Undefined)
  }

  /** A script-visible error carrying a single message, as built by
      `Context.reportRuntimeError`. */
  datatype RuntimeError = RuntimeError(message: string)
}
