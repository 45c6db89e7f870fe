/**
  Lifecycle callback registry of a persisted document class.

  Every class that includes the callbacks mixin owns two ordered lists of
  method names, one run before a save and one run after it. Registration only
  appends. Running the callbacks of an operation calls every before-hook in
  registration order, then the wrapped body, then every after-hook.

  The guard around the body tests the value returned by iterating the
  before-list. That value is the list itself, which Ruby treats as true even
  when it is empty, so the guard never skips the body: it is not a veto.
  Hook return values are discarded by the iteration, so they are not modelled.
 */
module Callbacks {

  type MethodName = string

  /** The callback lists one document class owns. */
  datatype Registry = Registry(beforeSave: seq<MethodName>, afterSave: seq<MethodName>)

  /** Which of the two lists an invocation of the runner reads. */
  datatype Hook = Before | After

  /** One observable step while the callbacks of a save run. */
  datatype Event = Call(name: MethodName) | Body

  /** The Ruby values that matter to the guard: `nil`, `false`, or an array of hook names. */
  datatype Value = Nil | False | HookArray(names: seq<MethodName>)

  /** Ruby truthiness: everything except `nil` and `false` is true. */
  predicate Truthy(v: Value)
  {
    !v.Nil? && !v.False?
  }

  /** The trace and the return value of one runner call. */
  datatype CallbackRun = CallbackRun(trace: seq<Event>, result: Value)

  /** The state a class has right after it includes the mixin. */
  function Included(): (r: Registry)
    ensures r.beforeSave == [] && r.afterSave == []
    ensures RunCallbacks(r).trace == [Body]
  {
    Registry([], [])
  }

  /** `before_save m`: `m` goes at the end of the before-list; the after-list is untouched. */
  function BeforeSave(reg: Registry, m: MethodName): (r: Registry)
    ensures |r.beforeSave| == |reg.beforeSave| + 1
    ensures r.beforeSave[..|reg.beforeSave|] == reg.beforeSave
    ensures r.beforeSave[|reg.beforeSave|] == m
    ensures r.afterSave == reg.afterSave
  {
    reg.(beforeSave := reg.beforeSave + [m])
  }

  /** `after_save m`: `m` goes at the end of the after-list; the before-list is untouched. */
  function AfterSave(reg: Registry, m: MethodName): (r: Registry)
    ensures |r.afterSave| == |reg.afterSave| + 1
    ensures r.afterSave[..|reg.afterSave|] == reg.afterSave
    ensures r.afterSave[|reg.afterSave|] == m
    ensures r.beforeSave == reg.beforeSave
  {
    reg.(afterSave := reg.afterSave + [m])
  }

  /** The list named `"#{hook}_save_callbacks"`. */
  function HookList(reg: Registry, hook: Hook): seq<MethodName>
  {
    match hook
    case Before => reg.beforeSave
    case After => reg.afterSave
  }

  /** The calls made by iterating `names` and sending each one to the instance. */
  function Calls(names: seq<MethodName>): (r: seq<Event>)
    ensures |r| == |names|
    ensures forall i :: 0 <= i < |names| ==> r[i] == Call(names[i])
  {
    if names == [] then [] else [Call(names[0])] + Calls(names[1..])
  }

  /** `run_callback(hook, 'save')`: call every hook of the list once, in order; return the list. */
  function RunCallback(reg: Registry, hook: Hook): (r: CallbackRun)
    ensures |r.trace| == |HookList(reg, hook)|
    ensures forall i :: 0 <= i < |r.trace| ==> r.trace[i] == Call(HookList(reg, hook)[i])
    ensures Truthy(r.result)
  {
    var names := HookList(reg, hook);
    CallbackRun(Calls(names), HookArray(names))
  }

  /** `run_callbacks('save') { body }`: before-hooks, the guarded body, after-hooks. */
  function RunCallbacks(reg: Registry): (r: CallbackRun)
    ensures |r.trace| == |reg.beforeSave| + 1 + |reg.afterSave|
    ensures forall i :: 0 <= i < |reg.beforeSave| ==> r.trace[i] == Call(reg.beforeSave[i])
    ensures r.trace[|reg.beforeSave|] == Body
    ensures forall i :: 0 <= i < |reg.afterSave| ==>
              r.trace[|reg.beforeSave| + 1 + i] == Call(reg.afterSave[i])
    ensures r.result == HookArray(reg.afterSave)
  {
    var before := RunCallback(reg, Before);
    var body := if Truthy(before.result) then [Body] else [];
    var after := RunCallback(reg, After);
    CallbackRun(before.trace + body + after.trace, after.result)
  }

  /** Iterating a list never produces a body event. */
  lemma {:induction false} CallsHaveNoBody(names: seq<MethodName>)
    ensures multiset(Calls(names))[Body] == 0
  {
    if names != [] {
      CallsHaveNoBody(names[1..]);
      assert Calls(names) == [Call(names[0])] + Calls(names[1..]);
    }
  }

  /** Each registration of a name yields exactly one call of it; duplicates are called again. */
  lemma {:induction false} CallsCountRegistrations(names: seq<MethodName>, m: MethodName)
    ensures multiset(Calls(names))[Call(m)] == multiset(names)[m]
  {
    if names != [] {
      CallsCountRegistrations(names[1..], m);
      assert Calls(names) == [Call(names[0])] + Calls(names[1..]);
      assert names == [names[0]] + names[1..];
    }
  }

  /** The body runs exactly once, whatever hooks are registered, even with no before-hooks. */
  lemma BodyRunsExactlyOnce(reg: Registry)
    ensures multiset(RunCallbacks(reg).trace)[Body] == 1
  {
    CallsHaveNoBody(reg.beforeSave);
    CallsHaveNoBody(reg.afterSave);
  }

  /**
    Every registered hook is called once per registration: the number of calls
    of `m` in a save equals the number of times `m` was registered before or after.
   */
  lemma HooksCalledOncePerRegistration(reg: Registry, m: MethodName)
    ensures multiset(RunCallbacks(reg).trace)[Call(m)]
            == multiset(reg.beforeSave)[m] + multiset(reg.afterSave)[m]
  {
    CallsCountRegistrations(reg.beforeSave, m);
    CallsCountRegistrations(reg.afterSave, m);
  }

  /** Registering a before-hook inserts exactly its call just ahead of the body; nothing else moves. */
  lemma BeforeSaveInsertsAheadOfBody(reg: Registry, m: MethodName)
    ensures var t := RunCallbacks(reg).trace;
            RunCallbacks(BeforeSave(reg, m)).trace
            == t[..|reg.beforeSave|] + [Call(m)] + t[|reg.beforeSave|..]
  {
    var t := RunCallbacks(reg).trace;
    var t' := RunCallbacks(BeforeSave(reg, m)).trace;
    var n := |reg.beforeSave|;
    var u := t[..n] + [Call(m)] + t[n..];
    assert |t'| == |u|;
    forall i | 0 <= i < |t'|
      ensures t'[i] == u[i]
    {
      if i < n {
        assert t'[i] == Call(reg.beforeSave[i]);
      } else if i > n + 1 {
        assert t'[i] == Call(reg.afterSave[i - n - 2]);
        assert u[i] == t[i - 1];
      }
    }
  }

  /** Registering an after-hook appends exactly its call to the end of the trace. */
  lemma AfterSaveAppendsToTrace(reg: Registry, m: MethodName)
    ensures RunCallbacks(AfterSave(reg, m)).trace == RunCallbacks(reg).trace + [Call(m)]
  {
    var t := RunCallbacks(reg).trace;
    var t' := RunCallbacks(AfterSave(reg, m)).trace;
    var n := |reg.beforeSave|;
    assert |t'| == |t| + 1;
    forall i | 0 <= i < |t'|
      ensures t'[i] == (t + [Call(m)])[i]
    {
      if i > n {
        assert t'[i] == Call(AfterSave(reg, m).afterSave[i - n - 1]);
      }
    }
  }
}
