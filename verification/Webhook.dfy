/**
 The webhook's patch lists for the proxy container's environment and for the pod's
 containers: what they do once applied.
 */
module Webhook {
  import opened JsonPatch

  datatype EnvVar = Plain(name: string, value: string) | Ref(name: string, path: string)

  datatype Setting = Setting(name: string, value: string)

  /** The `env` member of the container: absent, a list, or lost to a patch that did not apply. */
  datatype Doc = Absent | Env(vars: seq<EnvVar>) | Broken

  datatype Patch =
    | CreateList
    | Append(v: EnvVar)
    | Replace(i: nat, v: EnvVar)
    | ReplaceValue(i: nat, value: string)
    | Remove(i: nat)

  function Apply(d: Doc, p: Patch): Doc {
    match p
    case CreateList => if d.Broken? then Broken else Env([])
    case Append(v) => if d.Env? then Env(d.vars + [v]) else Broken
    case Replace(i, v) => if d.Env? && i < |d.vars| then Env(d.vars[i := v]) else Broken
    case ReplaceValue(i, x) =>
      if d.Env? && i < |d.vars| && d.vars[i].Plain? then Env(d.vars[i := d.vars[i].(value := x)]) else Broken
    case Remove(i) => if d.Env? && i < |d.vars| then Env(RemoveAt(d.vars, i)) else Broken
  }

  function ApplyAll(d: Doc, ps: seq<Patch>): Doc {
    if ps == [] then d else Apply(ApplyAll(d, ps[..|ps| - 1]), ps[|ps| - 1])
  }

  function Vars(d: Doc): seq<EnvVar> {
    if d.Env? then d.vars else []
  }

  function FirstFrom(env: seq<EnvVar>, name: string, from: nat): (i: nat)
    requires from <= |env|
    ensures from <= i <= |env|
    ensures i < |env| ==> env[i].name == name
    ensures forall j :: from <= j < i ==> env[j].name != name
    decreases |env| - from
  {
    if from == |env| || env[from].name == name then from else FirstFrom(env, name, from + 1)
  }

  /** The first variable of that name, or the length of the list. */
  function First(env: seq<EnvVar>, name: string): (i: nat)
    ensures i <= |env|
    ensures i < |env| ==> env[i].name == name
    ensures forall j :: 0 <= j < i ==> env[j].name != name
  {
    FirstFrom(env, name, 0)
  }

  const LIBRARY_PATH := "LD_LIBRARY_PATH"
  const CONCURRENCY_CALC := "CONCURRENCY_CALC"
  const CONFIG_PORT := "CONFIG_PORT"
  const CONCURRENCY_NUMBER := "CONCURRENCY_NUMBER"
  const UID := "OPENAPPSEC_UID"

  /** The webhook's own settings; an empty one is switched off. */
  datatype Config = Config(libraryPath: string, concurrencyCalc: string, configPort: string, concurrencyNumber: string)

  function IfSet(name: string, value: string): seq<Setting> {
    if value != "" then [Setting(name, value)] else []
  }

  /** What the injection branch of mutate sets, in the order of its calls. */
  function InjectedSettings(c: Config): seq<Setting> {
    IfSet(LIBRARY_PATH, c.libraryPath) + IfSet(CONCURRENCY_CALC, c.concurrencyCalc)
    + IfSet(CONFIG_PORT, c.configPort) + IfSet(CONCURRENCY_NUMBER, c.concurrencyNumber)
  }

  function IfNamed(name: string, value: string): seq<string> {
    if value != "" then [name] else []
  }

  /** What the removal branch of mutate removes, in the order of its calls. */
  function RemovedNames(c: Config): seq<string> {
    IfNamed(CONCURRENCY_NUMBER, c.concurrencyNumber) + IfNamed(CONFIG_PORT, c.configPort)
    + IfNamed(CONCURRENCY_CALC, c.concurrencyCalc) + IfNamed(LIBRARY_PATH, c.libraryPath)
  }

  /** Python's `part in text`, trying the positions from i on. */
  predicate ContainsFrom(text: string, part: string, i: nat)
    decreases |text| - i
  {
    i + |part| <= |text| && (text[i..i + |part|] == part || ContainsFrom(text, part, i + 1))
  }

  predicate Contains(text: string, part: string) {
    ContainsFrom(text, part, 0)
  }

  function Merged(name: string, old': string, value: string): string {
    if name != LIBRARY_PATH then value
    else if Contains(old', value) then old'
    else old' + ":" + value
  }

  // ---------------------------------------------------------------- the helpers, as they append

  /** add_env_variable_value_from, for the document as received. */
  function EmitUid(orig: seq<EnvVar>, path: string): Patch {
    var i := First(orig, UID);
    if i < |orig| then Replace(i, Ref(UID, path)) else Append(Ref(UID, path))
  }

  /** add_env_variable; None is the KeyError on a variable that has no "value". */
  function EmitSet(orig: seq<EnvVar>, st: Setting): Option<seq<Patch>> {
    var i := First(orig, st.name);
    if i == |orig| then Some([Append(Plain(st.name, st.value))])
    else if orig[i].Ref? then None
    else if st.name == LIBRARY_PATH && Contains(orig[i].value, st.value) then Some([])
    else Some([ReplaceValue(i, Merged(st.name, orig[i].value, st.value))])
  }

  function EmitAll(orig: seq<EnvVar>, sts: seq<Setting>): Option<seq<Patch>> {
    if sts == [] then Some([])
    else
      var init := EmitAll(orig, sts[..|sts| - 1]);
      var last := EmitSet(orig, sts[|sts| - 1]);
      if init.Some? && last.Some? then Some(init.value + last.value) else None
  }

  /** The injection branch of mutate, for the proxy container. */
  function Inject(d: Doc, path: string, sts: seq<Setting>): Option<seq<Patch>> {
    var rest := EmitAll(Vars(d), sts);
    if rest.None? then None
    else Some((if d.Absent? then [CreateList] else []) + [EmitUid(Vars(d), path)] + rest.value)
  }

  /** remove_env_variable for the first k names in turn: positions in the document as received. */
  function IndicesUpTo(env: seq<EnvVar>, names: seq<string>, k: nat): seq<nat>
    requires k <= |names|
    decreases k
  {
    if k == 0 then []
    else
      var i := First(env, names[k - 1]);
      if i < |env| then IndicesUpTo(env, names, k - 1) + [i] else IndicesUpTo(env, names, k - 1)
  }

  function RemovalIndices(env: seq<EnvVar>, names: seq<string>): seq<nat> {
    IndicesUpTo(env, names, |names|)
  }

  function Removals(idxs: seq<nat>): seq<Patch> {
    seq(|idxs|, i requires 0 <= i < |idxs| => Remove(idxs[i]))
  }

  lemma {:induction false} EmitAllRaises(orig: seq<EnvVar>, sts: seq<Setting>, k: nat)
    requires k <= |sts| && EmitAll(orig, sts[..k]).None?
    ensures EmitAll(orig, sts).None?
    decreases |sts| - k
  {
    if k == |sts| {
      assert sts[..k] == sts;
    } else {
      assert sts[..k + 1][..k] == sts[..k];
      EmitAllRaises(orig, sts, k + 1);
    }
  }

  /** The injection raises iff some variable to be set is already there without a plain value. */
  lemma {:induction false} InjectionRaisesIff(orig: seq<EnvVar>, sts: seq<Setting>)
    ensures EmitAll(orig, sts).None? <==>
              exists j :: 0 <= j < |sts| && First(orig, sts[j].name) < |orig| && orig[First(orig, sts[j].name)].Ref?
  {
    if sts != [] {
      var init := sts[..|sts| - 1];
      InjectionRaisesIff(orig, init);
      if j :| 0 <= j < |sts| && First(orig, sts[j].name) < |orig| && orig[First(orig, sts[j].name)].Ref? {
        if j < |init| { assert init[j] == sts[j]; }
      }
      if EmitAll(orig, init).None? {
        var j :| 0 <= j < |init| && First(orig, init[j].name) < |orig| && orig[First(orig, init[j].name)].Ref?;
        assert sts[j] == init[j];
      } else if EmitSet(orig, sts[|sts| - 1]).None? {
        var j := |sts| - 1;
        assert First(orig, sts[j].name) < |orig| && orig[First(orig, sts[j].name)].Ref?;
      }
    }
  }

  class PatchList {
    var patches: seq<Patch>

    constructor ()
      ensures patches == []
    {
      patches := [];
    }

    method Find(env: seq<EnvVar>, name: string) returns (i: nat)
      ensures i == First(env, name)
    {
      i := 0;
      while i < |env| && env[i].name != name
        invariant 0 <= i <= |env|
        invariant First(env, name) == FirstFrom(env, name, i)
      {
        i := i + 1;
      }
    }

    method AddVariable(orig: seq<EnvVar>, st: Setting) returns (raised: bool)
      modifies this
      ensures raised <==> EmitSet(orig, st).None?
      ensures patches == if raised then old(patches) else old(patches) + EmitSet(orig, st).value
    {
      var i := Find(orig, st.name);
      if i < |orig| {
        if orig[i].Ref? {
          return true;
        }
        if st.name == LIBRARY_PATH {
          if !Contains(orig[i].value, st.value) {
            patches := patches + [ReplaceValue(i, orig[i].value + ":" + st.value)];
          }
        } else {
          patches := patches + [ReplaceValue(i, st.value)];
        }
      } else {
        patches := patches + [Append(Plain(st.name, st.value))];
      }
      return false;
    }

    /** add_env_variable for each setting in turn, up to the first that raises. */
    method AddSettings(orig: seq<EnvVar>, sts: seq<Setting>) returns (raised: bool)
      modifies this
      ensures raised <==> EmitAll(orig, sts).None?
      ensures !raised ==> patches == old(patches) + EmitAll(orig, sts).value
    {
      ghost var start := patches;
      var k := 0;
      while k < |sts|
        invariant 0 <= k <= |sts|
        invariant EmitAll(orig, sts[..k]).Some? && patches == start + EmitAll(orig, sts[..k]).value
      {
        assert sts[..k + 1][..k] == sts[..k];
        raised := AddVariable(orig, sts[k]);
        if raised {
          EmitAllRaises(orig, sts, k + 1);
          return;
        }
        k := k + 1;
      }
      assert sts[..|sts|] == sts;
      return false;
    }

    /** The injection branch of mutate, for the proxy container. */
    method AddAll(d: Doc, path: string, sts: seq<Setting>) returns (raised: bool)
      modifies this
      ensures raised <==> Inject(d, path, sts).None?
      ensures !raised ==> patches == old(patches) + Inject(d, path, sts).value
      ensures !raised && !d.Broken? && DistinctNames(sts) ==>
                exists env :: ApplyAll(d, patches[|old(patches)|..]) == Env(env) && InjectedEnv(Vars(d), path, sts, env)
    {
      var first: seq<Patch> := (if d.Absent? then [CreateList] else []) + [EmitUid(Vars(d), path)];
      patches := patches + first;
      raised := AddSettings(Vars(d), sts);
      if !raised {
        ghost var rest := EmitAll(Vars(d), sts).value;
        assert old(patches) + first + rest == old(patches) + (first + rest);
        assert patches[|old(patches)|..] == first + rest;
        if !d.Broken? && DistinctNames(sts) {
          ghost var env := InjectionShows(d, path, sts);
        }
      }
    }

    method RemoveVariables(env: seq<EnvVar>, names: seq<string>)
      modifies this
      ensures patches == old(patches) + Removals(RemovalIndices(env, names))
    {
      var k := 0;
      assert patches == old(patches) + Removals([]);
      while k < |names|
        invariant 0 <= k <= |names|
        invariant patches == old(patches) + Removals(IndicesUpTo(env, names, k))
      {
        ghost var idxs := IndicesUpTo(env, names, k);
        var i := RemoveVariable(env, names[k]);
        assert i < |env| ==> Removals(idxs + [i]) == Removals(idxs) + [Remove(i)];
        k := k + 1;
      }
    }

    /** remove_env_variable */
    method RemoveVariable(env: seq<EnvVar>, name: string) returns (i: nat)
      modifies this
      ensures i == First(env, name)
      ensures patches == if i < |env| then old(patches) + [Remove(i)] else old(patches)
    {
      i := Find(env, name);
      if i < |env| {
        patches := patches + [Remove(i)];
      }
    }
  }

  // ---------------------------------------------------------------- injection

  /** What a setting is meant to do: update the variable if it is there, else add it. */
  function Upsert(env: seq<EnvVar>, st: Setting): seq<EnvVar> {
    var i := First(env, st.name);
    if i == |env| then env + [Plain(st.name, st.value)]
    else if env[i].Ref? then env
    else env[i := Plain(st.name, Merged(st.name, env[i].value, st.value))]
  }

  function UpsertUid(env: seq<EnvVar>, path: string): seq<EnvVar> {
    var i := First(env, UID);
    if i == |env| then env + [Ref(UID, path)] else env[i := Ref(UID, path)]
  }

  function UpsertAll(env: seq<EnvVar>, sts: seq<Setting>): seq<EnvVar> {
    if sts == [] then env else Upsert(UpsertAll(env, sts[..|sts| - 1]), sts[|sts| - 1])
  }

  ghost predicate DistinctNames(sts: seq<Setting>) {
    && (forall i, j :: 0 <= i < j < |sts| ==> sts[i].name != sts[j].name)
    && (forall i :: 0 <= i < |sts| ==> sts[i].name != UID)
  }

  /** `cur` is `orig` with only the variables named in `done` touched or appended. */
  ghost predicate Extends(cur: seq<EnvVar>, orig: seq<EnvVar>, done: set<string>) {
    && |cur| >= |orig|
    && (forall i :: 0 <= i < |orig| ==> cur[i].name == orig[i].name && (orig[i].name !in done ==> cur[i] == orig[i]))
    && (forall i :: |orig| <= i < |cur| ==> cur[i].name in done)
  }

  lemma {:induction false} ApplyConcat(d: Doc, ps: seq<Patch>, qs: seq<Patch>)
    ensures ApplyAll(d, ps + qs) == ApplyAll(ApplyAll(d, ps), qs)
    decreases |qs|
  {
    if qs == [] {
      assert ps + qs == ps;
    } else {
      var init := qs[..|qs| - 1];
      ApplyConcat(d, ps, init);
      assert (ps + qs)[..|ps| + |qs| - 1] == ps + init;
    }
  }

  lemma SetIsUpsert(cur: seq<EnvVar>, orig: seq<EnvVar>, done: set<string>, st: Setting)
    requires Extends(cur, orig, done) && st.name !in done && EmitSet(orig, st).Some?
    ensures ApplyAll(Env(cur), EmitSet(orig, st).value) == Env(Upsert(cur, st))
    ensures Extends(Upsert(cur, st), orig, done + {st.name})
  {
  }

  lemma ApplyOne(d: Doc, p: Patch)
    ensures ApplyAll(d, [p]) == Apply(d, p)
  {
  }

  function Names(sts: seq<Setting>): set<string> {
    set i | 0 <= i < |sts| :: sts[i].name
  }

  lemma NamesSnoc(sts: seq<Setting>)
    requires sts != [] && DistinctNames(sts)
    ensures var init := sts[..|sts| - 1]; var name := sts[|sts| - 1].name;
            && {UID} + Names(sts) == {UID} + Names(init) + {name}
            && name !in {UID} + Names(init)
            && DistinctNames(init)
  {
  }

  lemma {:induction false} SetsAreUpserts(cur: seq<EnvVar>, orig: seq<EnvVar>, sts: seq<Setting>)
    requires Extends(cur, orig, {UID}) && DistinctNames(sts) && EmitAll(orig, sts).Some?
    ensures ApplyAll(Env(cur), EmitAll(orig, sts).value) == Env(UpsertAll(cur, sts))
    ensures Extends(UpsertAll(cur, sts), orig, {UID} + Names(sts))
  {
    if sts != [] {
      var init := sts[..|sts| - 1];
      var st := sts[|sts| - 1];
      SetsAreUpserts(cur, orig, init);
      NamesSnoc(sts);
      SetIsUpsert(UpsertAll(cur, init), orig, {UID} + Names(init), st);
      ApplyConcat(Env(cur), EmitAll(orig, init).value, EmitSet(orig, st).value);
    }
  }

  /**
   Injection: although every index is computed against the document as received, applying the patches in
   sequence updates or adds each variable in turn, whatever the list held and even if there was none.
   */
  lemma InjectionIsUpsert(d: Doc, path: string, sts: seq<Setting>)
    requires !d.Broken? && DistinctNames(sts) && Inject(d, path, sts).Some?
    ensures ApplyAll(d, Inject(d, path, sts).value) == Env(UpsertAll(UpsertUid(Vars(d), path), sts))
  {
    var orig := Vars(d);
    var create: seq<Patch> := if d.Absent? then [CreateList] else [];
    var uid := EmitUid(orig, path);
    var rest := EmitAll(orig, sts).value;
    ApplyConcat(d, create + [uid], rest);
    ApplyConcat(d, create, [uid]);
    if d.Absent? { ApplyOne(d, CreateList); }
    assert ApplyAll(d, create) == Env(orig);
    ApplyOne(Env(orig), uid);
    SetsAreUpserts(UpsertUid(orig, path), orig, sts);
  }

  // ---------------------------------------------------------------- what injection leaves

  ghost predicate OccursAt(text: string, part: string, i: nat) {
    i + |part| <= |text| && text[i..i + |part|] == part
  }

  /** `part` stands somewhere in `text`. */
  ghost predicate Occurs(text: string, part: string) {
    exists i: nat :: OccursAt(text, part, i)
  }

  lemma {:induction false} ContainsFromIff(text: string, part: string, i: nat)
    ensures ContainsFrom(text, part, i) <==> exists j: nat :: i <= j && OccursAt(text, part, j)
    decreases |text| - i
  {
    if i + |part| <= |text| {
      if text[i..i + |part|] == part {
        assert OccursAt(text, part, i);
      } else {
        var next := i + 1;
        ContainsFromIff(text, part, next);
        assert !OccursAt(text, part, i);
        if j: nat :| next <= j && OccursAt(text, part, j) {
          assert i <= j && OccursAt(text, part, j);
        }
      }
    }
  }

  lemma ContainsIff(text: string, part: string)
    ensures Contains(text, part) <==> Occurs(text, part)
  {
    ContainsFromIff(text, part, 0);
  }

  /** What a variable that is there becomes: the setting, except that a library path keeps what it had in front. */
  ghost predicate SetTo(before: EnvVar, st: Setting, after: EnvVar) {
    && before.Plain? && after.Plain? && after.name == before.name
    && if st.name != "LD_LIBRARY_PATH" then after.value == st.value
       else if Occurs(before.value, st.value) then after.value == before.value
       else after.value == before.value + ":" + st.value
  }

  /** The variables to be added behind the list: those that were not in it, in the order of the calls. */
  function Missing(orig: seq<EnvVar>, path: string, sts: seq<Setting>): seq<EnvVar> {
    if sts == [] then (if First(orig, UID) == |orig| then [Ref("OPENAPPSEC_UID", path)] else [])
    else
      var st := sts[|sts| - 1];
      Missing(orig, path, sts[..|sts| - 1])
      + (if First(orig, st.name) == |orig| then [Plain(st.name, st.value)] else [])
  }

  /** The list after an injection, variable by variable. */
  ghost predicate InjectedEnv(orig: seq<EnvVar>, path: string, sts: seq<Setting>, env: seq<EnvVar>) {
    && |env| >= |orig|
    && (forall i :: 0 <= i < |orig| ==> env[i].name == orig[i].name)
    && (forall i :: (0 <= i < |orig| && i != First(orig, UID)
                      && forall j :: 0 <= j < |sts| ==> i != First(orig, sts[j].name)) ==>
          env[i] == orig[i])
    && (First(orig, UID) < |orig| ==> env[First(orig, UID)] == Ref("OPENAPPSEC_UID", path))
    && (forall j :: 0 <= j < |sts| && First(orig, sts[j].name) < |orig| ==>
          SetTo(orig[First(orig, sts[j].name)], sts[j], env[First(orig, sts[j].name)]))
    && env[|orig|..] == Missing(orig, path, sts)
  }

  lemma MergedIsSetTo(before: EnvVar, st: Setting)
    requires before.Plain? && before.name == st.name
    ensures SetTo(before, st, Plain(st.name, Merged(st.name, before.value, st.value)))
  {
    ContainsIff(before.value, st.value);
  }

  lemma {:induction false} MissingNames(orig: seq<EnvVar>, path: string, sts: seq<Setting>, name: string)
    requires name != UID && forall j :: 0 <= j < |sts| ==> sts[j].name != name
    ensures forall v :: v in Missing(orig, path, sts) ==> v.name != name
  {
    if sts != [] { MissingNames(orig, path, sts[..|sts| - 1], name); }
  }

  /** A name still to come is found where it was, or nowhere. */
  lemma FirstStays(orig: seq<EnvVar>, path: string, sts: seq<Setting>, env: seq<EnvVar>, name: string)
    requires InjectedEnv(orig, path, sts, env) && name != UID && forall j :: 0 <= j < |sts| ==> sts[j].name != name
    ensures First(env, name) == if First(orig, name) < |orig| then First(orig, name) else |env|
  {
    MissingNames(orig, path, sts, name);
    forall i | |orig| <= i < |env| ensures env[i].name != name {
      assert env[i] == env[|orig|..][i - |orig|];
    }
  }

  lemma SetExisting(orig: seq<EnvVar>, path: string, sts: seq<Setting>, env: seq<EnvVar>, p: nat, v: EnvVar)
    requires sts != [] && DistinctNames(sts) && p == First(orig, sts[|sts| - 1].name) < |orig|
    requires InjectedEnv(orig, path, sts[..|sts| - 1], env) && SetTo(orig[p], sts[|sts| - 1], v)
    ensures InjectedEnv(orig, path, sts, env[p := v])
  {
    var init := sts[..|sts| - 1];
    assert env[p := v][|orig|..] == env[|orig|..];
    assert forall j :: 0 <= j < |init| ==> init[j] == sts[j];
  }

  lemma AddMissing(orig: seq<EnvVar>, path: string, sts: seq<Setting>, env: seq<EnvVar>)
    requires sts != [] && First(orig, sts[|sts| - 1].name) == |orig|
    requires InjectedEnv(orig, path, sts[..|sts| - 1], env)
    ensures InjectedEnv(orig, path, sts, env + [Plain(sts[|sts| - 1].name, sts[|sts| - 1].value)])
  {
    var init, v := sts[..|sts| - 1], Plain(sts[|sts| - 1].name, sts[|sts| - 1].value);
    assert (env + [v])[|orig|..] == env[|orig|..] + [v];
    assert forall j :: 0 <= j < |init| ==> init[j] == sts[j];
  }

  lemma {:induction false} UpsertsShow(orig: seq<EnvVar>, path: string, sts: seq<Setting>)
    requires DistinctNames(sts)
    requires forall j :: 0 <= j < |sts| && First(orig, sts[j].name) < |orig| ==> orig[First(orig, sts[j].name)].Plain?
    ensures InjectedEnv(orig, path, sts, UpsertAll(UpsertUid(orig, path), sts))
  {
    if sts == [] {
      UidShows(orig, path);
    } else {
      var init, st := sts[..|sts| - 1], sts[|sts| - 1];
      assert forall j :: 0 <= j < |init| ==> init[j] == sts[j];
      UpsertsShow(orig, path, init);
      var env := UpsertAll(UpsertUid(orig, path), init);
      FirstStays(orig, path, init, env, st.name);
      var p := First(orig, st.name);
      if p < |orig| {
        Untouched(orig, path, sts, env);
        MergedIsSetTo(orig[p], st);
        SetExisting(orig, path, sts, env, p, Plain(st.name, Merged(st.name, orig[p].value, st.value)));
      } else {
        AddMissing(orig, path, sts, env);
      }
    }
  }

  lemma UidShows(orig: seq<EnvVar>, path: string)
    ensures InjectedEnv(orig, path, [], UpsertUid(orig, path))
  {
  }

  /** The variable that the last setting names has not been touched by the others. */
  lemma Untouched(orig: seq<EnvVar>, path: string, sts: seq<Setting>, env: seq<EnvVar>)
    requires sts != [] && DistinctNames(sts) && First(orig, sts[|sts| - 1].name) < |orig|
    requires InjectedEnv(orig, path, sts[..|sts| - 1], env)
    ensures env[First(orig, sts[|sts| - 1].name)] == orig[First(orig, sts[|sts| - 1].name)]
  {
    var init, p := sts[..|sts| - 1], First(orig, sts[|sts| - 1].name);
    forall j | 0 <= j < |init| ensures p != First(orig, init[j].name) {
      assert init[j] == sts[j];
    }
  }

  /**
   Applied, the injection gives each variable that is there its setting, lets a library path keep its old value in
   front, leaves every other variable alone, and adds what is missing in the order of the calls.
   */
  lemma InjectionShows(d: Doc, path: string, sts: seq<Setting>) returns (env: seq<EnvVar>)
    requires !d.Broken? && DistinctNames(sts) && Inject(d, path, sts).Some?
    ensures ApplyAll(d, Inject(d, path, sts).value) == Env(env) && InjectedEnv(Vars(d), path, sts, env)
  {
    InjectionIsUpsert(d, path, sts);
    InjectionRaisesIff(Vars(d), sts);
    UpsertsShow(Vars(d), path, sts);
    env := UpsertAll(UpsertUid(Vars(d), path), sts);
  }

  /** The pod's own library path stays in front, and the setting is in the new one. */
  lemma LibraryPathGrows(before: EnvVar, st: Setting, after: EnvVar)
    requires SetTo(before, st, after) && st.name == "LD_LIBRARY_PATH"
    ensures before.value <= after.value && Occurs(after.value, st.value)
    ensures after == before <==> Occurs(before.value, st.value)
  {
    if !Occurs(before.value, st.value) {
      var i := |before.value| + 1;
      assert OccursAt(after.value, st.value, i);
    }
  }

  // ---------------------------------------------------------------- round trip

  function Plains(sts: seq<Setting>): seq<EnvVar> {
    seq(|sts|, i requires 0 <= i < |sts| => Plain(sts[i].name, sts[i].value))
  }

  ghost predicate Lacks(env: seq<EnvVar>, sts: seq<Setting>) {
    forall i, j :: 0 <= i < |env| && 0 <= j < |sts| ==> env[i].name != sts[j].name
  }

  lemma {:induction false} UpsertsAppend(env: seq<EnvVar>, sts: seq<Setting>)
    requires Lacks(env, sts) && DistinctNames(sts)
    ensures UpsertAll(env, sts) == env + Plains(sts)
  {
    if sts == [] {
      assert env + Plains(sts) == env;
    } else {
      var init := sts[..|sts| - 1];
      UpsertsAppend(env, init);
      NotYetThere(env, sts);
      PlainsSnoc(env, sts);
    }
  }

  lemma NotYetThere(env: seq<EnvVar>, sts: seq<Setting>)
    requires Lacks(env, sts) && DistinctNames(sts) && sts != []
    ensures var cur := env + Plains(sts[..|sts| - 1]); First(cur, sts[|sts| - 1].name) == |cur|
  {
  }

  lemma PlainsSnoc(env: seq<EnvVar>, sts: seq<Setting>)
    requires sts != []
    ensures env + Plains(sts) == (env + Plains(sts[..|sts| - 1])) + [Plain(sts[|sts| - 1].name, sts[|sts| - 1].value)]
  {
  }

  // ---------------------------------------------------------------- removal from any list

  lemma {:induction false} RemovalsApply(vars: seq<EnvVar>, idxs: seq<nat>)
    ensures ApplyAll(Env(vars), Removals(idxs)) ==
              if RemoveSeq(vars, idxs).Some? then Env(RemoveSeq(vars, idxs).value) else Broken
    decreases |idxs|
  {
    if idxs != [] {
      var rest := idxs[1..];
      assert Removals(idxs) == [Remove(idxs[0])] + Removals(rest);
      ApplyConcat(Env(vars), [Remove(idxs[0])], Removals(rest));
      ApplyOne(Env(vars), Remove(idxs[0]));
      if idxs[0] < |vars| {
        RemovalsApply(RemoveAt(vars, idxs[0]), rest);
      } else {
        BrokenStays(Removals(rest));
      }
    }
  }

  lemma {:induction false} BrokenStays(ps: seq<Patch>)
    ensures ApplyAll(Broken, ps) == Broken
  {
    if ps != [] { BrokenStays(ps[..|ps| - 1]); }
  }

  ghost predicate DistinctStrings(names: seq<string>) {
    forall i, j :: 0 <= i < j < |names| ==> names[i] != names[j]
  }

  /** What removal is for: the variables whose names are not listed. */
  function Without(env: seq<EnvVar>, names: seq<string>): seq<EnvVar> {
    WithoutUpTo(env, names, |env|)
  }

  function WithoutUpTo(env: seq<EnvVar>, names: seq<string>, k: nat): seq<EnvVar>
    requires k <= |env|
    decreases k
  {
    if k == 0 then []
    else WithoutUpTo(env, names, k - 1) + (if env[k - 1].name in names then [] else [env[k - 1]])
  }

  /** No variable named is in the list twice. */
  ghost predicate NoneTwice(env: seq<EnvVar>, names: seq<string>) {
    forall p, q :: 0 <= p < q < |env| && env[p].name == env[q].name ==> env[p].name !in names
  }

  /** Position p holds the first variable of one of the first k names. */
  ghost predicate FirstOfOne(env: seq<EnvVar>, names: seq<string>, k: nat, p: nat)
    requires k <= |names|
  {
    p < |env| && First(env, env[p].name) == p && exists j :: 0 <= j < k && names[j] == env[p].name
  }

  /** The positions emitted are those of the first variable of each name, in the order of the names. */
  lemma {:induction false} IndicesName(env: seq<EnvVar>, names: seq<string>, k: nat)
    requires k <= |names|
    ensures var idxs := IndicesUpTo(env, names, k);
            && (forall i :: 0 <= i < |idxs| ==> FirstOfOne(env, names, k, idxs[i]))
            && (forall j :: 0 <= j < k && First(env, names[j]) < |env| ==> First(env, names[j]) in idxs)
  {
    if k > 0 {
      IndicesName(env, names, k - 1);
      var prev := IndicesUpTo(env, names, k - 1);
      forall i | 0 <= i < |prev| ensures FirstOfOne(env, names, k, prev[i]) {
        assert FirstOfOne(env, names, k - 1, prev[i]);
      }
      var p := First(env, names[k - 1]);
      if p < |env| {
        assert names[k - 1] == env[p].name;
      }
    }
  }

  lemma {:induction false} IndicesDiffer(env: seq<EnvVar>, names: seq<string>, k: nat)
    requires DistinctStrings(names) && k <= |names|
    ensures Distinct(IndicesUpTo(env, names, k))
  {
    if k > 0 {
      IndicesDiffer(env, names, k - 1);
      IndicesName(env, names, k - 1);
      var prev, p := IndicesUpTo(env, names, k - 1), First(env, names[k - 1]);
      forall i | 0 <= i < |prev| ensures prev[i] != p {
        assert FirstOfOne(env, names, k - 1, prev[i]);
      }
    }
  }

  lemma RemovalsName(env: seq<EnvVar>, names: seq<string>)
    requires DistinctStrings(names)
    ensures var idxs := RemovalIndices(env, names);
            && InRange(idxs, |env|) && Distinct(idxs)
            && (forall i :: 0 <= i < |idxs| ==> env[idxs[i]].name in names && First(env, env[idxs[i]].name) == idxs[i])
            && (forall j :: 0 <= j < |names| && First(env, names[j]) < |env| ==> First(env, names[j]) in idxs)
  {
    IndicesName(env, names, |names|);
    IndicesDiffer(env, names, |names|);
    var idxs := RemovalIndices(env, names);
    forall i | 0 <= i < |idxs|
      ensures idxs[i] < |env| && env[idxs[i]].name in names && First(env, env[idxs[i]].name) == idxs[i]
    {
      assert FirstOfOne(env, names, |names|, idxs[i]);
    }
  }

  lemma NamedIsRemoved(env: seq<EnvVar>, names: seq<string>, p: nat)
    requires DistinctStrings(names) && NoneTwice(env, names) && p < |env|
    ensures p in RemovalIndices(env, names) <==> env[p].name in names
  {
    RemovalsName(env, names);
    if env[p].name in names {
      var j :| 0 <= j < |names| && names[j] == env[p].name;
      assert First(env, names[j]) == p;
    }
  }

  lemma {:induction false} KeepIsWithout(env: seq<EnvVar>, names: seq<string>, idxs: seq<nat>, k: nat)
    requires k <= |env| && forall p: nat :: p < |env| ==> (p in idxs <==> env[p].name in names)
    ensures Keep(env[..k], idxs) == WithoutUpTo(env, names, k)
    decreases k
  {
    if k > 0 {
      assert env[..k][..k - 1] == env[..k - 1];
      KeepIsWithout(env, names, idxs, k - 1);
    }
  }

  lemma {:induction false} WithoutIsClean(env: seq<EnvVar>, names: seq<string>, k: nat)
    requires k <= |env|
    ensures forall v :: v in WithoutUpTo(env, names, k) ==> v.name !in names
    decreases k
  {
    if k > 0 { WithoutIsClean(env, names, k - 1); }
  }

  lemma SecondIsMissed(env: seq<EnvVar>, names: seq<string>, p: nat, q: nat)
    requires DistinctStrings(names) && p < q < |env| && env[p].name == env[q].name
    ensures q !in RemovalIndices(env, names)
  {
    RemovalsName(env, names);
  }

  lemma CleanSurvivors(env: seq<EnvVar>, names: seq<string>, idxs: seq<nat>, t: seq<nat>)
    requires InRange(t, |env|) && At(env, t) == Without(env, names)
    requires InRange(idxs, |env|) && forall i :: 0 <= i < |idxs| ==> env[idxs[i]].name in names
    ensures forall i :: 0 <= i < |t| ==> t[i] !in idxs
  {
    WithoutIsClean(env, names, |env|);
    forall i | 0 <= i < |t| ensures t[i] !in idxs {
      assert At(env, t)[i] in Without(env, names);
    }
  }

  lemma OneMore(env: seq<EnvVar>, names: seq<string>, idxs: seq<nat>, q: nat)
    requires InRange(idxs, |env|) && Distinct(idxs) && forall i :: 0 <= i < |idxs| ==> env[idxs[i]].name in names
    requires q < |env| && q !in idxs && env[q].name in names
    ensures InRange(idxs + [q], |env|) && Distinct(idxs + [q])
    ensures forall i :: 0 <= i < |idxs + [q]| ==> env[(idxs + [q])[i]].name in names
  {
  }

  /** One removal for each name cannot clear a list that holds a named variable twice. */
  lemma TwiceIsTooMuch(env: seq<EnvVar>, names: seq<string>, p: nat, q: nat)
    requires DistinctStrings(names)
    requires p < q < |env| && env[p].name == env[q].name && env[p].name in names
    ensures RemoveSeq(env, RemovalIndices(env, names)) != Some(Without(env, names))
  {
    var idxs := RemovalIndices(env, names);
    if RemoveSeq(env, idxs) == Some(Without(env, names)) {
      RemovalsName(env, names);
      SecondIsMissed(env, names, p, q);
      var t := Survivors(env, idxs);
      OneMore(env, names, idxs, q);
      CleanSurvivors(env, names, idxs + [q], t);
      SurvivorsAndRemoved(t, idxs + [q], |env|);
    }
  }

  /**
   For any list: removal, applied, leaves exactly the variables not named iff the named ones that are there stand
   in the reverse of the order in which they are removed, and none of them is there twice.
   */
  lemma RemoveVariablesIff(env: seq<EnvVar>, names: seq<string>)
    requires DistinctStrings(names)
    ensures ApplyAll(Env(env), Removals(RemovalIndices(env, names))) == Env(Without(env, names)) <==>
              Descending(RemovalIndices(env, names)) && NoneTwice(env, names)
  {
    var idxs := RemovalIndices(env, names);
    RemovalsApply(env, idxs);
    if NoneTwice(env, names) {
      RemovalsName(env, names);
      forall p: nat | p < |env| ensures p in idxs <==> env[p].name in names { NamedIsRemoved(env, names, p); }
      KeepIsWithout(env, names, idxs, |env|);
      assert env[..|env|] == env;
      assert Unrepeated(env, idxs) by {
        forall i, j | 0 <= i < |idxs| && 0 <= j < |env| && j != idxs[i] ensures env[j] != env[idxs[i]] {
          assert env[idxs[i]].name in names;
        }
      }
      RemovalIsRightIff(env, idxs);
    } else {
      var p, q :| 0 <= p < q < |env| && env[p].name == env[q].name && env[p].name in names;
      TwiceIsTooMuch(env, names, p, q);
    }
  }

  // ---------------------------------------------------------------- the four variables

  /** The place of a name in the order of injection. */
  function Rank(name: string): nat {
    if name == LIBRARY_PATH then 0
    else if name == CONCURRENCY_CALC then 1
    else if name == CONFIG_PORT then 2
    else if name == CONCURRENCY_NUMBER then 3
    else 4
  }

  lemma NamesDiffer()
    ensures Rank(LIBRARY_PATH) == 0 && Rank(CONCURRENCY_CALC) == 1 && Rank(CONFIG_PORT) == 2
    ensures Rank(CONCURRENCY_NUMBER) == 3 && Rank(UID) == 4
  {
    assert |LIBRARY_PATH| == 15 && |CONCURRENCY_CALC| == 16 && |CONFIG_PORT| == 11 && |CONCURRENCY_NUMBER| == 18;
    assert |UID| == 14;
  }

  function ReverseNames(sts: seq<Setting>): seq<string> {
    seq(|sts|, i requires 0 <= i < |sts| => sts[|sts| - 1 - i].name)
  }

  /** With the same settings, the removal branch names the variables in the reverse of the order of injection. */
  lemma RemovalReversesInjection(c: Config)
    ensures RemovedNames(c) == ReverseNames(InjectedSettings(c))
  {
  }

  /** Each of the four variables gets its own setting, if that is not empty. */
  lemma InjectedSettingsAre(c: Config, st: Setting)
    ensures st in InjectedSettings(c) <==>
              && st.value != ""
              && (|| (st.name == "LD_LIBRARY_PATH" && st.value == c.libraryPath)
                  || (st.name == "CONCURRENCY_CALC" && st.value == c.concurrencyCalc)
                  || (st.name == "CONFIG_PORT" && st.value == c.configPort)
                  || (st.name == "CONCURRENCY_NUMBER" && st.value == c.concurrencyNumber))
  {
  }

  /** Settings in the order of injection. */
  ghost predicate InOrder(sts: seq<Setting>) {
    && (forall i, j :: 0 <= i < j < |sts| ==> Rank(sts[i].name) < Rank(sts[j].name))
    && (forall i :: 0 <= i < |sts| ==> Rank(sts[i].name) < 4)
    && DistinctNames(sts)
  }

  /** Names in the reverse of that order. */
  ghost predicate InReverse(names: seq<string>) {
    && (forall i, j :: 0 <= i < j < |names| ==> Rank(names[i]) > Rank(names[j]))
    && (forall i :: 0 <= i < |names| ==> Rank(names[i]) < 4)
    && DistinctStrings(names)
  }

  lemma InjectionRanks(c: Config)
    ensures InOrder(InjectedSettings(c))
  {
    NamesDiffer();
  }

  lemma RemovalRanks(c: Config)
    ensures InReverse(RemovedNames(c))
  {
    NamesDiffer();
  }

  /** If the named variables found stand in the reverse of the order of the names, the positions descend. */
  lemma {:induction false} IndicesDescend(env: seq<EnvVar>, names: seq<string>, k: nat)
    requires k <= |names|
    requires forall i, j :: 0 <= i < j < |names| && First(env, names[i]) < |env| && First(env, names[j]) < |env| ==>
               First(env, names[i]) > First(env, names[j])
    ensures Descending(IndicesUpTo(env, names, k))
    ensures forall x :: x in IndicesUpTo(env, names, k) ==> exists i :: 0 <= i < k && First(env, names[i]) == x < |env|
  {
    if k > 0 {
      IndicesDescend(env, names, k - 1);
      var prev := IndicesUpTo(env, names, k - 1);
      forall i | 0 <= i < |prev| && First(env, names[k - 1]) < |env| ensures prev[i] > First(env, names[k - 1]) {
        assert prev[i] in prev;
      }
    }
  }

  /** The list an injection leaves is in the order of injection, so any removal finds its variables in reverse. */
  lemma InjectedIsInOrder(base: seq<EnvVar>, sts: seq<Setting>, names: seq<string>)
    requires InOrder(sts) && InReverse(names) && forall v :: v in base ==> Rank(v.name) == 4
    ensures var env := base + Plains(sts);
            Descending(RemovalIndices(env, names)) && NoneTwice(env, names)
  {
    var env := base + Plains(sts);
    forall p, q | 0 <= p < q < |env| && env[p].name == env[q].name ensures env[p].name !in names {
      InjectedRank(base, sts, p);
      InjectedRank(base, sts, q);
    }
    forall i, j | 0 <= i < j < |names| && First(env, names[i]) < |env| && First(env, names[j]) < |env|
      ensures First(env, names[i]) > First(env, names[j])
    {
      InjectedRank(base, sts, First(env, names[i]));
      InjectedRank(base, sts, First(env, names[j]));
    }
    IndicesDescend(env, names, |names|);
  }

  lemma InjectedRank(base: seq<EnvVar>, sts: seq<Setting>, p: nat)
    requires p < |base| + |sts| && forall v :: v in base ==> Rank(v.name) == 4
    ensures var env := base + Plains(sts);
            if p < |base| then Rank(env[p].name) == 4 else env[p].name == sts[p - |base|].name
  {
    if p < |base| { assert base[p] in base; }
  }

  /** The settings that the removal does not name. */
  function Unnamed(sts: seq<Setting>, names: seq<string>): seq<Setting> {
    UnnamedUpTo(sts, names, |sts|)
  }

  function UnnamedUpTo(sts: seq<Setting>, names: seq<string>, k: nat): seq<Setting>
    requires k <= |sts|
    decreases k
  {
    if k == 0 then []
    else UnnamedUpTo(sts, names, k - 1) + (if sts[k - 1].name in names then [] else [sts[k - 1]])
  }

  lemma {:induction false} WithoutNothing(env: seq<EnvVar>, names: seq<string>, k: nat)
    requires k <= |env| && forall i :: 0 <= i < k ==> env[i].name !in names
    ensures WithoutUpTo(env, names, k) == env[..k]
    decreases k
  {
    if k > 0 {
      WithoutNothing(env, names, k - 1);
      assert env[..k] == env[..k - 1] + [env[k - 1]];
    }
  }

  lemma PlainsOne(sts: seq<Setting>, st: Setting)
    ensures Plains(sts + [st]) == Plains(sts) + [Plain(st.name, st.value)]
  {
  }

  lemma {:induction false} WithoutAppended(base: seq<EnvVar>, sts: seq<Setting>, names: seq<string>, k: nat)
    requires k <= |sts| && forall v :: v in base ==> v.name !in names
    ensures WithoutUpTo(base + Plains(sts), names, |base| + k) == base + Plains(UnnamedUpTo(sts, names, k))
    decreases k
  {
    var env := base + Plains(sts);
    if k == 0 {
      WithoutNothing(env, names, |base|);
      PlainsOfNothing(base);
      assert env[..|base|] == base;
    } else {
      WithoutAppended(base, sts, names, k - 1);
      assert env[|base| + k - 1] == Plain(sts[k - 1].name, sts[k - 1].value);
      PlainsOne(UnnamedUpTo(sts, names, k - 1), sts[k - 1]);
    }
  }

  lemma InjectedList(d: Doc, path: string, sts: seq<Setting>)
    requires !d.Broken? && InOrder(sts) && forall v :: v in Vars(d) ==> Rank(v.name) == 4
    ensures Inject(d, path, sts).Some?
    ensures ApplyAll(d, Inject(d, path, sts).value) == Env(UpsertUid(Vars(d), path) + Plains(sts))
  {
    var base := UpsertUid(Vars(d), path);
    UidIsNoneOfThem(Vars(d), path);
    LacksTheFour(Vars(d), sts);
    LacksTheFour(base, sts);
    InjectionRaisesIff(Vars(d), sts);
    InjectionIsUpsert(d, path, sts);
    UpsertsAppend(base, sts);
  }

  lemma RemoveAppended(base: seq<EnvVar>, sts: seq<Setting>, names: seq<string>)
    requires InOrder(sts) && InReverse(names) && forall v :: v in base ==> Rank(v.name) == 4
    ensures var env := base + Plains(sts);
            ApplyAll(Env(env), Removals(RemovalIndices(env, names))) == Env(base + Plains(Unnamed(sts, names)))
  {
    InjectedIsInOrder(base, sts, names);
    RemoveVariablesIff(base + Plains(sts), names);
    forall v | v in base ensures v.name !in names { }
    WithoutAppended(base, sts, names, |sts|);
  }

  /**
   Inject with settings c, remove with settings c', for every list that held none of the four variables: what
   stays is the list itself, OPENAPPSEC_UID, and the variables that c switched on and c' does not name.
   */
  lemma InjectThenRemove(d: Doc, path: string, c: Config, c': Config)
    requires !d.Broken? && forall v :: v in Vars(d) ==> Rank(v.name) == 4
    ensures Inject(d, path, InjectedSettings(c)).Some?
    ensures var injected := ApplyAll(d, Inject(d, path, InjectedSettings(c)).value);
            && injected.Env?
            && ApplyAll(injected, Removals(RemovalIndices(injected.vars, RemovedNames(c'))))
               == Env(UpsertUid(Vars(d), path) + Plains(Unnamed(InjectedSettings(c), RemovedNames(c'))))
  {
    InjectionRanks(c);
    RemovalRanks(c');
    InjectedList(d, path, InjectedSettings(c));
    UidIsNoneOfThem(Vars(d), path);
    RemoveAppended(UpsertUid(Vars(d), path), InjectedSettings(c), RemovedNames(c'));
  }

  lemma LacksTheFour(env: seq<EnvVar>, sts: seq<Setting>)
    requires forall v :: v in env ==> Rank(v.name) == 4
    requires forall i :: 0 <= i < |sts| ==> Rank(sts[i].name) < 4
    ensures Lacks(env, sts)
  {
    forall i, j | 0 <= i < |env| && 0 <= j < |sts| ensures env[i].name != sts[j].name {
      assert env[i] in env;
    }
  }

  lemma UidIsNoneOfThem(env: seq<EnvVar>, path: string)
    requires forall v :: v in env ==> Rank(v.name) == 4
    ensures forall v :: v in UpsertUid(env, path) ==> Rank(v.name) == 4
  {
    NamesDiffer();
  }

  /** Removal with the settings of the injection restores the list except for OPENAPPSEC_UID. */
  lemma InjectThenRemoveRestores(d: Doc, path: string, c: Config)
    requires !d.Broken? && forall v :: v in Vars(d) ==> Rank(v.name) == 4
    ensures Inject(d, path, InjectedSettings(c)).Some?
    ensures var injected := ApplyAll(d, Inject(d, path, InjectedSettings(c)).value);
            && injected.Env?
            && ApplyAll(injected, Removals(RemovalIndices(injected.vars, RemovedNames(c))))
               == Env(UpsertUid(Vars(d), path))
  {
    InjectThenRemove(d, path, c, c);
    RemovalReversesInjection(c);
    AllNamedReversed(InjectedSettings(c));
    PlainsOfNothing(UpsertUid(Vars(d), path));
  }

  lemma PlainsOfNothing(env: seq<EnvVar>)
    ensures env + Plains([]) == env
  {
  }

  lemma AllNamedReversed(sts: seq<Setting>)
    ensures Unnamed(sts, ReverseNames(sts)) == []
  {
    forall i | 0 <= i < |sts| ensures sts[i].name in ReverseNames(sts) {
      assert ReverseNames(sts)[|sts| - 1 - i] == sts[i].name;
    }
    AllNamed(sts, ReverseNames(sts), |sts|);
  }

  lemma {:induction false} AllNamed(sts: seq<Setting>, names: seq<string>, k: nat)
    requires k <= |sts| && forall i :: 0 <= i < |sts| ==> sts[i].name in names
    ensures UnnamedUpTo(sts, names, k) == []
    decreases k
  {
    if k > 0 { AllNamed(sts, names, k - 1); }
  }

  /** A user's own variable lost: the pod defined CONCURRENCY_NUMBER ahead of LD_LIBRARY_PATH. */
  lemma WrongOrderLosesAVariable()
    ensures var env := [Plain(CONCURRENCY_NUMBER, "1"), Plain(LIBRARY_PATH, "/a"), Plain("HOME", "/")];
            ApplyAll(Env(env), Removals(RemovalIndices(env, RemovedNames(Config("/a", "", "", "1")))))
              == Env([Plain(LIBRARY_PATH, "/a")])
  {
    var env := [Plain(CONCURRENCY_NUMBER, "1"), Plain(LIBRARY_PATH, "/a"), Plain("HOME", "/")];
    var names := [CONCURRENCY_NUMBER, LIBRARY_PATH];
    assert RemovedNames(Config("/a", "", "", "1")) == names;
    NamesDiffer();
    assert First(env, LIBRARY_PATH) == 1 by {
      assert env[1].name == LIBRARY_PATH && env[0].name != LIBRARY_PATH;
    }
    assert First(env, CONCURRENCY_NUMBER) == 0 by {
      assert env[0].name == CONCURRENCY_NUMBER;
    }
    assert IndicesUpTo(env, names, 1) == [0];
    assert RemovalIndices(env, names) == [0, 1];
    assert RemoveAt(env, 0) == [env[1], env[2]];
    assert RemoveAt([env[1], env[2]], 1) == [env[1]];
    assert [0, 1][1..] == [1] && [1][1..] == [];
    assert RemoveSeq([env[1], env[2]], [1]) == RemoveSeq([env[1]], []);
    RemovalsApply(env, [0, 1]);
  }

  /** A variable listed twice is removed once, although the single position emitted is in order. */
  lemma RepeatedVariableStays()
    ensures var env := [Plain(LIBRARY_PATH, "/a"), Plain(LIBRARY_PATH, "/b")];
            ApplyAll(Env(env), Removals(RemovalIndices(env, [LIBRARY_PATH]))) == Env([Plain(LIBRARY_PATH, "/b")])
  {
    var env := [Plain(LIBRARY_PATH, "/a"), Plain(LIBRARY_PATH, "/b")];
    assert First(env, LIBRARY_PATH) == 0 by { assert env[0].name == LIBRARY_PATH; }
    assert IndicesUpTo(env, [LIBRARY_PATH], 1) == [0];
    assert RemoveAt(env, 0) == [env[1]];
    assert RemoveSeq([env[1]], [0][1..]) == Some([env[1]]);
    RemovalsApply(env, [0]);
  }

  // ---------------------------------------------------------------- injected containers

  const AGENT := "open-appsec-nano-agent"
  const DAEMON := "openappsec-traefik-daemon"

  predicate Injected(name: string) {
    name == AGENT || name == DAEMON
  }

  /** The containers by name; what else they hold does not matter here. */
  function Others(containers: seq<string>): seq<string> {
    if containers == [] then []
    else
      var last := containers[|containers| - 1];
      Others(containers[..|containers| - 1]) + (if Injected(last) then [] else [last])
  }

  lemma {:induction false} OthersAre(containers: seq<string>)
    ensures forall name :: name in Others(containers) <==> name in containers && !Injected(name)
  {
    if containers != [] { OthersAre(containers[..|containers| - 1]); }
  }

  lemma {:induction false} KeepIsOthers(all: seq<string>, idxs: seq<nat>, k: nat)
    requires k <= |all|
    requires forall p: nat :: p < |all| ==> (p in idxs <==> Injected(all[p]))
    ensures Keep(all[..k], idxs) == Others(all[..k])
  {
    if k > 0 {
      assert all[..k][..k - 1] == all[..k - 1];
      KeepIsOthers(all, idxs, k - 1);
    }
  }

  /** The container part of the removal branch: collect the positions, then emit them highest first. */
  method RemoveContainers(containers: seq<string>) returns (idxs: seq<nat>)
    ensures forall p: nat :: p < |containers| ==>
              (p in idxs <==>
                containers[p] == "open-appsec-nano-agent" || containers[p] == "openappsec-traefik-daemon")
    ensures RemoveSeq(containers, idxs) == Some(Others(containers))
    ensures forall name :: name in Others(containers) <==>
              name in containers && name != "open-appsec-nano-agent" && name != "openappsec-traefik-daemon"
  {
    var found: seq<nat> := [];
    var i := 0;
    while i < |containers|
      invariant 0 <= i <= |containers|
      invariant Increasing(found) && InRange(found, i)
      invariant forall p: nat :: p < i ==> (p in found <==> Injected(containers[p]))
    {
      if Injected(containers[i]) {
        found := found + [i];
      }
      i := i + 1;
    }
    idxs := [];
    var k := 0;
    while k < |found|
      invariant 0 <= k <= |found|
      invariant |idxs| == k && forall j :: 0 <= j < k ==> idxs[j] == found[k - 1 - j]
    {
      idxs := [found[k]] + idxs;
      k := k + 1;
    }
    forall p: nat | p < |containers| ensures p in idxs <==> p in found {
      if p in found {
        var j :| 0 <= j < |found| && found[j] == p;
        assert idxs[k - 1 - j] == p;
      }
    }
    OthersAre(containers);
    DescendingRemoves(containers, idxs);
    KeepIsOthers(containers, idxs, |containers|);
    assert containers[..|containers|] == containers;
  }
}
