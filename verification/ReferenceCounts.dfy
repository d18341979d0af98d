/** What a module's reference count is, over every run of loads and unloads, whatever fails. */
module ReferenceCounts {
  import opened Bookkeeping
  import opened Lifecycle
  import opened Wrappers

  /** A run of calls: the states they go through, and what they answered. */
  ghost predicate IsCallRun(states: seq<State>, events: seq<Event>, results: seq<Result>, win8: bool) {
    && |states| == |events| + 1 && |results| == |events|
    && forall i :: 0 <= i < |events| ==> Occurs(states[i], events[i], win8, states[i + 1], results[i])
  }

  /** A module is counted at least once, and more than once only if it is mapped and counts its references. */
  predicate Counted(m: Loaded) {
    m.count >= 1 && (m.useReferenceCount ==> m.mappedDll) && (m.count > 1 ==> m.useReferenceCount)
  }

  ghost predicate AllCounted(modules: map<nat, Loaded>) {
    forall b :: b in modules ==> Counted(modules[b])
  }

  /** A module's reference count is its balance, and a module that is not there has none. */
  ghost predicate Balanced(modules: map<nat, Loaded>, b: nat, balance: int) {
    if b in modules then modules[b].count == balance else balance == 0
  }

  /** How many of the first n calls loaded the module at b, less how many unloaded it. */
  function Balance(events: seq<Event>, results: seq<Result>, b: nat, n: nat): int
    requires n <= |events| == |results|
  {
    if n == 0 then 0
    else
      Balance(events, results, b, n - 1) + Gain(events[n - 1], results[n - 1], b)
  }

  /** A successful load of the module at b counts one, and a successful unload takes one off. */
  function Gain(e: Event, r: Result, b: nat): int {
    if NtSuccess(r.status) && r.base == Some(b) then (if e.LoadEvent? then 1 else -1) else 0
  }

  /** The modules with one more reference to the one at base, which m is if it was not there. */
  function PutOn(modules: map<nat, Loaded>, base: nat, m: Loaded): map<nat, Loaded> {
    if base in modules then modules[base := modules[base].(count := modules[base].count + 1)]
    else modules[base := m]
  }

  /** The modules with one reference less to the one at base. */
  function TakenOff(modules: map<nat, Loaded>, base: nat): map<nat, Loaded>
    requires base in modules && modules[base].count >= 1
  {
    if modules[base].count > 1 then modules[base := modules[base].(count := modules[base].count - 1)]
    else modules - {base}
  }

  lemma PutOnBalances(modules: map<nat, Loaded>, base: nat, m: Loaded, b: nat, balance: int)
    requires AllCounted(modules) && Balanced(modules, b, balance)
    requires Counted(m) && m.count == 1 && (base in modules ==> modules[base].useReferenceCount)
    ensures AllCounted(PutOn(modules, base, m))
    ensures Balanced(PutOn(modules, base, m), b, balance + (if base == b then 1 else 0))
  {
    assert base in modules ==> Counted(modules[base]);
  }

  lemma TakenOffBalances(modules: map<nat, Loaded>, base: nat, b: nat, balance: int)
    requires AllCounted(modules) && Balanced(modules, b, balance) && base in modules && Counted(modules[base])
    ensures AllCounted(TakenOff(modules, base))
    ensures Balanced(TakenOff(modules, base), b, balance - (if base == b then 1 else 0))
  {
  }

  /** A successful load puts a reference on the module it hands out, and no other load touches a module. */
  lemma LoadedModules(s: State, c: Call, o: Helpers, win8: bool, t: State, r: Result)
    requires o.base !in s.modules && Loads(s, c, o, win8, t, r)
    ensures NtSuccess(r.status) && r.base.Some? ==>
              && t.modules == PutOn(s.modules, r.base.value, NewModule(c, o, win8))
              && (r.base.value in s.modules ==> s.modules[r.base.value].useReferenceCount)
    ensures !(NtSuccess(r.status) && r.base.Some?) ==> t.modules == s.modules
  {
  }

  /** A successful unload takes a reference off, and a failing one leaves the modules alone. */
  lemma UnloadedModules(
    s: State, base: nat, getCount: NtStatus, updateCount: NtStatus, win8: bool, t: State, status: NtStatus)
    requires AllCounted(s.modules) && Unloads(s, base, getCount, updateCount, win8, t, status)
    ensures if NtSuccess(status) then
              base in s.modules && Counted(s.modules[base]) && t.modules == TakenOff(s.modules, base)
            else t.modules == s.modules
  {
    if base in s.modules {
      assert Counted(s.modules[base]);
      LoadedModuleUnloaded(s, base, getCount, updateCount, win8, t, status);
    }
  }

  lemma LoadedModuleUnloaded(
    s: State, base: nat, getCount: NtStatus, updateCount: NtStatus, win8: bool, t: State, status: NtStatus)
    requires base in s.modules && Counted(s.modules[base])
    requires Unloads(s, base, getCount, updateCount, win8, t, status)
    ensures t.modules == if NtSuccess(status) then TakenOff(s.modules, base) else s.modules
  {
  }

  lemma StepBalances(
    s: State, e: Event, win8: bool, t: State, r: Result, b: nat, balance: int)
    requires AllCounted(s.modules) && Occurs(s, e, win8, t, r) && Balanced(s.modules, b, balance)
    ensures AllCounted(t.modules) && Balanced(t.modules, b, balance + Gain(e, r, b))
  {
    match e
    case LoadEvent(c, o) =>
      LoadedModules(s, c, o, win8, t, r);
      if NtSuccess(r.status) && r.base.Some? {
        PutOnBalances(s.modules, r.base.value, NewModule(c, o, win8), b, balance);
      }
    case UnloadEvent(base, getCount, updateCount) =>
      UnloadedModules(s, base, getCount, updateCount, win8, t, r.status);
      if NtSuccess(r.status) {
        TakenOffBalances(s.modules, base, b, balance);
      }
  }

  lemma CallRunStep(states: seq<State>, events: seq<Event>, results: seq<Result>, win8: bool, n: nat)
    requires IsCallRun(states, events, results, win8) && 0 < n <= |events|
    ensures Occurs(states[n - 1], events[n - 1], win8, states[n], results[n - 1])
  {
    assert Occurs(states[n - 1], events[n - 1], win8, states[n - 1 + 1], results[n - 1]);
  }

  /** One more call of a run: the balance moves by what the call gains. */
  lemma BalanceStep(
    s: State, t: State, events: seq<Event>, results: seq<Result>, win8: bool, b: nat, n: nat)
    requires 0 < n <= |events| == |results| && AllCounted(s.modules)
    requires Occurs(s, events[n - 1], win8, t, results[n - 1])
    requires Balanced(s.modules, b, Balance(events, results, b, n - 1))
    ensures AllCounted(t.modules) && Balanced(t.modules, b, Balance(events, results, b, n))
  {
    var before := Balance(events, results, b, n - 1);
    StepBalances(s, events[n - 1], win8, t, results[n - 1], b, before);
  }

  /** Over every run from a state without memory modules, whatever fails, each module's count is its successful
      loads less its successful unloads. */
  lemma {:induction false} RunBalances(
    states: seq<State>, events: seq<Event>, results: seq<Result>, win8: bool, b: nat, n: nat)
    requires IsCallRun(states, events, results, win8) && n <= |events| && states[0].modules == map[]
    ensures AllCounted(states[n].modules) && Balanced(states[n].modules, b, Balance(events, results, b, n))
  {
    if n != 0 {
      RunBalances(states, events, results, win8, b, n - 1);
      CallRunStep(states, events, results, win8, n);
      BalanceStep(states[n - 1], states[n], events, results, win8, b, n);
    }
  }

  /** A module is there exactly while its successful loads outnumber its successful unloads. */
  lemma PresentWhileBalanced(
    states: seq<State>, events: seq<Event>, results: seq<Result>, win8: bool, b: nat, n: nat)
    requires IsCallRun(states, events, results, win8) && n <= |events| && states[0].modules == map[]
    ensures b in states[n].modules <==> Balance(events, results, b, n) > 0
  {
    RunBalances(states, events, results, win8, b, n);
    assert b in states[n].modules ==> Counted(states[n].modules[b]);
  }

  /** Teardown happens at one call only: the unload that balances the first load. */
  lemma TeardownAtBalance(
    states: seq<State>, events: seq<Event>, results: seq<Result>, win8: bool, b: nat, n: nat)
    requires IsCallRun(states, events, results, win8) && n < |events| && states[0].modules == map[]
    ensures b in states[n].modules && b !in states[n + 1].modules
            <==> events[n].UnloadEvent? && events[n].base == b && NtSuccess(results[n].status)
                 && Balance(events, results, b, n) == 1
  {
    PresentWhileBalanced(states, events, results, win8, b, n);
    PresentWhileBalanced(states, events, results, win8, b, n + 1);
    CallRunStep(states, events, results, win8, n + 1);
    UnloadNamesBase(states[n], events[n], win8, states[n + 1], results[n]);
  }

  lemma UnloadNamesBase(s: State, e: Event, win8: bool, t: State, r: Result)
    requires Occurs(s, e, win8, t, r)
    ensures e.UnloadEvent? ==> r.base == Some(e.base)
  {
  }
}
