/** Concrete runs of loads and unloads in which the bookkeeping and the flags part. */
module LoaderExamples {
  import InvertedTable
  import opened Bookkeeping
  import opened Lifecycle
  import opened Wrappers

  /** A load of a module with or without TLS directory, mapped and counted. */
  function LoadOf(hasTls: bool): Call {
    Call(false, Flags(false, false, false, false, false, false, false), None, false, true, Some((1, 1)), false, hasTls)
  }

  /** Everything works, except perhaps the kernel's TLS request. */
  function Meets(base: nat, p: nat, kernel: bool): Helpers {
    Helpers(Success, base, p, MapAnswers(true, true, Some("a"), true, true), Success, Success,
            TableAnswers(true, true, InvertedTable.NotNeeded), TlsAnswers(true, true, true, true, true, kernel),
            true, true, Success)
  }

  function Empty(tls: multiset<nat>): State {
    State([], map[], multiset{}, tls, {})
  }

  function OneModule(base: nat, p: nat, hasTls: bool, tls: multiset<nat>): State {
    State([Entry(base, "a", Some((1, 1)), false)],
          map[base := Loaded(true, true, true, true, hasTls, true, p, 1)], multiset{base}, tls, {})
  }

  lemma RefusedLoad(base: nat, p: nat)
    ensures Happens(Empty(multiset{}), LoadEvent(LoadOf(true), Meets(base, p, false)), false, {},
                    Empty(multiset{p}), Refused(KernelRefused))
  {
    var s, c, o := Empty(multiset{}), LoadOf(true), Meets(base, p, false);
    LeaksAre(s, c, o, false);
    assert Failed(s, c, o, false) == Empty(multiset{p});
  }

  lemma ServedLoad(base: nat, p: nat, hasTls: bool)
    ensures Happens(Empty(multiset{p}), LoadEvent(LoadOf(hasTls), Meets(base, p, true)), false, {},
                    OneModule(base, p, hasTls, if hasTls then multiset{p, p} else multiset{p}),
                    Result(Success, Some(base), Some(base)))
  {
    var s, c, o := Empty(multiset{p}), LoadOf(hasTls), Meets(base, p, true);
    LeaksAre(s, c, o, false);
    assert Leaks(s, c, o, false) == s;
    assert WithModule(s, c, o, false) == OneModule(base, p, hasTls, if hasTls then multiset{p, p} else multiset{p});
  }

  lemma LastUnload(base: nat, p: nat, hasTls: bool, tls: multiset<nat>)
    ensures Happens(OneModule(base, p, hasTls, tls), UnloadEvent(base, Success, Success), false, {},
                    Empty(tls - multiset{p}), Result(Success, Some(base), None))
  {
    var s := OneModule(base, p, hasTls, tls);
    UnlistedLast([], s.entries[0]);
    assert [] + [s.entries[0]] == s.entries;
    assert Gone(s, base, false) == Empty(tls - multiset{p});
  }

  lemma EmptyConsistent()
    ensures Consistent(Empty(multiset{}), {}, false)
  {
  }

  lemma StrayInconsistent(s: State, p: nat)
    requires s.tls[p] > TlsOwned(s.modules, p)
    ensures !Consistent(s, {}, false)
  {
    assert Ours({}, InTlsList, p) && Surplus(s, InTlsList, p, false) != 0;
  }

  /** The kernel refuses a module's TLS request; the retry at the same addresses succeeds, lists a second entry, and
      its unload takes one of the two: the other stays. */
  lemma RetryExample(base: nat, p: nat) returns (states: seq<State>, events: seq<Event>, results: seq<Result>)
    ensures IsRun(states, events, results, false, {}) && |events| == 3
    ensures Consistent(states[0], {}, false) && !Consistent(states[1], {}, false)
    ensures results[1] == Result(Success, Some(base), Some(base)) && states[2].tls == multiset{p, p}
    ensures states[3] == Empty(multiset{p}) && !Consistent(states[3], {}, false)
  {
    states := [Empty(multiset{}), Empty(multiset{p}), OneModule(base, p, true, multiset{p, p}), Empty(multiset{p})];
    events := [LoadEvent(LoadOf(true), Meets(base, p, false)), LoadEvent(LoadOf(true), Meets(base, p, true)),
               UnloadEvent(base, Success, Success)];
    results := [Refused(KernelRefused), Result(Success, Some(base), Some(base)), Result(Success, Some(base), None)];
    RefusedLoad(base, p);
    ServedLoad(base, p, true);
    LastUnload(base, p, true, multiset{p, p});
    assert multiset{p, p} - multiset{p} == multiset{p};
    ThreeCalls(states, events, results);
    EmptyConsistent();
    StrayInconsistent(Empty(multiset{p}), p);
  }

  lemma ThreeCalls(states: seq<State>, events: seq<Event>, results: seq<Result>)
    requires |states| == 4 && |events| == |results| == 3
    requires Happens(states[0], events[0], false, {}, states[1], results[0])
    requires Happens(states[1], events[1], false, {}, states[2], results[1])
    requires Happens(states[2], events[2], false, {}, states[3], results[2])
    ensures IsRun(states, events, results, false, {})
  {
  }

  /** The kernel refuses a module's TLS request; a module without TLS directory is loaded whose loader entry has the
      same address; its unload releases the entry that was left, and the bookkeeping is right again. */
  lemma TakenExample(base: nat, p: nat) returns (states: seq<State>, events: seq<Event>, results: seq<Result>)
    ensures IsRun(states, events, results, false, {}) && |events| == 3
    ensures !Consistent(states[1], {}, false) && !Consistent(states[2], {}, false)
    ensures states[3] == Empty(multiset{}) && Consistent(states[3], {}, false)
  {
    states := [Empty(multiset{}), Empty(multiset{p}), OneModule(base, p, false, multiset{p}), Empty(multiset{})];
    events := [LoadEvent(LoadOf(true), Meets(base, p, false)), LoadEvent(LoadOf(false), Meets(base, p, true)),
               UnloadEvent(base, Success, Success)];
    results := [Refused(KernelRefused), Result(Success, Some(base), Some(base)), Result(Success, Some(base), None)];
    RefusedLoad(base, p);
    ServedLoad(base, p, false);
    LastUnload(base, p, false, multiset{p});
    assert multiset{p} - multiset{p} == multiset{};
    ThreeCalls(states, events, results);
    EmptyConsistent();
    StrayInconsistent(Empty(multiset{p}), p);
    StrayInconsistent(OneModule(base, p, false, multiset{p}), p);
  }

  /** A load into an empty process that is told not to fail on TLS, with a kernel that refuses the TLS request: it
      succeeds, and the entry that it listed is not flagged. */
  lemma SkippedTlsExample(base: nat, p: nat) returns (c: Call, o: Helpers, t: State, r: Result)
    ensures Happens(Empty(multiset{}), LoadEvent(c, o), false, {}, t, r)
    ensures r == Result(TlsSkipped, Some(base), Some(base)) && p in t.tls && !t.modules[base].tlsHandled
    ensures !Consistent(t, {}, false)
  {
    c := LoadOf(true).(flags := LoadOf(true).flags.(notFailIfHandleTls := true));
    o := Meets(base, p, false);
    LeaksAre(Empty(multiset{}), c, o, false);
    t := WithModule(Leaks(Empty(multiset{}), c, o, false), c, o, false);
    r := Result(TlsSkipped, Some(base), Some(base));
    StrayInconsistent(t, p);
  }
}
