/** `add_self_loops`: a `#0` self-loop on every state that has an outgoing arc
    with a non-epsilon output label, so that `#0` can pass through the
    transducer after composition (Kaldi's `fstaddselfloops.pl`, without the
    self-loops on final states that k2 does not need). */
module SelfLoops {
  import opened Arcs

  function SelfLoop(s: int, disambigPhone: int, disambigWord: int): Arc {
    Arc(s, s, disambigPhone, disambigWord, 0)
  }

  /** The `states_needs_self_loops` set. */
  function StatesNeedingSelfLoops(arcs: seq<Arc>): set<int> {
    set a | a in arcs && a.olabel != Epsilon :: a.src
  }

  /** The first loop of `add_self_loops`: the sources of all arcs with a
      non-epsilon output label. */
  method CollectStates(arcs: seq<Arc>) returns (states: set<int>)
    ensures states == StatesNeedingSelfLoops(arcs)
  {
    states := {};
    for i := 0 to |arcs|
      invariant states == StatesNeedingSelfLoops(arcs[..i])
    {
      assert arcs[..i + 1] == arcs[..i] + [arcs[i]];
      if arcs[i].olabel != Epsilon {
        states := states + {arcs[i].src};
      }
    }
    assert arcs[..|arcs|] == arcs;
  }

  /** A set without members is empty (set extensionality), so a non-empty set
      has a member to pick. */
  lemma NoMemberEmpty(s: set<int>)
    ensures (forall x :: x !in s) ==> s == {}
  {
    if forall x :: x !in s {
      assert s == {};
    }
  }

  /** The second loop of `add_self_loops`: one self-loop per state of
      `states`, in an unspecified order. */
  method LoopsFor(states: set<int>, disambigPhone: int, disambigWord: int) returns (loops: seq<Arc>)
    ensures |loops| == |states|
    ensures forall k :: 0 <= k < |loops| ==>
              loops[k] == SelfLoop(loops[k].src, disambigPhone, disambigWord) && loops[k].src in states
    ensures forall s :: s in states ==> exists k :: 0 <= k < |loops| && loops[k].src == s
    ensures forall k, l :: 0 <= k < l < |loops| ==> loops[k].src != loops[l].src
  {
    loops := [];
    var rest := states;
    while rest != {}
      invariant rest <= states
      invariant |loops| + |rest| == |states|
      invariant forall k :: 0 <= k < |loops| ==>
        loops[k] == SelfLoop(loops[k].src, disambigPhone, disambigWord)
        && loops[k].src in states && loops[k].src !in rest
      invariant forall s :: s in states && s !in rest ==> exists k :: 0 <= k < |loops| && loops[k].src == s
      invariant forall k, l :: 0 <= k < l < |loops| ==> loops[k].src != loops[l].src
      decreases rest
    {
      NoMemberEmpty(rest);
      var s :| s in rest;
      ghost var before := loops;
      loops := loops + [SelfLoop(s, disambigPhone, disambigWord)];
      rest := rest - {s};
      assert loops[|before|].src == s;
      forall t | t in states && t !in rest
        ensures exists k :: 0 <= k < |loops| && loops[k].src == t
      {
        if t != s {
          var k :| 0 <= k < |before| && before[k].src == t;
          assert loops[k] == before[k];
        }
      }
    }
  }

  /** Models `add_self_loops`. The source walks a Python `set`, so the order
      of the added loops is unspecified; the model picks each next state
      nondeterministically and promises only what holds for every order: the
      input arcs come first and unchanged, followed by exactly one self-loop
      per state that needs one. */
  method AddSelfLoops(arcs: seq<Arc>, disambigPhone: int, disambigWord: int) returns (r: seq<Arc>)
    ensures |r| == |arcs| + |StatesNeedingSelfLoops(arcs)|
    ensures r[..|arcs|] == arcs
    ensures forall k :: |arcs| <= k < |r| ==>
              r[k] == SelfLoop(r[k].src, disambigPhone, disambigWord) && r[k].src in StatesNeedingSelfLoops(arcs)
    ensures forall s :: s in StatesNeedingSelfLoops(arcs) ==> exists k :: |arcs| <= k < |r| && r[k].src == s
    ensures forall k, l :: |arcs| <= k < l < |r| ==> r[k].src != r[l].src
  {
    var statesNeedsSelfLoops := CollectStates(arcs);
    var ans := LoopsFor(statesNeedsSelfLoops, disambigPhone, disambigWord);
    r := arcs + ans;
    assert forall k :: |arcs| <= k < |r| ==> r[k] == ans[k - |arcs|];
    forall s | s in statesNeedsSelfLoops
      ensures exists k :: |arcs| <= k < |r| && r[k].src == s
    {
      var k :| 0 <= k < |ans| && ans[k].src == s;
      assert r[|arcs| + k] == ans[k];
    }
  }
}
