/** A state manager's lifetime: a sequence of ticks that share its flags.
    Each tick may come from a different detector (the state manager is
    process-wide) or from the same detector after further registrations,
    so every round carries its own table snapshot, order and answers. */
module Lifetime {
  import opened Discovery
  import opened Detection
  import opened TickProperties

  datatype Round = Round(crds: Table, order: seq<Descriptor>, query: Query)

  /** Every round visits the keys of its own table. */
  ghost predicate ValidRounds(rounds: seq<Round>)
  {
    forall r | 0 <= r < |rounds| :: IsEnumeration(rounds[r].order, rounds[r].crds.Keys)
  }

  /** The flags after all rounds, and every trigger call in the order made. */
  ghost function Run(rounds: seq<Round>, states: States): TickOutcome
    requires ValidRounds(rounds)
    decreases |rounds|
  {
    if rounds == [] then TickOutcome(states, [])
    else
      var n := |rounds| - 1;
      var prev := Run(rounds[..n], states);
      var last := Tick(rounds[n].crds, rounds[n].order, rounds[n].query, prev.states);
      TickOutcome(last.states, prev.invoked + last.invoked)
  }

  lemma KindsOfConcat(a: seq<Invocation>, b: seq<Invocation>)
    ensures KindsOf(a + b) == KindsOf(a) + KindsOf(b)
  {
    var s := a + b;
    forall k | k in KindsOf(a) + KindsOf(b) ensures k in KindsOf(s) {
      if k in KindsOf(a) {
        var j :| 0 <= j < |a| && a[j].crd.kind == k;
        assert s[j] == a[j];
      } else {
        var j :| 0 <= j < |b| && b[j].crd.kind == k;
        assert s[|a| + j] == b[j];
      }
    }
  }

  lemma MarkFiredTwice(states: States, first: set<string>, second: set<string>)
    ensures MarkFired(MarkFired(states, first), second) == MarkFired(states, first + second)
  {
  }

  /** Over a whole lifetime the flags change only by the kinds whose
      triggers were called becoming true. */
  lemma {:induction false} RunStates(rounds: seq<Round>, states: States)
    requires ValidRounds(rounds)
    ensures Run(rounds, states).states == MarkFired(states, KindsOf(Run(rounds, states).invoked))
    decreases |rounds|
  {
    if rounds == [] {
      assert KindsOf([]) == {};
    } else {
      var n := |rounds| - 1;
      var prev := Run(rounds[..n], states);
      var r := rounds[n];
      var last := Tick(r.crds, r.order, r.query, prev.states);
      RunStates(rounds[..n], states);
      TickStates(r.crds, r.order, r.query, prev.states);
      KindsOfConcat(prev.invoked, last.invoked);
      MarkFiredTwice(states, KindsOf(prev.invoked), KindsOf(last.invoked));
      assert Run(rounds, states) == TickOutcome(last.states, prev.invoked + last.invoked);
    }
  }

  /** Over a whole lifetime no kind's trigger is called twice, and none is
      called for a kind whose flag was already true at the start. This holds
      across ticks and across detectors that share the state manager. */
  lemma {:induction false} RunKindsDistinct(rounds: seq<Round>, states: States)
    requires ValidRounds(rounds)
    ensures KindsDistinct(Run(rounds, states).invoked)
    ensures forall j | 0 <= j < |Run(rounds, states).invoked| :: !Fired(states, Run(rounds, states).invoked[j].crd.kind)
    decreases |rounds|
  {
    if rounds != [] {
      var n := |rounds| - 1;
      var prev := Run(rounds[..n], states);
      var r := rounds[n];
      var last := Tick(r.crds, r.order, r.query, prev.states);
      var all := prev.invoked + last.invoked;
      RunKindsDistinct(rounds[..n], states);
      RunStates(rounds[..n], states);
      TickKindsDistinct(r.crds, r.order, r.query, prev.states);
      TickInvocationsSound(r.crds, r.order, r.query, prev.states);
      forall j, k | 0 <= j < |prev.invoked| <= k < |all|
        ensures all[j].crd.kind != all[k].crd.kind
      {
        assert all[j] == prev.invoked[j];
        assert all[j].crd.kind in KindsOf(prev.invoked);
        assert all[k] == last.invoked[k - |prev.invoked|];
      }
      forall j, k | |prev.invoked| <= j < k < |all|
        ensures all[j].crd.kind != all[k].crd.kind
      {
        assert all[j] == last.invoked[j - |prev.invoked|];
        assert all[k] == last.invoked[k - |prev.invoked|];
      }
      forall j | |prev.invoked| <= j < |all|
        ensures !Fired(states, all[j].crd.kind)
      {
        assert all[j] == last.invoked[j - |prev.invoked|];
      }
    }
  }

  /** Every trigger call of a lifetime is made by some round for a
      descriptor that round visits, with the trigger its table holds then,
      because that round's answer lists the resource: a descriptor never
      reported present never has its trigger called. */
  lemma {:induction false} RunInvocationsSound(rounds: seq<Round>, states: States)
    requires ValidRounds(rounds)
    ensures forall j | 0 <= j < |Run(rounds, states).invoked| ::
      exists r :: 0 <= r < |rounds| && CalledBy(rounds[r], Run(rounds, states).invoked[j])
    decreases |rounds|
  {
    if rounds != [] {
      var n := |rounds| - 1;
      var prev := Run(rounds[..n], states);
      var r := rounds[n];
      var last := Tick(r.crds, r.order, r.query, prev.states);
      var all := prev.invoked + last.invoked;
      RunInvocationsSound(rounds[..n], states);
      TickInvocationsSound(r.crds, r.order, r.query, prev.states);
      assert Run(rounds, states).invoked == all;
      forall j | 0 <= j < |Run(rounds, states).invoked|
        ensures exists q :: 0 <= q < |rounds| && CalledBy(rounds[q], Run(rounds, states).invoked[j])
      {
        if j < |prev.invoked| {
          assert all[j] == prev.invoked[j];
          var q :| 0 <= q < n && CalledBy(rounds[..n][q], prev.invoked[j]);
          assert rounds[q] == rounds[..n][q];
          assert CalledBy(rounds[q], Run(rounds, states).invoked[j]);
        } else {
          assert all[j] == last.invoked[j - |prev.invoked|];
          assert CalledBy(rounds[n], Run(rounds, states).invoked[j]);
        }
      }
    } else {
      assert Run(rounds, states).invoked == [];
    }
  }

  /** The round visits the call's descriptor, maps it to the called trigger
      and its answer lists the descriptor's resource. */
  ghost predicate CalledBy(round: Round, inv: Invocation)
  {
    && inv.crd in round.order && inv.crd in round.crds && round.crds[inv.crd] == inv.trigger
    && Present(round.query(inv.crd), inv.crd.groupVersion, inv.crd.kind)
  }

  /** Every descriptor some round visits and finds present has its kind's
      flag true at the end. */
  lemma {:induction false} RunMarksPresent(rounds: seq<Round>, states: States)
    requires ValidRounds(rounds)
    ensures forall r, i | 0 <= r < |rounds| && 0 <= i < |rounds[r].order| && SeenPresent(rounds[r], i) ::
      Fired(Run(rounds, states).states, rounds[r].order[i].kind)
    decreases |rounds|
  {
    if rounds != [] {
      var n := |rounds| - 1;
      var prev := Run(rounds[..n], states);
      var last := rounds[n];
      RunMarksPresent(rounds[..n], states);
      TickNeverClears(last.crds, last.order, last.query, prev.states);
      TickMarksPresent(last.crds, last.order, last.query, prev.states);
      forall r, i | 0 <= r < n && 0 <= i < |rounds[r].order| && SeenPresent(rounds[r], i)
        ensures Fired(Run(rounds, states).states, rounds[r].order[i].kind)
      {
        assert rounds[..n][r] == rounds[r];
      }
    }
  }

  /** The round's answer for the `i`-th descriptor it visits lists it. */
  ghost predicate SeenPresent(round: Round, i: nat)
    requires i < |round.order|
  {
    Present(round.query(round.order[i]), round.order[i].groupVersion, round.order[i].kind)
  }

  /** Once any round reports a descriptor present whose kind's flag was not
      true at the start, the lifetime calls exactly one trigger of that kind. */
  lemma RunFiresExactlyOnce(rounds: seq<Round>, states: States, r: nat, i: nat)
    requires ValidRounds(rounds)
    requires r < |rounds| && i < |rounds[r].order|
    requires SeenPresent(rounds[r], i)
    requires !Fired(states, rounds[r].order[i].kind)
    ensures exists j ::
      && 0 <= j < |Run(rounds, states).invoked|
      && Run(rounds, states).invoked[j].crd.kind == rounds[r].order[i].kind
      && (forall j' | 0 <= j' < |Run(rounds, states).invoked| &&
            Run(rounds, states).invoked[j'].crd.kind == rounds[r].order[i].kind :: j' == j)
  {
    var kind := rounds[r].order[i].kind;
    var all := Run(rounds, states).invoked;
    RunMarksPresent(rounds, states);
    RunStates(rounds, states);
    RunKindsDistinct(rounds, states);
    assert kind in KindsOf(all);
    var j :| 0 <= j < |all| && all[j].crd.kind == kind;
    assert forall j' | 0 <= j' < |all| && all[j'].crd.kind == kind :: j' == j;
  }
}
