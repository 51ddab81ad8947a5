/** What one detection tick does, for every order of the registration table
    and every answer the discovery client gives. */
module TickProperties {
  import opened Discovery
  import opened Detection

  lemma KindsOfAppend(invoked: seq<Invocation>, inv: Invocation)
    ensures KindsOf(invoked + [inv]) == KindsOf(invoked) + {inv.crd.kind}
  {
    var s := invoked + [inv];
    assert s[|invoked|] == inv;
    forall k | k in KindsOf(invoked) ensures k in KindsOf(s) {
      var j :| 0 <= j < |invoked| && invoked[j].crd.kind == k;
      assert s[j] == invoked[j];
    }
  }

  lemma MarkFiredAdd(states: States, kinds: set<string>, kind: string)
    ensures MarkFired(states, kinds)[kind := true] == MarkFired(states, kinds + {kind})
  {
  }

  /** A tick changes the flags in exactly one way: the kind of every trigger
      it calls is set to true, and no other flag changes. */
  lemma {:induction false} TickStates(crds: Table, order: seq<Descriptor>, query: Query, states: States)
    requires InTable(order, crds)
    ensures Tick(crds, order, query, states).states ==
            MarkFired(states, KindsOf(Tick(crds, order, query, states).invoked))
    decreases |order|
  {
    if order == [] {
      assert KindsOf([]) == {};
    } else {
      var n := |order| - 1;
      var prev := Tick(crds, order[..n], query, states);
      TickStates(crds, order[..n], query, states);
      var d := order[n];
      if Present(query(d), d.groupVersion, d.kind) && !Fired(prev.states, d.kind) {
        KindsOfAppend(prev.invoked, Invocation(crds[d], d));
        MarkFiredAdd(states, KindsOf(prev.invoked), d.kind);
      }
    }
  }

  /** A tick never sets a flag to false: a flag that was true stays true, a
      flag that is false afterwards was false before, and the flag of every
      kind whose trigger was not called is exactly what it was. */
  lemma TickNeverClears(crds: Table, order: seq<Descriptor>, query: Query, states: States)
    requires InTable(order, crds)
    ensures forall k | Fired(states, k) :: Fired(Tick(crds, order, query, states).states, k)
    ensures forall k | k in Tick(crds, order, query, states).states && !Tick(crds, order, query, states).states[k] ::
      k in states && !states[k]
    ensures forall k | k !in KindsOf(Tick(crds, order, query, states).invoked) ::
      k in Tick(crds, order, query, states).states <==> k in states
    ensures forall k | k in states && k !in KindsOf(Tick(crds, order, query, states).invoked) ::
      Tick(crds, order, query, states).states[k] == states[k]
    ensures forall k | k in KindsOf(Tick(crds, order, query, states).invoked) ::
      Fired(Tick(crds, order, query, states).states, k)
  {
    TickStates(crds, order, query, states);
  }

  /** The call `inv` is that of a descriptor of the order, with its current
      trigger, whose resource exists and whose kind's flag was not true. */
  ghost predicate SoundCall(crds: Table, order: seq<Descriptor>, query: Query, states: States, inv: Invocation)
  {
    && inv.crd in order && inv.crd in crds && inv.trigger == crds[inv.crd]
    && Present(query(inv.crd), inv.crd.groupVersion, inv.crd.kind)
    && !Fired(states, inv.crd.kind)
  }

  /** Every trigger call of a tick is the call of a registered descriptor's
      current trigger, made because its resource exists and its kind's flag
      was not true when the tick began. */
  lemma {:induction false} TickInvocationsSound(crds: Table, order: seq<Descriptor>, query: Query, states: States)
    requires InTable(order, crds)
    ensures forall j | 0 <= j < |Tick(crds, order, query, states).invoked| ::
      SoundCall(crds, order, query, states, Tick(crds, order, query, states).invoked[j])
    decreases |order|
  {
    if order != [] {
      var n := |order| - 1;
      var prev := Tick(crds, order[..n], query, states);
      TickInvocationsSound(crds, order[..n], query, states);
      TickNeverClears(crds, order[..n], query, states);
      var d := order[n];
      var o := Tick(crds, order, query, states);
      assert o == Visit(prev, d, crds[d], query(d));
      forall j | 0 <= j < |o.invoked|
        ensures SoundCall(crds, order, query, states, o.invoked[j])
      {
        if j < |prev.invoked| {
          assert o.invoked[j] == prev.invoked[j];
          assert SoundCall(crds, order[..n], query, states, prev.invoked[j]);
          var i :| 0 <= i < n && order[..n][i] == prev.invoked[j].crd;
          assert order[i] == prev.invoked[j].crd;
        } else {
          assert o.invoked[j] == Invocation(crds[d], d);
        }
      }
    }
  }

  /** Within one tick at most one trigger is called per kind name, however
      many registered descriptors share that kind. */
  lemma {:induction false} TickKindsDistinct(crds: Table, order: seq<Descriptor>, query: Query, states: States)
    requires InTable(order, crds)
    ensures KindsDistinct(Tick(crds, order, query, states).invoked)
    decreases |order|
  {
    if order != [] {
      var n := |order| - 1;
      var prev := Tick(crds, order[..n], query, states);
      TickKindsDistinct(crds, order[..n], query, states);
      TickNeverClears(crds, order[..n], query, states);
      var d := order[n];
      if Present(query(d), d.groupVersion, d.kind) && !Fired(prev.states, d.kind) {
        var o := Tick(crds, order, query, states);
        assert o.invoked == prev.invoked + [Invocation(crds[d], d)];
        forall j | 0 <= j < |prev.invoked| ensures o.invoked[j].crd.kind != d.kind {
          assert o.invoked[j] == prev.invoked[j];
          assert prev.invoked[j].crd.kind in KindsOf(prev.invoked);
        }
      }
    }
  }

  /** After a tick, the flag of every visited descriptor whose resource
      existed is true. */
  lemma {:induction false} TickMarksPresent(crds: Table, order: seq<Descriptor>, query: Query, states: States)
    requires InTable(order, crds)
    ensures forall i | 0 <= i < |order| && Present(query(order[i]), order[i].groupVersion, order[i].kind) ::
      Fired(Tick(crds, order, query, states).states, order[i].kind)
    decreases |order|
  {
    if order != [] {
      var n := |order| - 1;
      var prev := Tick(crds, order[..n], query, states);
      TickMarksPresent(crds, order[..n], query, states);
      var o := Tick(crds, order, query, states);
      forall i | 0 <= i < n && Present(query(order[i]), order[i].groupVersion, order[i].kind)
        ensures Fired(o.states, order[i].kind)
      {
        assert order[..n][i] == order[i];
      }
    }
  }

  /** A visited descriptor whose resource exists and whose kind's flag was not
      true gets its kind's trigger called in this tick (the call may be that of
      another descriptor of the same kind, visited earlier). */
  lemma TickFiresNewlyPresent(crds: Table, order: seq<Descriptor>, query: Query, states: States, i: nat)
    requires InTable(order, crds)
    requires i < |order|
    requires Present(query(order[i]), order[i].groupVersion, order[i].kind)
    requires !Fired(states, order[i].kind)
    ensures order[i].kind in KindsOf(Tick(crds, order, query, states).invoked)
  {
    TickMarksPresent(crds, order, query, states);
    TickNeverClears(crds, order, query, states);
  }

  /** When every visited descriptor that is present already has its flag
      set, a tick calls nothing and changes nothing. */
  lemma {:induction false} TickQuiescent(crds: Table, order: seq<Descriptor>, query: Query, states: States)
    requires InTable(order, crds)
    requires forall i | 0 <= i < |order| && Present(query(order[i]), order[i].groupVersion, order[i].kind) ::
      Fired(states, order[i].kind)
    ensures Tick(crds, order, query, states) == TickOutcome(states, [])
    decreases |order|
  {
    if order != [] {
      var n := |order| - 1;
      assert forall i | 0 <= i < n :: order[..n][i] == order[i];
      TickQuiescent(crds, order[..n], query, states);
    }
  }

  /** When every ServerResources call of a tick fails, the errors are
      discarded: no trigger is called and no flag changes. */
  lemma {:induction false} TickWhenDiscoveryFails(crds: Table, order: seq<Descriptor>, query: Query, states: States)
    requires InTable(order, crds)
    requires forall i | 0 <= i < |order| :: query(order[i]).Failed?
    ensures Tick(crds, order, query, states) == TickOutcome(states, [])
  {
    TickQuiescent(crds, order, query, states);
  }

  /** A second tick over the same table with the same discovery answers
      calls nothing and changes nothing, in whatever order either tick
      visits the table. */
  lemma SecondTickFiresNothing(crds: Table, first: seq<Descriptor>, second: seq<Descriptor>, query: Query, states: States)
    requires IsEnumeration(first, crds.Keys)
    requires IsEnumeration(second, crds.Keys)
    ensures Tick(crds, second, query, Tick(crds, first, query, states).states) ==
            TickOutcome(Tick(crds, first, query, states).states, [])
  {
    var after := Tick(crds, first, query, states).states;
    TickMarksPresent(crds, first, query, states);
    forall i | 0 <= i < |second| && Present(query(second[i]), second[i].groupVersion, second[i].kind)
      ensures Fired(after, second[i].kind)
    {
      assert second[i] in first;
      var i' :| 0 <= i' < |first| && first[i'] == second[i];
    }
    TickQuiescent(crds, second, query, after);
  }

  /** Visiting more descriptors only adds trigger calls: every call made
      while visiting a prefix of the order is also made by the whole tick. */
  lemma {:induction false} TickPrefixCalls(crds: Table, order: seq<Descriptor>, query: Query, states: States, m: nat)
    requires InTable(order, crds)
    requires m <= |order|
    ensures forall j | 0 <= j < |Tick(crds, order[..m], query, states).invoked| ::
      Tick(crds, order[..m], query, states).invoked[j] in Tick(crds, order, query, states).invoked
    decreases |order|
  {
    if m < |order| {
      var n := |order| - 1;
      assert order[..n][..m] == order[..m];
      TickPrefixCalls(crds, order[..n], query, states, m);
      var prev := Tick(crds, order[..n], query, states);
      var o := Tick(crds, order, query, states);
      forall j | 0 <= j < |prev.invoked| ensures prev.invoked[j] in o.invoked {
        assert o.invoked[j] == prev.invoked[j];
      }
    } else {
      assert order[..m] == order;
    }
  }

  /** Of the descriptors sharing an unflagged kind, the one whose trigger is
      called is the first one visited whose own lookup finds it present; by
      TickKindsDistinct it is the only call of that kind in the tick. */
  lemma TickFiresFirstPresent(crds: Table, order: seq<Descriptor>, query: Query, states: States, i: nat)
    requires InTable(order, crds)
    requires i < |order|
    requires Present(query(order[i]), order[i].groupVersion, order[i].kind)
    requires !Fired(states, order[i].kind)
    requires forall i' | 0 <= i' < i && order[i'].kind == order[i].kind ::
      !Present(query(order[i']), order[i'].groupVersion, order[i'].kind)
    ensures Invocation(crds[order[i]], order[i]) in Tick(crds, order, query, states).invoked
  {
    var d := order[i];
    var before := Tick(crds, order[..i], query, states);
    TickInvocationsSound(crds, order[..i], query, states);
    TickStates(crds, order[..i], query, states);
    forall j | 0 <= j < |before.invoked| ensures before.invoked[j].crd.kind != d.kind {
      var c := before.invoked[j].crd;
      var i' :| 0 <= i' < i && order[..i][i'] == c;
      assert order[i'] == c;
    }
    assert d.kind !in KindsOf(before.invoked);
    assert order[..i + 1][..i] == order[..i];
    var upTo := Tick(crds, order[..i + 1], query, states);
    assert upTo.invoked == before.invoked + [Invocation(crds[d], d)];
    TickPrefixCalls(crds, order, query, states, i + 1);
    assert upTo.invoked[|before.invoked|] == Invocation(crds[d], d);
  }
}
