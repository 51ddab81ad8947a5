/** The values the detector works on and the meaning of one detection tick.
    A tick visits the registered descriptors in some order (Go leaves the
    order of a map range unspecified), so it is defined for any order; the
    lemmas in TickProperties hold for every one. */
module Detection {
  import opened Discovery

  /** A watched resource: the identity of the registered object, and the
      group/version string and kind of its GroupVersionKind. */
  datatype Descriptor = Descriptor(id: nat, groupVersion: string, kind: string)

  /** An opaque callback; only its identity matters to the detector. */
  datatype Trigger = Trigger(id: nat)

  /** One call `trigger(crd)` made by a tick. */
  datatype Invocation = Invocation(trigger: Trigger, crd: Descriptor)

  /** The registration table. */
  type Table = map<Descriptor, Trigger>

  /** The state manager's flags, keyed by kind name. */
  type States = map<string, bool>

  /** The answer each descriptor's ServerResources call gets during one tick. */
  type Query = Descriptor -> ServerResources

  /** The flags and the trigger calls after (part of) a tick. */
  datatype TickOutcome = TickOutcome(states: States, invoked: seq<Invocation>)

  /** `GetState(kind) == true`: a kind never set reads as false. */
  predicate Fired(states: States, kind: string)
  {
    kind in states && states[kind]
  }

  /** Every descriptor of the order is registered. */
  ghost predicate InTable(order: seq<Descriptor>, crds: Table)
  {
    forall i | 0 <= i < |order| :: order[i] in crds
  }

  /** The order visits every key of the table exactly once, as a map range does. */
  ghost predicate IsEnumeration(order: seq<Descriptor>, keys: set<Descriptor>)
  {
    && (forall i | 0 <= i < |order| :: order[i] in keys)
    && (forall d | d in keys :: d in order)
    && (forall i, j | 0 <= i < j < |order| :: order[i] != order[j])
  }

  /** The kinds of a sequence of trigger calls. */
  ghost function KindsOf(invoked: seq<Invocation>): set<string>
  {
    set j | 0 <= j < |invoked| :: invoked[j].crd.kind
  }

  /** No two calls of the sequence are for the same kind. */
  ghost predicate KindsDistinct(invoked: seq<Invocation>)
  {
    forall j, k | 0 <= j < k < |invoked| :: invoked[j].crd.kind != invoked[k].crd.kind
  }

  /** The flags with every kind of `kinds` set to true and nothing else changed. */
  ghost function MarkFired(states: States, kinds: set<string>): States
  {
    states + map k | k in kinds :: true
  }

  /** One iteration of the tick loop: if the descriptor's resource exists and
      its kind's flag is not true, set the flag, then call the trigger. */
  ghost function Visit(o: TickOutcome, crd: Descriptor, trigger: Trigger, answer: ServerResources): TickOutcome
  {
    if Present(answer, crd.groupVersion, crd.kind) && !Fired(o.states, crd.kind) then
      TickOutcome(o.states[crd.kind := true], o.invoked + [Invocation(trigger, crd)])
    else
      o
  }

  /** The state and trigger calls after visiting `order`, from flags `states`. */
  ghost function Tick(crds: Table, order: seq<Descriptor>, query: Query, states: States): TickOutcome
    requires InTable(order, crds)
    decreases |order|
  {
    if order == [] then TickOutcome(states, [])
    else
      var n := |order| - 1;
      Visit(Tick(crds, order[..n], query, states), order[n], crds[order[n]], query(order[n]))
  }
}
