/** Clients of the detector: what a caller can conclude from the contracts
    of Detector and StateManager together with the tick lemmas. */
module Scenarios {
  import opened Discovery
  import opened Detection
  import opened TickProperties
  import opened AutoDetect
  import opened Lifetime

  /** A table with one key is visited in the only order there is. */
  lemma SingletonEnumeration(order: seq<Descriptor>, d: Descriptor)
    requires IsEnumeration(order, {d})
    ensures order == [d]
  {
    assert d in order;
    assert order[0] == d == order[|order| - 1];
  }

  /** Registering one descriptor twice: only the later trigger is called. */
  method LatestRegistrationFires(crd: Descriptor, first: Trigger, second: Trigger, answer: ServerResources)
    returns (invoked: seq<Invocation>)
    requires Present(answer, crd.groupVersion, crd.kind)
    ensures invoked == [Invocation(second, crd)]
  {
    var detector := new Detector();
    detector.AddCRDTrigger(crd, first);
    detector.AddCRDTrigger(crd, second);
    var sm := new StateManager();
    ghost var order;
    invoked, order := detector.AutoDetectCapabilities(sm, _ => answer);
    SingletonEnumeration(order, crd);
  }

  /** The resource is absent on the first tick and present on the second and
      third: its trigger is called once, on the second tick. */
  method FiresOnceWhenItAppears(crd: Descriptor, trigger: Trigger, absent: ServerResources, present: ServerResources)
    returns (first: seq<Invocation>, second: seq<Invocation>, third: seq<Invocation>)
    requires !Present(absent, crd.groupVersion, crd.kind)
    requires Present(present, crd.groupVersion, crd.kind)
    ensures first == [] && second == [Invocation(trigger, crd)] && third == []
  {
    var detector := new Detector();
    detector.AddCRDTrigger(crd, trigger);
    var sm := new StateManager();
    ghost var order;
    first, order := detector.AutoDetectCapabilities(sm, _ => absent);
    SingletonEnumeration(order, crd);
    ghost var before := sm.states;
    second, order := detector.AutoDetectCapabilities(sm, _ => present);
    SingletonEnumeration(order, crd);
    ghost var secondOrder := order;
    third, order := detector.AutoDetectCapabilities(sm, _ => present);
    SecondTickFiresNothing(detector.crds, secondOrder, order, _ => present, before);
  }

  /** Two detectors share one state manager and watch the same kind, each with
      its own descriptor and trigger; the kind is present for both. Only the
      detector that ticks first calls its trigger. */
  method SharedStateFiresOnce(a: Descriptor, b: Descriptor, ta: Trigger, tb: Trigger, answer: ServerResources)
    returns (fromA: seq<Invocation>, fromB: seq<Invocation>)
    requires a.kind == b.kind
    requires Present(answer, a.groupVersion, a.kind)
    requires Present(answer, b.groupVersion, b.kind)
    ensures fromA == [Invocation(ta, a)] && fromB == []
  {
    var sm := new StateManager();
    var detectorA := new Detector();
    detectorA.AddCRDTrigger(a, ta);
    var detectorB := new Detector();
    detectorB.AddCRDTrigger(b, tb);
    ghost var order;
    fromA, order := detectorA.AutoDetectCapabilities(sm, _ => answer);
    SingletonEnumeration(order, a);
    fromB, order := detectorB.AutoDetectCapabilities(sm, _ => answer);
    SingletonEnumeration(order, b);
  }

  /** What a caller does with a detector between and at ticks. */
  datatype Step = Register(crd: Descriptor, trigger: Trigger) | Detect(query: Query)

  /** The table after the registrations of the steps. */
  ghost function Registered(crds: Table, steps: seq<Step>): Table
    decreases |steps|
  {
    if steps == [] then crds
    else
      var n := |steps| - 1;
      var before := Registered(crds, steps[..n]);
      match steps[n]
      case Register(crd, trigger) => before[crd := trigger]
      case Detect(_) => before
  }

  /** For every tick of the steps, the table it sees and the answers it gets. */
  ghost function Snapshots(crds: Table, steps: seq<Step>): seq<(Table, Query)>
    decreases |steps|
  {
    if steps == [] then []
    else
      var n := |steps| - 1;
      var before := Snapshots(crds, steps[..n]);
      match steps[n]
      case Register(_, _) => before
      case Detect(query) => before + [(Registered(crds, steps[..n]), query)]
  }

  /** Running registrations and ticks on one detector and one state manager is
      a lifetime `Run`: each tick is a round with the table it saw, the order it
      took and the answers it got, and the trigger calls of all ticks together
      are the calls of that run. */
  method Drive(detector: Detector, sm: StateManager, steps: seq<Step>)
    returns (invoked: seq<Invocation>, ghost rounds: seq<Round>)
    modifies detector, sm
    ensures detector.crds == Registered(old(detector.crds), steps)
    ensures ValidRounds(rounds)
    ensures |rounds| == |Snapshots(old(detector.crds), steps)|
    ensures forall r | 0 <= r < |rounds| ::
      (rounds[r].crds, rounds[r].query) == Snapshots(old(detector.crds), steps)[r]
    ensures Run(rounds, old(sm.states)) == TickOutcome(sm.states, invoked)
  {
    invoked, rounds := [], [];
    var i := 0;
    while i < |steps|
      invariant 0 <= i <= |steps|
      invariant detector.crds == Registered(old(detector.crds), steps[..i])
      invariant ValidRounds(rounds)
      invariant |rounds| == |Snapshots(old(detector.crds), steps[..i])|
      invariant forall r | 0 <= r < |rounds| ::
        (rounds[r].crds, rounds[r].query) == Snapshots(old(detector.crds), steps[..i])[r]
      invariant Run(rounds, old(sm.states)) == TickOutcome(sm.states, invoked)
    {
      assert steps[..i + 1][..i] == steps[..i];
      match steps[i] {
        case Register(crd, trigger) =>
          detector.AddCRDTrigger(crd, trigger);
        case Detect(query) =>
          ghost var table := detector.crds;
          var calls;
          ghost var order;
          calls, order := detector.AutoDetectCapabilities(sm, query);
          ghost var round := Round(table, order, query);
          assert (rounds + [round])[..|rounds|] == rounds;
          rounds := rounds + [round];
          invoked := invoked + calls;
      }
      i := i + 1;
    }
    assert steps[..|steps|] == steps;
  }
}
