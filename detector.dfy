/** The detector object and the state manager it shares with other detectors.
    Go ranges over maps in an unspecified order; the loops below visit the
    keys in an order they choose freely (`:|`), so what they are proved to do
    holds for every order. */
module AutoDetect {
  import opened Discovery
  import opened Detection

  /** The process-wide state manager: one "already fired" flag per kind name. */
  class StateManager {
    var states: States

    constructor ()
      ensures states == map[]
    {
      states := map[];
    }

    function GetState(kind: string): bool
      reads this
    {
      Fired(states, kind)
    }

    method SetState(kind: string, value: bool)
      modifies this
      ensures states == old(states)[kind := value]
    {
      states := states[kind := value];
    }
  }

  class Detector {
    /** The registration table: the trigger to run for each watched descriptor. */
    var crds: Table

    /** A new detector has an empty registration table. */
    constructor ()
      ensures crds == map[]
    {
      crds := map[];
    }

    /** Registers `trigger` for `crd`, replacing any trigger registered for it
        before; every other entry stays as it was. */
    method AddCRDTrigger(crd: Descriptor, trigger: Trigger)
      modifies this
      ensures crds == old(crds)[crd := trigger]
    {
      crds := crds[crd := trigger];
    }

    /** Registers the same trigger for every descriptor of the list. */
    method AddCRDsTrigger(list: seq<Descriptor>, trigger: Trigger)
      modifies this
      ensures crds == old(crds) + map d | d in list :: trigger
      ensures crds.Keys == old(crds).Keys + set d | d in list
      ensures forall d | d in list :: crds[d] == trigger
      ensures forall d | d in old(crds) && d !in list :: crds[d] == old(crds)[d]
    {
      var i := 0;
      while i < |list|
        invariant 0 <= i <= |list|
        invariant crds == old(crds) + map d | d in list[..i] :: trigger
      {
        assert list[..i + 1] == list[..i] + [list[i]];
        AddCRDTrigger(list[i], trigger);
        i := i + 1;
      }
      assert list[..|list|] == list;
    }

    /** Registers every pair of the map; the table becomes the old table
        overridden by the map, whatever order the pairs are visited in. */
    method AddCRDsWithTriggers(crdsTriggers: Table)
      modifies this
      ensures crds == old(crds) + crdsTriggers
    {
      var remaining := crdsTriggers.Keys;
      while remaining != {}
        invariant remaining <= crdsTriggers.Keys
        invariant crds == old(crds) + map d | d in crdsTriggers.Keys - remaining :: crdsTriggers[d]
        decreases |remaining|
      {
        var crd :| crd in remaining;
        AddCRDTrigger(crd, crdsTriggers[crd]);
        remaining := remaining - {crd};
      }
      assert (map d | d in crdsTriggers.Keys :: crdsTriggers[d]) == crdsTriggers;
    }

    /** Whether one ServerResources answer lists a resource of `kind` under
        `apiGroupVersion`; a failed listing reads as absent and passes on its
        error. */
    method ResourceExists(answer: ServerResources, apiGroupVersion: string, kind: string)
      returns (found: bool, err: Option<string>)
      ensures answer.Failed? ==> !found && err == Some(answer.error)
      ensures answer.Listed? ==> err == None && (found <==> Served(answer.lists, apiGroupVersion, kind))
    {
      if answer.Failed? {
        return false, Some(answer.error);
      }
      var apiLists := answer.lists;
      var i := 0;
      while i < |apiLists|
        invariant 0 <= i <= |apiLists|
        invariant forall a, r | 0 <= a < i && apiLists[a].groupVersion == apiGroupVersion &&
          0 <= r < |apiLists[a].resources| :: apiLists[a].resources[r].kind != kind
      {
        var apiList := apiLists[i];
        if apiList.groupVersion == apiGroupVersion {
          var j := 0;
          while j < |apiList.resources|
            invariant 0 <= j <= |apiList.resources|
            invariant forall r | 0 <= r < j :: apiList.resources[r].kind != kind
          {
            if apiList.resources[j].kind == kind {
              return true, None;
            }
            j := j + 1;
          }
        }
        i := i + 1;
      }
      return false, None;
    }

    /** One detection tick. Every registered descriptor is looked up once,
        with the answer `query` gives for it; when its resource exists and
        its kind's flag is not true, the flag is set and then its trigger is
        called. Returns the trigger calls, and (as a ghost) the order in which
        the table was visited: the tick is `Tick` for that order. */
    method AutoDetectCapabilities(sm: StateManager, query: Query)
      returns (invoked: seq<Invocation>, ghost order: seq<Descriptor>)
      modifies sm
      ensures IsEnumeration(order, crds.Keys)
      ensures Tick(crds, order, query, old(sm.states)) == TickOutcome(sm.states, invoked)
    {
      var remaining := crds.Keys;
      invoked, order := [], [];
      while remaining != {}
        invariant remaining <= crds.Keys
        invariant forall i | 0 <= i < |order| :: order[i] in crds && order[i] !in remaining
        invariant forall d | d in crds && d !in remaining :: d in order
        invariant forall i, j | 0 <= i < j < |order| :: order[i] != order[j]
        invariant Tick(crds, order, query, old(sm.states)) == TickOutcome(sm.states, invoked)
        decreases |remaining|
      {
        var crd :| crd in remaining;
        var trigger := crds[crd];
        var present, _ := ResourceExists(query(crd), crd.groupVersion, crd.kind);
        if present {
          if !sm.GetState(crd.kind) {
            sm.SetState(crd.kind, true);
            invoked := invoked + [Invocation(trigger, crd)];
          }
        }
        assert (order + [crd])[..|order|] == order;
        order := order + [crd];
        remaining := remaining - {crd};
      }
    }
  }
}
