# Capability auto-detector, modelled in Dafny

This project models the core of the auto-detector in `pkg/resource/detector/detector.go`.
An operator registers triggers for resource descriptors (CRDs). A background loop then asks
the cluster's discovery API, tick after tick, whether each registered resource kind is served.
The first time a kind is found, the loop sets that kind's flag in a process-wide state manager
and calls the trigger.

The model has five modules:

- `Discovery` (`discovery.dfy`): a `ServerResources` answer is either the API resource lists,
  one per group/version, or an error. `Served` and `Present` say when an answer lists a kind
  under a group/version. A failed listing counts as absent.
- `Detection` (`detection.dfy`): descriptors `(id, groupVersion, kind)`. The `id` stands for the
  identity of the registered `runtime.Object`, so two objects may share a GroupVersionKind.
  Triggers are opaque identities. A trigger call is logged as an `Invocation`. `Tick` is the
  specification of one tick for any order of the table: a left fold of `Visit` over that order.
- `TickProperties` (`tick_properties.dfy`): lemmas about one tick that hold for every order and
  every discovery answer.
- `Lifetime` (`lifetime.dfy`): a run of ticks sharing one state manager. Each round may use a
  different table (later registrations) or come from a different detector.
- `AutoDetect` (`detector.dfy`): the `Detector` class. It has the registration table as a `map`
  field and the `Add*` methods that update it in place. It also has the `ResourceExists` search
  loop and the tick method `AutoDetectCapabilities`. The tick updates a `StateManager` object
  step by step. The tick method returns the trigger calls it made. It also returns, as a ghost
  value, the order in which it visited the table, and its result is `Tick` for that order.
- `Scenarios` (`scenarios.dfy`): client methods built only from the contracts above. They cover
  re-registration, a resource that appears on the second tick, and two detectors that share
  one state manager. `Drive` runs any script of registrations and ticks on one detector and
  shows that the ticks' trigger calls are those of a `Lifetime.Run`.

Go leaves the order of a map range unspecified. The loops therefore pick the next key with
`:|`, so the verifier checks them for every order.

Two behaviours of the code matter for its users:

- The state flag is keyed by the kind name alone. So among descriptors that share a kind, only
  the first one visited whose own lookup finds it present fires, and no later tick fires that
  kind again. This holds even if they are registered in different groups/versions or by
  different detectors (`TickFiresFirstPresent`, `TickKindsDistinct`, `RunKindsDistinct`).
- A discovery error is dropped. The tick treats it as "not present" and leaves the flags alone
  (`TickWhenDiscoveryFails`).

Three facts about the code shape the model:

- The code keeps the table in a plain Go map, with no synchronisation.
- The code reads the flag and then sets it, with no atomic compare-and-swap.
- The code calls `ServerResources` again for every descriptor. So the model gives each
  descriptor's lookup its own answer (`Query`) rather than one snapshot per tick.

## Model

| member | source | states |
|---|---|---|
| AutoDetect.Detector.constructor | pkg/resource/detector/detector.go:21-26 | a new detector starts with an empty registration table |
| AutoDetect.Detector.AddCRDTrigger | pkg/resource/detector/detector.go:31-33 | the table maps `crd` to `trigger`, replacing any earlier trigger; every other entry is unchanged |
| AutoDetect.Detector.AddCRDsTrigger | pkg/resource/detector/detector.go:37-41 | afterwards every listed descriptor maps to the given trigger, unlisted entries keep their triggers, and the keys are the old keys plus the listed descriptors |
| AutoDetect.Detector.AddCRDsWithTriggers | pkg/resource/detector/detector.go:45-49 | the table becomes the old table overridden by the given map, for every order in which the map's pairs are visited |
| AutoDetect.Detector.ResourceExists | pkg/resource/detector/detector.go:86-101 | a failed listing gives false and that listing's error; otherwise no error, and true exactly when some list of the group/version has a resource of the kind |
| AutoDetect.Detector.AutoDetectCapabilities | pkg/resource/detector/detector.go:71-83 | visits every registered descriptor exactly once in some order; the flags and trigger calls it leaves are those of the specification `Tick` for that order |
| TickProperties.TickStates | pkg/resource/detector/detector.go:75-79 | after a tick the flags are the old flags with exactly the kinds of the called triggers set to true |
| TickProperties.TickNeverClears | pkg/resource/detector/detector.go:76-79 | a tick never sets a flag to false; flags of kinds whose trigger was not called are unchanged; the flag of every kind whose trigger was called is true |
| TickProperties.TickInvocationsSound | pkg/resource/detector/detector.go:72-80 | each trigger call is for a visited descriptor with its registered trigger, made only if its resource was listed and its kind's flag was not true when the tick began |
| TickProperties.TickKindsDistinct | pkg/resource/detector/detector.go:72-82 | within one tick no two trigger calls are for the same kind, even when several descriptors share that kind |
| TickProperties.TickMarksPresent | pkg/resource/detector/detector.go:75-79 | after a tick, every visited descriptor whose resource was listed has its kind's flag true |
| TickProperties.TickFiresNewlyPresent | pkg/resource/detector/detector.go:75-80 | a listed descriptor whose kind's flag was not true gets a trigger of its kind called in that tick |
| TickProperties.TickPrefixCalls | pkg/resource/detector/detector.go:72-80 | every trigger call made while visiting a prefix of the order is also made by the whole tick |
| TickProperties.TickFiresFirstPresent | pkg/resource/detector/detector.go:72-80 | of descriptors sharing an unflagged kind, the trigger called is that of the first one visited whose own lookup lists it (and, with TickKindsDistinct, the only call of that kind) |
| TickProperties.TickQuiescent | pkg/resource/detector/detector.go:75-77 | if every listed descriptor's kind is already flagged, the tick calls no trigger and changes no flag |
| TickProperties.TickWhenDiscoveryFails | pkg/resource/detector/detector.go:74-79 | if every discovery call fails, the tick calls no trigger and changes no flag |
| TickProperties.SecondTickFiresNothing | pkg/resource/detector/detector.go:71-83 | a second tick with the same discovery answers calls nothing and changes nothing, for any orders of both ticks |
| Lifetime.RunStates | pkg/resource/detector/detector.go:56-83 | across any number of ticks the flags change only by the kinds of called triggers becoming true |
| Lifetime.RunKindsDistinct | pkg/resource/detector/detector.go:56-83 | across all ticks sharing a state manager, no kind's trigger is called twice, and none is called for a kind already flagged at the start |
| Lifetime.RunInvocationsSound | pkg/resource/detector/detector.go:56-83 | every trigger call of a run comes from a tick that visited the descriptor, held that trigger for it, and got an answer listing its resource |
| Lifetime.RunMarksPresent | pkg/resource/detector/detector.go:56-83 | any descriptor found present by any tick has its kind flagged at the end of the run |
| Lifetime.RunFiresExactlyOnce | pkg/resource/detector/detector.go:56-83 | once some tick finds an unflagged kind present, the run calls exactly one trigger of that kind |
| Scenarios.LatestRegistrationFires | pkg/resource/detector/detector.go:31-33 | after registering one descriptor twice, a tick that finds it present calls only the later trigger |
| Scenarios.FiresOnceWhenItAppears | pkg/resource/detector/detector.go:71-83 | absent on tick 1, present on ticks 2 and 3: the trigger is called once, on tick 2 |
| Scenarios.SharedStateFiresOnce | pkg/resource/detector/detector.go:76-78 | two detectors sharing a state manager and watching the same kind: only the first to tick calls its trigger |
| Scenarios.Drive | pkg/resource/detector/detector.go:31-83 | registrations and ticks on one detector leave the table the registrations build, and the ticks' trigger calls and final flags are those of `Lifetime.Run` over rounds holding the table and answers each tick saw |

## Left out

- `Start` and `Stop` are left out: the goroutine, the `time.Ticker`, and the scaling of
  `interval` by `time.Second`. Also left out: the unguarded double start and the nil-ticker
  fault of a stop without a start. These are timers and concurrency. A run of ticks is
  modelled instead as a sequence of rounds (`Lifetime.Run`).
- `SubscriptionChannel` is left out. It is created and closed but never sent on.
- The `discovery.DiscoveryInterface` client and its `ServerResources` call become a
  parameter: the answer each descriptor's lookup gets in that tick (`Query`). The `dc` field
  and `NewAutoDetect`'s always-nil error are not modelled.
- `GetStateManager` and its locking are not shown in the source. The state manager is a
  `StateManager` object holding a `map<string, bool>`, passed to the tick method. An unset
  kind reads as false.
- Overlapping ticks and registration concurrent with a tick are not modelled. The model is
  sequential, so the race left open by the separate get and set is not modelled either.
- `runtime.Object` identity and GroupVersionKind extraction, including how
  `GroupVersion().String()` formats group and version, are not modelled. A descriptor carries
  an identity, the group/version string and the kind directly.
- Triggers are opaque. Their effects and panics are not modelled; only calls are recorded.
