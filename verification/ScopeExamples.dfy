/**
 * Two switches, of which the gate may only be on while the guard is on: an
 * accepted draft or rollback, or scopes that are each in order, leave a
 * configuration that is not.
 */
module ScopeExamples {
  import opened Documents
  import opened Ordering
  import opened Registry
  import opened EffectiveConfig
  import opened Drafts
  import opened RegistryService
  import opened ScopeLists
  import opened ScopeHistory

  const GATE := "a.gate"
  const GUARD := "a.guard"
  const PACK := ScopeRef(Pack, "k")
  const PROJECT := ScopeRef(Project, "p")

  function Setting(on: bool): Raw {
    Text(Bool(on), 0)
  }

  function NeedsGuard(): Relation {
    Relation(GUARD, Equals, Setting(true), Setting(true))
  }

  function Switch(key: string, fallback: bool, dependencies: seq<Relation>): Descriptor {
    Descriptor(
      key, {BuiltIn, System, Pack, Project}, Setting(fallback), false, Live, dependencies, [], true, true, false,
      (j: Json) => j.Bool?)
  }

  function GateRegistry(): Registry {
    map[GATE := Switch(GATE, false, [NeedsGuard()]), GUARD := Switch(GUARD, true, [])]
  }

  // ------------------------------------------------------------ the two switches

  /** What matters of a switch. */
  ghost predicate IsSwitch(d: Descriptor, key: string, fallback: bool, dependencies: seq<Relation>) {
    && d.key == key && d.permitted == {BuiltIn, System, Pack, Project} && !d.secret && !d.bootstrapControlled
    && d.fallback == Setting(fallback) && d.dependencies == dependencies && d.incompatibilities == []
    && forall on :: d.validator(Bool(on))
  }

  ghost predicate IsGate(registry: Registry) {
    && registry.Keys == {GATE, GUARD}
    && IsSwitch(registry[GATE], GATE, false, [NeedsGuard()]) && IsSwitch(registry[GUARD], GUARD, true, [])
  }

  lemma GateRegistryIsGate()
    ensures IsGate(GateRegistry())
  {
  }

  lemma SwitchAccepts(registry: Registry, key: string)
    requires IsGate(registry) && key in registry
    ensures IsSwitch(registry[key], key, key == GUARD, if key == GATE then [NeedsGuard()] else [])
    ensures forall on :: Accepts(registry[key], Setting(on))
  {
    assert GATE != GUARD;
  }

  lemma GateIsValid(registry: Registry)
    requires IsGate(registry)
    ensures ValidRegistry(registry)
  {
    forall key | key in registry ensures Accepts(registry[key], registry[key].fallback) && registry[key].key == key {
      SwitchAccepts(registry, key);
    }
    SwitchAccepts(registry, GATE);
    SwitchAccepts(registry, GUARD);
    assert ValidRelation(registry, registry[GATE], NeedsGuard());
  }

  lemma GateConsistent(registry: Registry, values: Values, gate: bool, guard: bool)
    requires IsGate(registry) && values.Keys == {GATE, GUARD}
    requires values[GATE] == Setting(gate) && values[GUARD] == Setting(guard)
    ensures Consistent(registry, values) <==> (gate ==> guard)
  {
    assert GATE != GUARD && GATE != INPUT_BUDGET && GUARD != INPUT_BUDGET;
    assert NeedsGuard() in registry[GATE].dependencies;
    assert forall r :: r in registry[GATE].dependencies ==> r == NeedsGuard();
    assert Holds(registry[GUARD], values);
    assert Holds(registry[GATE], values) <==> !DependencyBroken(registry[GATE], NeedsGuard(), values);
  }

  // --------------------------------------------------------------- lists of scopes

  /** The scope has the switch set like this. */
  predicate Sets(store: Store, scope: ScopeRef, key: string, on: bool) {
    && key in StateOf(store, scope).values
    && var v := StateOf(store, scope).values[key];
       v.value == Setting(on) && !v.secret && v.version >= 1 && v.revision != ""
  }

  predicate Lacks(store: Store, scope: ScopeRef, key: string) {
    key !in StateOf(store, scope).values
  }

  /** The list resolves the switch to this setting. */
  predicate Shows(registry: Registry, store: Store, scopes: seq<ScopeRef>, key: string, on: bool)
    requires key in registry
  {
    Resolves(registry[key], Stack(store, scopes, key)) && Top(registry[key], Stack(store, scopes, key)) == Setting(on)
  }

  lemma ListShows(registry: Registry, store: Store, scopes: seq<ScopeRef>, gate: bool, guard: bool)
    requires IsGate(registry) && AllowedScopes(scopes)
    requires Shows(registry, store, scopes, GATE, gate) && Shows(registry, store, scopes, GUARD, guard)
    ensures ListConsistent(registry, store, scopes) <==> (gate ==> guard)
  {
    ListEffective(registry, store, scopes);
    GateConsistent(registry, Tops(registry, store, scopes), gate, guard);
  }

  /** One scope of the list sets the switch. */
  lemma OneSets(registry: Registry, store: Store, scopes: seq<ScopeRef>, key: string, at: ScopeRef, on: bool)
    requires IsGate(registry) && key in registry && AllowedScopes(scopes) && at in scopes
    requires at.kind in {System, Pack, Project} && Sets(store, at, key, on)
    requires forall s :: s in scopes && s != at ==> Lacks(store, s, key)
    ensures Shows(registry, store, scopes, key, on)
  {
    var stack, own := Stack(store, scopes, key), Scoped(key, at, StateOf(store, at).values[key]);
    AllowedMembers(scopes);
    SortedScopes(scopes);
    SwitchAccepts(registry, key);
    assert Admissible(registry[key], own);
    forall v | v in stack ensures v == own { LayeredMembers(store, SortBy(scopes, LowerScope), key, v); }
    LayeredMembers(store, SortBy(scopes, LowerScope), key, own);
    assert own in stack && stack[|stack| - 1] in stack;
  }

  lemma NoneSets(registry: Registry, store: Store, scopes: seq<ScopeRef>, key: string)
    requires IsGate(registry) && key in registry && AllowedScopes(scopes)
    requires forall s :: s in scopes ==> Lacks(store, s, key)
    ensures Shows(registry, store, scopes, key, key == GUARD)
  {
    SortedScopes(scopes);
    SwitchAccepts(registry, key);
    if Stack(store, scopes, key) != [] {
      LayeredMembers(store, SortBy(scopes, LowerScope), key, Stack(store, scopes, key)[0]);
    }
  }

  lemma ScopesAllowed()
    ensures ValidScope(PACK) && ValidScope(PROJECT)
    ensures AllowedScopes(Chain(SYSTEM_SCOPE)) && AllowedScopes(Chain(PACK)) && AllowedScopes(Chain(PROJECT))
    ensures AllowedScopes([SYSTEM_SCOPE, PACK, PROJECT])
  {
    assert PACK.id[0] == 'k' && 'k' in PACK.id && PROJECT.id[0] == 'p' && 'p' in PROJECT.id;
    ChainAllowed(SYSTEM_SCOPE);
    ChainAllowed(PACK);
    ChainAllowed(PROJECT);
    assert [SYSTEM_SCOPE, PACK, PROJECT][..2] == Chain(PACK);
  }

  /** Only these scopes of the list set the switches. */
  lemma GateAndGuard(
    registry: Registry, store: Store, scopes: seq<ScopeRef>, gate: Option<ScopeRef>, guard: Option<ScopeRef>)
    requires IsGate(registry) && AllowedScopes(scopes)
    requires gate.Some? ==>
      gate.value in scopes && gate.value.kind in {System, Pack, Project} && Sets(store, gate.value, GATE, true)
    requires guard.Some? ==>
      guard.value in scopes && guard.value.kind in {System, Pack, Project} && Sets(store, guard.value, GUARD, false)
    requires forall s :: s in scopes && Some(s) != gate ==> Lacks(store, s, GATE)
    requires forall s :: s in scopes && Some(s) != guard ==> Lacks(store, s, GUARD)
    ensures ListConsistent(registry, store, scopes) <==> gate.None? || guard.None?
  {
    assert GATE != GUARD;
    if gate.Some? {
      OneSets(registry, store, scopes, GATE, gate.value, true);
    } else {
      NoneSets(registry, store, scopes, GATE);
    }
    if guard.Some? {
      OneSets(registry, store, scopes, GUARD, guard.value, false);
    } else {
      NoneSets(registry, store, scopes, GUARD);
    }
    ListShows(registry, store, scopes, gate.Some?, guard.None?);
  }

  lemma SystemChain(registry: Registry, store: Store, off: bool)
    requires IsGate(registry) && Lacks(store, SYSTEM_SCOPE, GATE)
    requires if off then Sets(store, SYSTEM_SCOPE, GUARD, false) else Lacks(store, SYSTEM_SCOPE, GUARD)
    ensures ChainConsistent(registry, store, SYSTEM_SCOPE)
  {
    ScopesAllowed();
    GateAndGuard(registry, store, Chain(SYSTEM_SCOPE), None, if off then Some(SYSTEM_SCOPE) else None);
  }

  /** A project may have the gate on, and the system scope the guard off. */
  lemma ProjectChain(registry: Registry, store: Store, on: bool, off: bool)
    requires IsGate(registry) && Lacks(store, SYSTEM_SCOPE, GATE) && Lacks(store, PROJECT, GUARD)
    requires if on then Sets(store, PROJECT, GATE, true) else Lacks(store, PROJECT, GATE)
    requires if off then Sets(store, SYSTEM_SCOPE, GUARD, false) else Lacks(store, SYSTEM_SCOPE, GUARD)
    ensures ChainConsistent(registry, store, PROJECT) <==> !(on && off)
  {
    ScopesAllowed();
    ChainMembers(PROJECT);
    GateAndGuard(registry, store, Chain(PROJECT), if on then Some(PROJECT) else None,
      if off then Some(SYSTEM_SCOPE) else None);
  }

  lemma ChainMembers(scope: ScopeRef)
    ensures forall s :: s in Chain(scope) ==> s == SYSTEM_SCOPE || s == scope
    ensures SYSTEM_SCOPE in Chain(scope) && (!scope.kind.System? ==> scope in Chain(scope))
  {
  }

  // ------------------------------------------------------------- a system draft

  const GATE_ON := StoredValue(Setting(true), true, false, 1, "r")
  const GUARD_OFF := StoredValue(Setting(false), true, false, 1, "r")

  function Setter(key: string, on: bool): ScopeChange {
    ScopeChange(key, Setting(on), true, false)
  }

  /** One change put in a scope. */
  lemma OneChange(store: Store, at: ScopeRef, key: string, on: bool, revision: string, scope: ScopeRef, other: string)
    requires revision != "" && StateOf(store, at).version >= 0
    ensures var after := Updated(store, at, [Setter(key, on)], revision);
      && Sets(after, at, key, on)
      && (scope != at || other != key ==> (Lacks(after, scope, other) <==> Lacks(store, scope, other)))
      && forall set_ :: scope != at ==> (Sets(after, scope, other, set_) <==> Sets(store, scope, other, set_))
  {
    var changes := [Setter(key, on)];
    assert changes[..0] == [] && changes[0] == Setter(key, on);
    assert ApplyChanges(StateOf(store, at).values, changes[..0], StateOf(store, at).version + 1, revision)
        == StateOf(store, at).values;
  }

  /** The project has the gate on. */
  function GateOnStore(): Store {
    map[PROJECT := ScopeState(1, map[GATE := GATE_ON])]
  }

  lemma GateOnFacts(store: Store)
    requires store == GateOnStore()
    ensures Sets(store, PROJECT, GATE, true) && Lacks(store, PROJECT, GUARD)
    ensures forall key :: Lacks(store, SYSTEM_SCOPE, key)
    ensures StateOf(store, SYSTEM_SCOPE).version == 0
  {
    assert GATE != GUARD;
  }

  function SwitchOff(): DraftEntry {
    DraftEntry(GUARD, Setting(false), false, false, true)
  }

  lemma SwitchOffValidates(registry: Registry)
    requires IsGate(registry)
    ensures Validate(registry, SYSTEM_SCOPE, [SwitchOff()]) == Report(true, [], [SwitchOff()], false)
  {
    var entries := [SwitchOff()];
    SwitchAccepts(registry, GUARD);
    assert entries[..0] == [] && entries[0] == SwitchOff();
    assert Review(registry, SYSTEM_SCOPE, entries[..0]) == Report(true, [], [], false);
    assert Judge(registry, SYSTEM_SCOPE, SwitchOff()) == Accepted(SwitchOff());
  }

  lemma SwitchOffChanges()
    ensures ToChanges([SwitchOff()]) == [Setter(GUARD, false)]
  {
  }

  /** The store once the guard is off at the system scope. */
  lemma GuardOffFacts(store: Store, after: Store)
    requires store == GateOnStore() && after == Updated(store, SYSTEM_SCOPE, [Setter(GUARD, false)], "s")
    ensures Sets(after, SYSTEM_SCOPE, GUARD, false) && Lacks(after, SYSTEM_SCOPE, GATE)
    ensures Sets(after, PROJECT, GATE, true) && Lacks(after, PROJECT, GUARD)
  {
    assert GATE != GUARD;
    GateOnFacts(store);
    OneChange(store, SYSTEM_SCOPE, GUARD, false, "s", PROJECT, GATE);
    OneChange(store, SYSTEM_SCOPE, GUARD, false, "s", PROJECT, GUARD);
    OneChange(store, SYSTEM_SCOPE, GUARD, false, "s", SYSTEM_SCOPE, GATE);
  }

  lemma SystemChains(registry: Registry, store: Store, after: Store)
    requires IsGate(registry) && store == GateOnStore()
    requires after == Updated(store, SYSTEM_SCOPE, [Setter(GUARD, false)], "s")
    ensures ChainConsistent(registry, store, SYSTEM_SCOPE) && ChainConsistent(registry, store, PROJECT)
    ensures ChainConsistent(registry, after, SYSTEM_SCOPE) && !ChainConsistent(registry, after, PROJECT)
  {
    GateOnFacts(store);
    GuardOffFacts(store, after);
    SystemChain(registry, store, false);
    ProjectChain(registry, store, true, false);
    SystemChain(registry, after, true);
    ProjectChain(registry, after, true, true);
  }

  lemma SwitchOffDecision(registry: Registry, store: Store)
    requires IsGate(registry) && StateOf(store, SYSTEM_SCOPE).version == 0
    requires ChainConsistent(registry, store, SYSTEM_SCOPE)
    requires ChainConsistent(registry, Updated(store, SYSTEM_SCOPE, [Setter(GUARD, false)], "s"), SYSTEM_SCOPE)
    ensures Decision(registry, store, Draft(SYSTEM_SCOPE, Reviewed, 0, 1, [SwitchOff()]), 1, false)
         == Success([Setter(GUARD, false)])
  {
    GateIsValid(registry);
    SwitchOffValidates(registry);
    SwitchOffChanges();
    AcceptedExactlyWhenConsistent(registry, store, SYSTEM_SCOPE, [SwitchOff()], "s");
  }

  /**
   * The check of a system draft looks at the system scope alone, so an
   * accepted one can leave a project that was consistent inconsistent.
   */
  lemma SystemDraftCanBreakProject(registry: Registry, store: Store)
    requires registry == GateRegistry() && store == GateOnStore()
    ensures ValidRegistry(registry) && ChainConsistent(registry, store, PROJECT)
    ensures var decision := Decision(registry, store, Draft(SYSTEM_SCOPE, Reviewed, 0, 1, [SwitchOff()]), 1, false);
      decision.Success? && !ChainConsistent(registry, Updated(store, SYSTEM_SCOPE, decision.value, "s"), PROJECT)
  {
    GateRegistryIsGate();
    GateIsValid(registry);
    GateOnFacts(store);
    SystemChains(registry, store, Updated(store, SYSTEM_SCOPE, [Setter(GUARD, false)], "s"));
    SwitchOffDecision(registry, store);
  }

  // ------------------------------------------------------------------ a rollback

  /** The guard is off at the system scope, and the project has nothing set. */
  function GuardOffStore(): Store {
    map[SYSTEM_SCOPE := ScopeState(1, map[GUARD := GUARD_OFF]), PROJECT := ScopeState(2, map[])]
  }

  /** The state of the project when it had the gate on. */
  const EARLIER := Revision(PROJECT, ScopeState(1, map[GATE := GATE_ON]))

  lemma SingleSorted(key: string)
    ensures Sorted({key}) == [key]
  {
    assert |{key}| == 1 && Sorted({key})[0] in Sorted({key});
  }

  lemma RollbackOfGate(registry: Registry, target: Stored, current: Stored)
    requires IsGate(registry) && target == map[GATE := GATE_ON] && current == map[]
    ensures RollbackChanges(registry, target, current, false) == Success([Setter(GATE, true)])
  {
    var keys := [GATE];
    assert target.Keys + current.Keys == {GATE};
    SingleSorted(GATE);
    assert keys[..0] == [] && keys != [] && keys[|keys| - 1] == GATE;
    assert RollbackKeys(registry, target, current, false, keys[..0]) == Success([]);
    assert RollbackKey(registry, target, current, false, GATE) == Emit(Setter(GATE, true));
    assert [] + [Setter(GATE, true)] == [Setter(GATE, true)];
    assert RollbackKeys(registry, target, current, false, keys) == Success([Setter(GATE, true)]);
  }

  lemma RollbackToGateOn(registry: Registry, store: Store)
    requires IsGate(registry) && store == GuardOffStore()
    ensures RollbackDecision(registry, store, EARLIER, 2, false) == Success([Setter(GATE, true)])
  {
    assert StateOf(store, PROJECT) == ScopeState(2, map[]) && EARLIER.scope == PROJECT;
    RollbackOfGate(registry, EARLIER.state.values, StateOf(store, PROJECT).values);
  }

  lemma RolledBackFacts(store: Store, after: Store)
    requires store == GuardOffStore() && after == Updated(store, PROJECT, [Setter(GATE, true)], "t")
    ensures Sets(store, SYSTEM_SCOPE, GUARD, false) && Lacks(store, SYSTEM_SCOPE, GATE)
    ensures Lacks(store, PROJECT, GATE) && Lacks(store, PROJECT, GUARD)
    ensures Sets(after, SYSTEM_SCOPE, GUARD, false) && Lacks(after, SYSTEM_SCOPE, GATE)
    ensures Sets(after, PROJECT, GATE, true) && Lacks(after, PROJECT, GUARD)
  {
    assert GATE != GUARD;
    OneChange(store, PROJECT, GATE, true, "t", SYSTEM_SCOPE, GUARD);
    OneChange(store, PROJECT, GATE, true, "t", SYSTEM_SCOPE, GATE);
    OneChange(store, PROJECT, GATE, true, "t", PROJECT, GUARD);
  }

  lemma ProjectChains(registry: Registry, store: Store, after: Store)
    requires IsGate(registry) && store == GuardOffStore()
    requires after == Updated(store, PROJECT, [Setter(GATE, true)], "t")
    ensures ChainConsistent(registry, store, PROJECT) && !ChainConsistent(registry, after, PROJECT)
  {
    RolledBackFacts(store, after);
    ProjectChain(registry, store, false, true);
    ProjectChain(registry, after, true, true);
  }

  /**
   * A project that had the gate on and turned it off before the guard went off
   * at the system scope: rolling it back is accepted, and leaves it inconsistent.
   */
  lemma RollbackCanBreakChain(registry: Registry, store: Store)
    requires registry == GateRegistry() && store == GuardOffStore()
    ensures ValidRegistry(registry) && ChainConsistent(registry, store, PROJECT)
    ensures var decision := RollbackDecision(registry, store, EARLIER, 2, false);
      decision.Success? && !ChainConsistent(registry, Updated(store, PROJECT, decision.value, "t"), PROJECT)
  {
    GateRegistryIsGate();
    GateIsValid(registry);
    RollbackToGateOn(registry, store);
    ProjectChains(registry, store, Updated(store, PROJECT, [Setter(GATE, true)], "t"));
  }

  // ---------------------------------------------------------------- longer lists

  /** A pack has the guard off, a project the gate on. */
  function PackAndProject(): Store {
    map[PACK := ScopeState(1, map[GUARD := GUARD_OFF]), PROJECT := ScopeState(1, map[GATE := GATE_ON])]
  }

  lemma PackAndProjectFacts(store: Store)
    requires store == PackAndProject()
    ensures Sets(store, PACK, GUARD, false) && Lacks(store, PACK, GATE)
    ensures Sets(store, PROJECT, GATE, true) && Lacks(store, PROJECT, GUARD)
    ensures Lacks(store, SYSTEM_SCOPE, GATE) && Lacks(store, SYSTEM_SCOPE, GUARD)
  {
    assert GATE != GUARD && PACK != PROJECT;
  }

  /**
   * Drafts are checked on the chain of their own scope, so the scopes of a job
   * can each be consistent on the system scope and not be together.
   */
  lemma ChainsDoNotMakeList(registry: Registry, store: Store, scopes: seq<ScopeRef>)
    requires registry == GateRegistry() && store == PackAndProject() && scopes == [SYSTEM_SCOPE, PACK, PROJECT]
    ensures ValidRegistry(registry) && AllowedScopes(scopes)
    ensures ChainConsistent(registry, store, PACK) && ChainConsistent(registry, store, PROJECT)
    ensures !ListConsistent(registry, store, scopes)
  {
    GateRegistryIsGate();
    GateIsValid(registry);
    PackAndProjectFacts(store);
    PackChain(registry, store);
    ProjectChain(registry, store, true, false);
    ThreeAllowed(scopes);
    ThreeScopes(registry, store, scopes);
  }

  lemma ThreeAllowed(scopes: seq<ScopeRef>)
    requires scopes == [SYSTEM_SCOPE, PACK, PROJECT]
    ensures AllowedScopes(scopes) && PACK in scopes && PROJECT in scopes
    ensures forall s :: s in scopes ==> s == SYSTEM_SCOPE || s == PACK || s == PROJECT
  {
    ScopesAllowed();
  }

  lemma PackChain(registry: Registry, store: Store)
    requires IsGate(registry) && Lacks(store, SYSTEM_SCOPE, GATE) && Lacks(store, SYSTEM_SCOPE, GUARD)
    requires Lacks(store, PACK, GATE) && Sets(store, PACK, GUARD, false)
    ensures ChainConsistent(registry, store, PACK)
  {
    ScopesAllowed();
    ChainMembers(PACK);
    GateAndGuard(registry, store, Chain(PACK), None, Some(PACK));
  }

  lemma ThreeScopes(registry: Registry, store: Store, scopes: seq<ScopeRef>)
    requires IsGate(registry) && AllowedScopes(scopes) && PACK in scopes && PROJECT in scopes
    requires forall s :: s in scopes ==> s == SYSTEM_SCOPE || s == PACK || s == PROJECT
    requires Sets(store, PACK, GUARD, false) && Lacks(store, PACK, GATE)
    requires Sets(store, PROJECT, GATE, true) && Lacks(store, PROJECT, GUARD)
    requires Lacks(store, SYSTEM_SCOPE, GATE) && Lacks(store, SYSTEM_SCOPE, GUARD)
    ensures !ListConsistent(registry, store, scopes)
  {
    GateAndGuard(registry, store, scopes, Some(PROJECT), Some(PACK));
  }
}
