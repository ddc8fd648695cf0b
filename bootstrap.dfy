/**
 The start-up side of the coordinator layer: choosing the coordinator class
 from the layer options, reconciling the reactive flags with the lock tables
 at the start of every hook, and registering that reconciliation once only.
 */
module Bootstrap {
  import opened Flags
  import opened ReactiveBus
  import opened Coordinator

  // ---------------------------------------------------------------------
  // Choosing the coordinator class
  // ---------------------------------------------------------------------

  /** A dotted class path taken apart into the module to import and the class name. */
  datatype ClassPath = ClassPath(moduleName: string, name: string)

  const DefaultClassName: string := "reactive.coordinator.SimpleCoordinator"
  const DefaultModule: string := "reactive.coordinator"

  /**
   The module and class name `_instantiate` derives from a dotted class
   path: the name is what follows the last dot, the module everything
   before it, and a path with no module part is looked up in
   `reactive.coordinator`.
   */
  function SplitClassPath(fullName: string): (r: ClassPath)
    ensures '.' !in r.name
    ensures '.' !in fullName ==> r == ClassPath(DefaultModule, fullName)
    ensures '.' in fullName ==>
      && |r.name| < |fullName|
      && fullName[|fullName| - |r.name| - 1] == '.'
      && fullName[|fullName| - |r.name|..] == r.name
      && r.moduleName == (if |fullName| - |r.name| - 1 == 0 then DefaultModule
                      else fullName[..|fullName| - |r.name| - 1])
  {
    var components := Split(fullName, '.', -1);
    var moduleName := Join('.', components[..|components| - 1]);
    var name := components[|components| - 1];
    LastFieldAfterLastSeparator(fullName, '.');
    ClassPath(if moduleName == "" then DefaultModule else moduleName, name)
  }

  /** `options.get('class', default_name)`, taken apart into module and class name. */
  function CoordinatorClass(options: map<string, string>): ClassPath
  {
    SplitClassPath(if "class" in options then options["class"] else DefaultClassName)
  }

  /** A path of three dot-free parts names the class after the second dot, in the module before it. */
  lemma SplitThreePartPath(a: string, b: string, c: string)
    requires '.' !in a && '.' !in b && '.' !in c
    ensures SplitClassPath(a + ['.'] + b + ['.'] + c) == ClassPath(a + ['.'] + b, c)
  {
    var fullName := a + ['.'] + b + ['.'] + c;
    assert fullName == a + ['.'] + (b + ['.'] + c);
    SplitFirstField(a, '.', b + ['.'] + c, -1);
    SplitFirstField(b, '.', c, -1);
    var components := Split(fullName, '.', -1);
    assert components == [a, b, c];
    assert components[..2] == [a, b];
    assert Join('.', [b]) == b;
  }

  /** The default path splits into the `reactive.coordinator` module and the `SimpleCoordinator` class. */
  lemma DefaultClassNameParts()
    ensures DefaultClassName == "reactive" + ['.'] + "coordinator" + ['.'] + "SimpleCoordinator"
    ensures DefaultModule == "reactive" + ['.'] + "coordinator"
    ensures '.' !in "reactive" && '.' !in "coordinator" && '.' !in "SimpleCoordinator"
  {
  }

  /** Without a `class` option the layer's own `SimpleCoordinator` is used. */
  lemma DefaultCoordinatorClass(options: map<string, string>)
    requires "class" !in options
    ensures CoordinatorClass(options) == ClassPath(DefaultModule, "SimpleCoordinator")
  {
    DefaultClassNameParts();
    SplitThreePartPath("reactive", "coordinator", "SimpleCoordinator");
  }

  // ---------------------------------------------------------------------
  // Reconciling the flags at the start of a hook
  // ---------------------------------------------------------------------

  /**
   The bus after `initialize_coordinator_state`, step by step as the code
   does it: set the requested flags, set the granted flags, remove the
   granted flags of locks no longer granted, remove the requested flags of
   locks neither requested nor granted.
   */
  function Reconciled(states: set<string>, requested: set<string>, granted: set<string>): set<string>
  {
    var previouslyRequested := FlaggedLocks(states, Requested);
    var previouslyGranted := FlaggedLocks(states, Granted);
    states + FlagsOf(Requested, requested) + FlagsOf(Granted, granted)
      - FlagsOf(Granted, previouslyGranted - granted)
      - FlagsOf(Requested, previouslyRequested - requested - granted)
  }

  /** `for lock in locks: set_state('coordinator.<kind>.{}'.format(lock))` */
  method SetFlags(bus: Bus, k: Kind, locks: set<string>)
    modifies bus
    ensures bus.states == old(bus.states) + FlagsOf(k, locks)
  {
    var todo := locks;
    while todo != {}
      invariant todo <= locks
      invariant bus.states == old(bus.states) + FlagsOf(k, locks - todo)
      decreases todo
    {
      var lock :| lock in todo;
      ghost var done := locks - todo;
      bus.SetState(FlagName(k, lock));
      todo := todo - {lock};
      assert locks - todo == done + {lock};
      FlagsOfAddOne(k, done, lock);
    }
    assert locks - todo == locks;
  }

  /** `for lock in locks: remove_state('coordinator.<kind>.{}'.format(lock))` */
  method RemoveFlags(bus: Bus, k: Kind, locks: set<string>)
    modifies bus
    ensures bus.states == old(bus.states) - FlagsOf(k, locks)
  {
    var todo := locks;
    while todo != {}
      invariant todo <= locks
      invariant bus.states == old(bus.states) - FlagsOf(k, locks - todo)
      decreases todo
    {
      var lock :| lock in todo;
      ghost var done := locks - todo;
      bus.RemoveState(FlagName(k, lock));
      todo := todo - {lock};
      assert locks - todo == done + {lock};
      FlagsOfAddOne(k, done, lock);
    }
    assert locks - todo == locks;
  }

  /**
   `initialize_coordinator_state()`: read the local unit's requested and
   granted locks and the locks flagged before the hook, then run the four
   loops that set and remove flags.
   */
  method InitializeCoordinatorState(bus: Bus, requests: Table, grants: Table, localUnit: string)
    modifies bus
    ensures bus.states == Reconciled(old(bus.states), LocalLocks(requests, localUnit), LocalLocks(grants, localUnit))
  {
    var requested := LocalLocks(requests, localUnit);
    var previouslyRequested := FlaggedLocks(bus.GetStates(), Requested);
    var granted := LocalLocks(grants, localUnit);
    var previouslyGranted := FlaggedLocks(bus.GetStates(), Granted);

    SetFlags(bus, Requested, requested);
    SetFlags(bus, Granted, granted);
    RemoveFlags(bus, Granted, previouslyGranted - granted);
    RemoveFlags(bus, Requested, previouslyRequested - requested - granted);
  }

  /**
   The reconciled bus in closed form: the states outside the coordinator's
   namespaces, the requested flags of the locks requested now or requested
   before and granted now, and the granted flags of exactly the granted locks.
   */
  lemma ReconciledForm(states: set<string>, requested: set<string>, granted: set<string>)
    ensures Reconciled(states, requested, granted)
         == OtherStates(states)
          + FlagsOf(Requested, requested + FlaggedLocks(states, Requested) * granted)
          + FlagsOf(Granted, granted)
  {
    var prevReq := FlaggedLocks(states, Requested);
    var prevGr := FlaggedLocks(states, Granted);
    var lhs := Reconciled(states, requested, granted);
    var rhs := OtherStates(states) + FlagsOf(Requested, requested + prevReq * granted) + FlagsOf(Granted, granted);
    forall s
      ensures s in lhs <==> s in rhs
    {
      PrefixesExclusive(s);
      FlagsOfMembership(Requested, requested, s);
      FlagsOfMembership(Requested, prevReq - requested - granted, s);
      FlagsOfMembership(Requested, requested + prevReq * granted, s);
      FlagsOfMembership(Granted, granted, s);
      FlagsOfMembership(Granted, prevGr - granted, s);
      if StartsWith(s, Prefix(Requested)) {
        FlaggedLocksMembership(states, Requested, LockOfFlag(s, Requested));
      }
      if StartsWith(s, Prefix(Granted)) {
        FlaggedLocksMembership(states, Granted, LockOfFlag(s, Granted));
      }
    }
  }

  /** The states outside the coordinator's namespaces have none of its flags. */
  lemma OtherStatesStable(states: set<string>)
    ensures OtherStates(OtherStates(states)) == OtherStates(states)
  {
  }

  /** After reconciliation the granted flags name exactly the granted locks. */
  lemma ReconciledGrantedFlags(states: set<string>, requested: set<string>, granted: set<string>)
    ensures FlaggedLocks(Reconciled(states, requested, granted), Granted) == granted
  {
    ReconciledForm(states, requested, granted);
    OtherStatesStable(states);
    FlagSetParts(OtherStates(states), requested + FlaggedLocks(states, Requested) * granted, granted);
  }

  /**
   After reconciliation the requested flags name the requested locks and the
   locks that were flagged requested before and are granted now: a granted
   lock keeps an old requested flag.
   */
  lemma ReconciledRequestedFlags(states: set<string>, requested: set<string>, granted: set<string>)
    ensures FlaggedLocks(Reconciled(states, requested, granted), Requested)
         == requested + FlaggedLocks(states, Requested) * granted
  {
    ReconciledForm(states, requested, granted);
    OtherStatesStable(states);
    FlagSetParts(OtherStates(states), requested + FlaggedLocks(states, Requested) * granted, granted);
  }

  /** Reconciliation leaves every state outside the coordinator's namespaces as it was. */
  lemma ReconciledKeepsOtherStates(states: set<string>, requested: set<string>, granted: set<string>)
    ensures OtherStates(Reconciled(states, requested, granted)) == OtherStates(states)
  {
    ReconciledForm(states, requested, granted);
    OtherStatesStable(states);
    FlagSetParts(OtherStates(states), requested + FlaggedLocks(states, Requested) * granted, granted);
  }

  /** A lock that is granted keeps the requested flag it had, whether or not it is still requested. */
  lemma ReconciledKeepsGrantedRequest(states: set<string>, requested: set<string>, granted: set<string>, lock: string)
    requires FlagName(Requested, lock) in states
    requires lock in granted
    ensures FlagName(Requested, lock) in Reconciled(states, requested, granted)
  {
    ReconciledRequestedFlags(states, requested, granted);
    FlaggedLocksMembership(states, Requested, lock);
    FlaggedLocksMembership(Reconciled(states, requested, granted), Requested, lock);
  }

  /** Reconciling a second time with the same requested and granted locks changes nothing. */
  lemma ReconciledIdempotent(states: set<string>, requested: set<string>, granted: set<string>)
    ensures Reconciled(Reconciled(states, requested, granted), requested, granted)
         == Reconciled(states, requested, granted)
  {
    var once := Reconciled(states, requested, granted);
    var req := requested + FlaggedLocks(states, Requested) * granted;
    ReconciledForm(states, requested, granted);
    ReconciledForm(once, requested, granted);
    OtherStatesStable(states);
    FlagSetParts(OtherStates(states), req, granted);
    assert requested + req * granted == req;
  }

  // ---------------------------------------------------------------------
  // Registering the reconciliation once
  // ---------------------------------------------------------------------

  /** A callback registered to run at the start of every hook. */
  datatype Hook = InitializeCoordinatorStateHook | OtherHook(name: string)

  /**
   The process-wide state the registration guard touches: the
   `_coordinator_registered` marker on the `charms.reactive` module and the
   list of start-of-hook callbacks `hookenv.atstart` appends to.
   */
  class Runtime {
    var coordinatorRegistered: bool
    var atstart: seq<Hook>

    /** The marker is set exactly when the reconciliation is registered, and it is registered at most once. */
    ghost predicate Valid()
      reads this
    {
      && (coordinatorRegistered <==> InitializeCoordinatorStateHook in atstart)
      && multiset(atstart)[InitializeCoordinatorStateHook] <= 1
    }

    /** A process in which the bootstrap module has not been imported yet. */
    constructor (hooks: seq<Hook>)
      requires InitializeCoordinatorStateHook !in hooks
      ensures Valid()
      ensures !coordinatorRegistered && atstart == hooks
    {
      coordinatorRegistered := false;
      atstart := hooks;
    }

    /**
     One import of the bootstrap module: the first registers the
     reconciliation and sets the marker; every later one skips the registration.
     */
    method ImportBootstrap()
      requires Valid()
      modifies this
      ensures Valid()
      ensures coordinatorRegistered
      ensures multiset(atstart)[InitializeCoordinatorStateHook] == 1
      ensures atstart == if old(coordinatorRegistered) then old(atstart)
                         else old(atstart) + [InitializeCoordinatorStateHook]
    {
      if !coordinatorRegistered {
        atstart := atstart + [InitializeCoordinatorStateHook];
        coordinatorRegistered := true;
      }
    }
  }
}
