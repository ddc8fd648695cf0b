# Juju coordinator layer: reactive flags and grant policy

This project models the core of the Juju "coordinator" charm layer in Dafny.
The layer serialises operations across the units of an application through
named locks. The model covers five pieces:

- **Flag reconciliation.** `initialize_coordinator_state` runs at the start
  of every hook. It reads the locks the local unit has requested and been
  granted, and the `coordinator.requested.<lock>` and
  `coordinator.granted.<lock>` flags already on the reactive state bus. It
  then sets and removes flags in four loops. `Bootstrap.InitializeCoordinatorState`
  models this over a `ReactiveBus.Bus` object, which holds a set of state
  names. Its new state is tied to `Bootstrap.Reconciled`, which applies the
  four loops' additions and removals as set operations, in the code's order.
  `Bootstrap.ReconciledForm` restates that result in closed form, and other
  lemmas prove what it means.
- **Flag names.** Lock names come back out of flag names through
  `state.split('.', 2)[2]`. `Flags.Split` and `Flags.Join` model Python's
  `str.split` (with a `maxsplit`) and `str.join` for a one-character
  separator. The lemmas show that parsing a flag gives back its lock name,
  even when the name contains dots.
- **Choosing the coordinator class.** `_instantiate` splits a dotted class
  path into a module and a class name. `Bootstrap.SplitClassPath` models
  that split.
- **Registering once.** The bootstrap module may be imported several
  times. A marker on `charms.reactive` makes sure the reconciliation hook is
  registered only once. `Bootstrap.Runtime.ImportBootstrap` models that
  registration guard (bootstrap.py:105-107) as it runs on each import. The
  rest of each import is not part of it: `_instantiate()` also runs again
  and rebinds the coordinator singleton, with no guard (bootstrap.py:53-54).
- **The client entry point and the grant policy.** `acquire` records the
  base coordinator's answer as one flag (`Coordinator.Acquire`).
  `SimpleCoordinator.default_grant` is the single-holder policy
  (`Coordinator.DefaultGrant`).

The lock tables live in the charm-helpers base coordinator, which is not
part of this model. They are inputs of type `Coordinator.Table`: a map from
unit name to a map from lock name to timestamp. The local unit's name is a
parameter too. So is the answer of the base coordinator's `acquire`.

Where the comments and the code disagree, the model follows the code:

- The docstring of `initialize_coordinator_state` says that every granted
  lock loses its requested flag. The code does not do that. Its last loop
  removes only the requested flags of locks that are neither requested nor
  granted. So after reconciliation, the requested flags name the requested
  locks plus the previously requested locks that are now granted
  (`Bootstrap.ReconciledRequestedFlags`, `Bootstrap.ReconciledKeepsGrantedRequest`).
- `default_grant` tests the literal key `"unit"`, not the unit it is asked
  about. The comment above that test describes the second reading. The
  model states the code as written and records the difference under
  "## Findings".
- The comments speak of units that "have been granted any lock". The code's
  `if self.grants:` asks only whether the table has an entry at all. The
  intended decision (`Coordinator.IntendedGrant`) counts as holders only the
  units whose entry names a lock (`Coordinator.Holders`).

## Model

| member | source | states |
|---|---|---|
| `Flags.StartsWith` | reactive/coordinator/bootstrap.py:72-77 | Python's `state.startswith(prefix)`: the prefix is no longer than the state, and the state is the prefix followed by the rest of the state |
| `Flags.Split` | reactive/coordinator/bootstrap.py:30 | like Python's `str.split`, splitting yields at least one field and at most `maxsplit + 1` fields; with a separator present and splits allowed it yields at least two; a string without the separator is one field |
| `Flags.Join` | reactive/coordinator/bootstrap.py:31 | like Python's `'.'.join`, the result starts with the first field; with two or more fields a separator follows the first field; its length is the fields' total length plus one separator per gap |
| `Flags.JoinSplit` | reactive/coordinator/bootstrap.py:30-32 | joining the fields of a split with the same separator gives back the original string, for every split limit |
| `Flags.LastFieldAfterLastSeparator` | reactive/coordinator/bootstrap.py:30-32 | with no split limit, the last field holds no separator; without a separator it is the whole string; otherwise it is the text after the last separator, and the join of the other fields is the text before it |
| `Flags.SplitAtLastSeparator` | reactive/coordinator/bootstrap.py:30-32 | when the string holds a separator, an unlimited split has at least two fields; the last one follows the last separator, and the join of the others is the text before it |
| `Flags.SplitFieldsLackSeparator` | reactive/coordinator/bootstrap.py:30-32 | with no split limit, no field contains the separator |
| `Flags.JoinLast` | reactive/coordinator/bootstrap.py:31-32 | a join of two or more fields is the join of all but the last, a separator, and the last field |
| `Flags.SplitFirstField` | reactive/coordinator/bootstrap.py:70 | a first field without the separator is split off at the separator right after it, and the rest is split with one split fewer |
| `Flags.SplitFlagName` | reactive/coordinator/bootstrap.py:70-72 | `('coordinator.<kind>.' + lock).split('.', 2)` is exactly `['coordinator', kind, lock]`, whatever dots the lock name contains |
| `Flags.FlagName` | reactive/coordinator/bootstrap.py:82-87 | `'coordinator.<kind>.{}'.format(lock)`: the name starts with the namespace prefix, and what follows the prefix is exactly the lock name |
| `Flags.SplitTwoFields` | reactive/coordinator/bootstrap.py:70 | `(a + '.' + b + '.' + rest).split('.', 2)` with dot-free `a` and `b` is exactly `[a, b, rest]`, whatever dots `rest` holds |
| `Flags.LockOfFlag` | reactive/coordinator/bootstrap.py:70-77 | for a state that starts with a namespace prefix, `state.split('.', 2)[2]` is the lock name, and the state is that prefix followed by that name |
| `Flags.LockOfFlagName` | reactive/coordinator/bootstrap.py:75-87 | formatting a lock's flag and parsing it back gives back the lock name, in both namespaces |
| `Flags.PrefixesExclusive` | reactive/coordinator/bootstrap.py:72-77 | no state starts with both `coordinator.requested.` and `coordinator.granted.` |
| `Flags.FlaggedLocks` | reactive/coordinator/bootstrap.py:70-77 | the comprehension `set(state.split('.', 2)[2] for state in get_states() if state.startswith(prefix))`, for either prefix; its membership law is `Flags.FlaggedLocksMembership` |
| `Flags.FlaggedLocksMembership` | reactive/coordinator/bootstrap.py:70-77 | a lock is among the previously requested (granted) locks exactly when its requested (granted) flag is on the bus |
| `Flags.FlagSetParts` | reactive/coordinator/bootstrap.py:70-77 | the states outside the two namespaces, plus requested flags for a set A and granted flags for a set B, parse back to exactly A, B and those other states |
| `ReactiveBus.Bus.GetStates` | reactive/coordinator/bootstrap.py:71-76 | `charms.reactive.bus.get_states()`: a plain accessor for the states on the bus, which the reconciler reads before any loop runs; what the parsed flags mean is stated by `Flags.FlaggedLocksMembership` |
| `ReactiveBus.Bus.SetState` | reactive/coordinator/bootstrap.py:82 | setting a state adds exactly that state to the bus |
| `ReactiveBus.Bus.RemoveState` | reactive/coordinator/bootstrap.py:92 | removing a state takes exactly that state off the bus |
| `Bootstrap.SplitClassPath` | reactive/coordinator/bootstrap.py:30-35 | the class name has no dot; without a dot, the module is `reactive.coordinator` and the name is the whole path; with a dot, the name is the text after the last dot and the module is the text before it, or `reactive.coordinator` when that text is empty |
| `Bootstrap.SplitThreePartPath` | reactive/coordinator/bootstrap.py:30-35 | a path `a.b.c` made of dot-free parts names class `c` in module `a.b` |
| `Bootstrap.CoordinatorClass` | reactive/coordinator/bootstrap.py:28-35 | the `class` option when one is given, otherwise `reactive.coordinator.SimpleCoordinator`, split into module and class name by `Bootstrap.SplitClassPath` |
| `Bootstrap.DefaultCoordinatorClass` | reactive/coordinator/bootstrap.py:28-35 | without a `class` option, the path `reactive.coordinator.SimpleCoordinator` gives module `reactive.coordinator` and class `SimpleCoordinator` |
| `Bootstrap.SetFlags` | reactive/coordinator/bootstrap.py:80-87 | the set-flag loop adds exactly the flags of the given locks in one namespace |
| `Bootstrap.RemoveFlags` | reactive/coordinator/bootstrap.py:90-97 | the remove-flag loop takes off exactly the flags of the given locks in one namespace |
| `Bootstrap.Reconciled` | reactive/coordinator/bootstrap.py:70-97 | the bus after the four loops, in the code's order: add the requested flags, add the granted flags, remove the granted flags of locks no longer granted, remove the requested flags of locks neither requested nor granted; what this means is stated by the `Reconciled*` lemmas |
| `Coordinator.LocalLocks` | reactive/coordinator/bootstrap.py:69-74 | `set(table.get(local_unit, {}).keys())`: the locks the table lists for the unit, or none when the unit has no entry |
| `Bootstrap.InitializeCoordinatorState` | reactive/coordinator/bootstrap.py:57-97 | the bus afterwards is the reconciled set computed from the old bus and the local unit's requested and granted locks, in the code's order |
| `Bootstrap.ReconciledForm` | reactive/coordinator/bootstrap.py:69-97 | the reconciled bus is the old non-coordinator states, plus requested flags for `requested ∪ (previously_requested ∩ granted)`, plus granted flags for exactly `granted` |
| `Bootstrap.ReconciledGrantedFlags` | reactive/coordinator/bootstrap.py:74-92 | after reconciliation, the granted flags name exactly the granted locks: new ones are set and stale ones removed |
| `Bootstrap.ReconciledRequestedFlags` | reactive/coordinator/bootstrap.py:69-97 | after reconciliation, the requested flags name exactly `requested ∪ (previously_requested ∩ granted)`, so every requested lock is flagged |
| `Bootstrap.ReconciledKeepsOtherStates` | reactive/coordinator/bootstrap.py:80-97 | states outside the two coordinator namespaces are unchanged by reconciliation |
| `Bootstrap.ReconciledKeepsGrantedRequest` | reactive/coordinator/bootstrap.py:94-97 | against the docstring, a granted lock keeps the requested flag it already had, even when it is no longer requested |
| `Bootstrap.ReconciledIdempotent` | reactive/coordinator/bootstrap.py:69-97 | reconciling again with the same requested and granted locks leaves the bus unchanged |
| `Bootstrap.Runtime.constructor` | reactive/coordinator/bootstrap.py:105 | before the first import, the marker is unset and the reconciliation hook is not registered |
| `Bootstrap.Runtime.ImportBootstrap` | reactive/coordinator/bootstrap.py:100-107 | each import keeps the invariant: the marker is set exactly when the hook is registered, and it is registered at most once; afterwards the marker is set and the hook is registered exactly once; only the first import appends it |
| `Coordinator.Acquire` | reactive/coordinator/__init__.py:24-40 | returns exactly the base coordinator's answer; adds the lock's granted flag when the answer is true and its requested flag otherwise; adds nothing else and removes nothing |
| `Coordinator.AcquireFlagsOnlyLock` | reactive/coordinator/__init__.py:35-40 | after `acquire`, the lock is among the locks flagged in the namespace of the answer; the other namespace and all non-coordinator states are unchanged |
| `Coordinator.DefaultGrant` | reactive/coordinator/__init__.py:50-67 | grants whenever the literal key `"unit"` is in the grants table; refuses every request when the table is non-empty without that key; with an empty table, grants exactly the unit at the head of the queue (the queue is read only then, so only then must it be non-empty) |
| `Coordinator.DefaultGrantIgnoresLock` | reactive/coordinator/__init__.py:44-67 | the decision depends on neither the lock name nor the set of units already holding that lock |
| `Coordinator.DefaultGrantMutualExclusion` | reactive/coordinator/__init__.py:44-67 | with an empty grants table and a fixed queue, two units granted a lock are the same unit; queues are per lock, so across locks the recorded grant keeps one holder (`Coordinator.DefaultGrantKeepsSingleHolder`) |
| `Coordinator.Holders` | reactive/coordinator/__init__.py:57-61 | the units that "have been granted any lock": those whose table entry names at least one lock (`Coordinator.Holds`); what it means against the code's `if self.grants:` is `Coordinator.EntriesVsHolders` |
| `Coordinator.EntriesVsHolders` | reactive/coordinator/__init__.py:60-63 | every holder has an entry in the grants table; when no entry is empty, `if self.grants:` (the table has an entry) holds exactly when some unit has been granted a lock, as the comment at line 61 says; only empty entries make the two differ |
| `Coordinator.IntendedGrant` | reactive/coordinator/__init__.py:57-63 | the decision the comments describe: a unit that holds a lock gets every lock it asks for; no other unit gets one while a holder exists; with no holder, the head of the queue wins |
| `Coordinator.IntendedGrantKeepsSingleHolder` | reactive/coordinator/__init__.py:44-49 | under the intended decision, granting what it allows to a table with at most one holder leaves exactly one holder, the granted unit |
| `Coordinator.DefaultGrantKeepsSingleHolder` | reactive/coordinator/__init__.py:44-67 | under the written policy, as long as no unit is named `unit`, recording a grant it allows in a table with at most one holder leaves exactly one holder and exactly one table entry, both the granted unit's, and still no key `unit`; with `Coordinator.DefaultGrantSecondHolder` this shows that a unit literally named `unit` is what can break the promise of one holder at a time |
| `Coordinator.DefaultGrantDeniesHolder` | reactive/coordinator/__init__.py:57-59 | as written, a unit holding `join` that asks for `restart` is refused, while the intended decision grants it |
| `Coordinator.DefaultGrantSecondHolder` | reactive/coordinator/__init__.py:57-59 | as written, if a unit literally named `unit` holds a lock, any other unit at the head of its queue is granted too, which leaves two holders |
| `Coordinator.DefaultGrantEmptyEntry` | reactive/coordinator/__init__.py:61-63 | as written, `if self.grants:` refuses every unit when the table has an entry, even one naming no lock, though nobody holds a lock; the intended decision grants the head of the queue |

## Findings

| source | as written | input that shows it | evidently intended | confidence | as-written member | corrected member |
|---|---|---|---|---|---|---|
| reactive/coordinator/__init__.py:58 | `'unit' in self.grants` tests a fixed string key | grants `{"app/0": {"join": "1"}}`, unit `app/0` asking for `restart`, queue `["app/0"]`: refused | `unit in self.grants`: the unit that already holds a lock is granted every lock it asks for | high; not executed | `Coordinator.DefaultGrantDeniesHolder` | `Coordinator.IntendedGrant` |
| reactive/coordinator/__init__.py:58 | the same test grants everyone once a unit named `unit` holds a lock | grants `{"unit": {"join": "1"}}`, unit `app/1` asking for `restart`, queue `["app/1"]`: granted, leaving two holders | only one unit holds locks at a time | medium (Juju unit names contain a `/`, so the input is unlikely); not executed | `Coordinator.DefaultGrantSecondHolder` | `Coordinator.IntendedGrantKeepsSingleHolder` |
| reactive/coordinator/__init__.py:62 | `if self.grants:` counts any table entry as a holder, even one whose lock map is empty | grants `{"app/0": {}}`, unit `app/1`, queue `["app/1"]`: refused, though no unit holds a lock | only a unit that "has been granted any lock" (line 61) shuts the others out | low (it matters only if the base coordinator, which is not part of this model, leaves emptied entries behind when a lock is released); not executed | `Coordinator.DefaultGrantEmptyEntry` | `Coordinator.IntendedGrant` |

## Left out

- The charm-helpers `BaseCoordinator` is not part of this model. That covers how lock requests and grants are stored and replicated over the peer relation, leadership checks, queue construction, the base `acquire`, and the table update after a grant. Their results are inputs: two lock tables, a queue, and a boolean. `Coordinator.Grant` stands in for the table update only in the lemmas about the grant policy.
- Importing the chosen module, looking up the class, the `issubclass` assertion, and building the coordinator (bootstrap.py:37-48) are dynamic calls into other code. The model stops at the module and class names.
- `hookenv.local_unit()` becomes a parameter. `hookenv.atstart` becomes an append to a sequence of hooks. Running the hooks is not modelled.
- The `class` option is a map from option name to string. How layer options are read is not modelled.
- Logging (bootstrap.py:48, 67, 81, 86, 91, 96) has no effect on the behaviour.
- The module-level singletons (bootstrap.py:53-54, __init__.py:21) are replaced by explicit parameters.
- Python iterates over a set in an unspecified order. The loops take any remaining element. Each loop only adds, or only removes, so the final bus does not depend on that order.
- `Flags.Split` covers only a one-character separator, which is the only kind the layer uses. Python's whitespace mode, `split()` with no separator, is not modelled.
- `Bootstrap.Runtime` puts the `_coordinator_registered` marker and the start-of-hook list in one object. Hooks that other code registers are given to its constructor. They are not added between imports.
- `Coordinator.DefaultGrant` requires a non-empty queue when the grants table is empty. In Python that case raises `IndexError` on an empty queue. The base coordinator, which is not part of this model, is expected to ask only about units in the queue.
