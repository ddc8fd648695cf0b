/**
 The client-facing part of the coordinator layer: `acquire`, which records
 the outcome of a lock request as a reactive flag, and the grant policy of
 `SimpleCoordinator`, under which one unit at a time holds locks.

 The replicated lock tables kept by the charm-helpers base coordinator are
 inputs here: each maps a unit name to a map from lock name to the
 timestamp of the request or grant.
 */
module Coordinator {
  import opened Flags
  import opened ReactiveBus

  /** unit name -> (lock name -> timestamp) */
  type Table = map<string, map<string, string>>

  /** `table.get(unit, {}).keys()` */
  function LocalLocks(table: Table, unit: string): set<string>
  {
    if unit in table then table[unit].Keys else {}
  }

  /** The namespace `acquire` flags a lock in, given whether it was granted at once. */
  function AcquireKind(grantedNow: bool): Kind
  {
    if grantedNow then Granted else Requested
  }

  /**
   `acquire(lock)`. `grantedNow` is what the base coordinator's own
   `acquire(lock)` answered; the lock's granted flag is set when it is true
   and its requested flag otherwise, and that answer is returned.
   */
  method Acquire(bus: Bus, lock: string, grantedNow: bool) returns (r: bool)
    modifies bus
    ensures r == grantedNow
    ensures bus.states == old(bus.states) + {FlagName(AcquireKind(r), lock)}
  {
    if grantedNow {
      bus.SetState(FlagName(Granted, lock));
      return true;
    } else {
      bus.SetState(FlagName(Requested, lock));
      return false;
    }
  }

  /**
   What the flag `acquire` sets means to the reconciler: the lock joins the
   locks flagged in the namespace of the answer, and the other namespace and
   every state outside the coordinator's namespaces are as they were.
   */
  lemma AcquireFlagsOnlyLock(states: set<string>, lock: string, grantedNow: bool)
    ensures var after := states + {FlagName(AcquireKind(grantedNow), lock)};
      && FlaggedLocks(after, AcquireKind(grantedNow)) == FlaggedLocks(states, AcquireKind(grantedNow)) + {lock}
      && FlaggedLocks(after, AcquireKind(!grantedNow)) == FlaggedLocks(states, AcquireKind(!grantedNow))
      && OtherStates(after) == OtherStates(states)
  {
    var k, other := AcquireKind(grantedNow), AcquireKind(!grantedNow);
    var flag := FlagName(k, lock);
    var after := states + {flag};
    LockOfFlagName(k, lock);
    PrefixesExclusive(flag);
    forall l
      ensures l in FlaggedLocks(after, k) <==> l in FlaggedLocks(states, k) + {lock}
      ensures l in FlaggedLocks(after, other) <==> l in FlaggedLocks(states, other)
    {
      FlaggedLocksMembership(after, k, l);
      FlaggedLocksMembership(states, k, l);
      FlaggedLocksMembership(after, other, l);
      FlaggedLocksMembership(states, other, l);
      LockOfFlagName(k, l);
      LockOfFlagName(other, l);
      PrefixesExclusive(FlagName(other, l));
    }
  }

  /**
   `SimpleCoordinator.default_grant(lock, unit, granted, queue)`, as written:
   its first test asks whether the literal key "unit" is in the grants
   table, not whether the unit being decided on is. A non-empty grants table
   without that key denies every request; an empty one grants the request of
   the unit at the head of the queue. `queue[0]` is read only in that last
   case, so only there must the queue be non-empty.
   */
  function DefaultGrant(grants: Table, lock: string, unit: string, granted: set<string>, queue: seq<string>): (r: bool)
    requires grants == map[] ==> queue != []
    ensures "unit" in grants ==> r
    ensures grants != map[] && "unit" !in grants ==> !r
    ensures grants == map[] ==> (r <==> unit == queue[0])
  {
    if "unit" in grants then true
    else if grants != map[] then false
    else queue[0] == unit
  }

  /** "The lock name is irrelevant": neither the lock nor the units already holding it change the decision. */
  lemma DefaultGrantIgnoresLock(grants: Table, unit: string, queue: seq<string>,
                                lock1: string, granted1: set<string>, lock2: string, granted2: set<string>)
    requires grants == map[] ==> queue != []
    ensures DefaultGrant(grants, lock1, unit, granted1, queue) == DefaultGrant(grants, lock2, unit, granted2, queue)
  {
  }

  /**
   With nothing granted yet, two distinct units cannot both be granted from
   the same queue. Queues are per lock, so across locks it is the recorded
   grant (`DefaultGrantKeepsSingleHolder`) that keeps a second unit out.
   */
  lemma DefaultGrantMutualExclusion(grants: Table, queue: seq<string>, lock1: string, lock2: string,
                                    granted1: set<string>, granted2: set<string>, unit1: string, unit2: string)
    requires grants == map[] && queue != []
    requires DefaultGrant(grants, lock1, unit1, granted1, queue)
    requires DefaultGrant(grants, lock2, unit2, granted2, queue)
    ensures unit1 == unit2
  {
  }

  /**
   Whether `unit` "has been granted any lock": it has an entry in the grants
   table and that entry names at least one lock. An entry whose lock map is
   empty holds nothing.
   */
  predicate Holds(grants: Table, unit: string)
  {
    unit in grants && grants[unit] != map[]
  }

  /** The units that hold at least one lock. */
  function Holders(grants: Table): set<string>
  {
    set u | u in grants && Holds(grants, u)
  }

  /**
   How `if self.grants:` relates to "another unit has been granted any
   lock": every holder has an entry, and when no entry is empty, the table
   has an entry exactly when some unit holds a lock.
   */
  lemma EntriesVsHolders(grants: Table)
    ensures Holders(grants) <= grants.Keys
    ensures (forall u :: u in grants ==> grants[u] != map[]) ==> (grants != map[] <==> Holders(grants) != {})
  {
    if (forall u :: u in grants ==> grants[u] != map[]) && grants != map[] {
      var u :| u in grants;
      assert u in Holders(grants);
    }
  }

  /**
   The decision the comments of `default_grant` describe: a unit that already
   holds a lock gets every lock it asks for, no other unit gets any while one
   does, and with no holder the head of the queue wins. Holding means naming
   at least one lock (`Holds`), not merely having an entry in the table.
   */
  function IntendedGrant(grants: Table, lock: string, unit: string, granted: set<string>, queue: seq<string>): (r: bool)
    requires Holders(grants) == {} ==> queue != []
    ensures Holds(grants, unit) ==> r
    ensures Holders(grants) != {} && !Holds(grants, unit) ==> !r
    ensures Holders(grants) == {} ==> (r <==> unit == queue[0])
  {
    if Holds(grants, unit) then
      assert unit in Holders(grants);
      true
    else if Holders(grants) != {} then false
    else queue[0] == unit
  }

  /** No more than one unit holds locks. */
  ghost predicate SingleHolder(grants: Table)
  {
    forall u1, u2 :: Holds(grants, u1) && Holds(grants, u2) ==> u1 == u2
  }

  /** The table after `lock` is granted to `unit` at time `ts` (done by the base coordinator). */
  function Grant(grants: Table, unit: string, lock: string, ts: string): Table
  {
    grants[unit := (if unit in grants then grants[unit] else map[])[lock := ts]]
  }

  /** The table after `lock` is granted to `unit` at time `ts` names the lock for that unit and leaves every other entry alone. */
  lemma GrantRecords(grants: Table, unit: string, lock: string, ts: string)
    ensures var after := Grant(grants, unit, lock, ts);
      && Holds(after, unit) && lock in after[unit]
      && forall u :: u != unit ==> (u in after <==> u in grants) && (u in grants ==> after[u] == grants[u])
  {
    var after := Grant(grants, unit, lock, ts);
    var none: map<string, string> := map[];
    assert lock in after[unit] && lock !in none;
  }

  /**
   The intended policy keeps the single-holder invariant: granting what it
   allows never adds a second holder, and afterwards the granted unit is the
   one holder.
   */
  lemma IntendedGrantKeepsSingleHolder(grants: Table, lock: string, unit: string, granted: set<string>,
                                       queue: seq<string>, ts: string)
    requires Holders(grants) == {} ==> queue != []
    requires SingleHolder(grants)
    requires IntendedGrant(grants, lock, unit, granted, queue)
    ensures SingleHolder(Grant(grants, unit, lock, ts))
    ensures Holders(Grant(grants, unit, lock, ts)) == {unit}
  {
    var after := Grant(grants, unit, lock, ts);
    GrantRecords(grants, unit, lock, ts);
    forall u | Holds(after, u) ensures u == unit || u in Holders(grants) { }
    if Holders(grants) != {} {
      assert Holds(grants, unit);
    }
    assert unit in Holders(after);
  }

  /**
   What keeps one holder under the written policy: as long as no unit is
   named "unit", a grant the policy allows, recorded in the table, leaves at
   most one holder. Each decision reads the table the previous grants were
   recorded in, so grants of different locks with different queue heads
   cannot both happen from an empty table.
   */
  lemma DefaultGrantKeepsSingleHolder(grants: Table, lock: string, unit: string, granted: set<string>,
                                      queue: seq<string>, ts: string)
    requires grants == map[] ==> queue != []
    requires SingleHolder(grants)
    requires "unit" !in grants && unit != "unit"
    requires DefaultGrant(grants, lock, unit, granted, queue)
    ensures SingleHolder(Grant(grants, unit, lock, ts))
    ensures "unit" !in Grant(grants, unit, lock, ts)
    ensures Grant(grants, unit, lock, ts).Keys == {unit}
    ensures Holders(Grant(grants, unit, lock, ts)) == {unit}
  {
    assert grants == map[];
    GrantRecords(grants, unit, lock, ts);
  }

  /**
   `if self.grants:` asks whether the table has any entry, so an entry whose
   lock map is empty already shuts every other unit out under the written
   policy, although nobody holds a lock; the intended decision grants the
   head of the queue.
   */
  lemma DefaultGrantEmptyEntry()
    ensures var grants: Table := map["app/0" := map[]];
      && Holders(grants) == {}
      && !DefaultGrant(grants, "restart", "app/1", {}, ["app/1"])
      && IntendedGrant(grants, "restart", "app/1", {}, ["app/1"])
  {
    var grants: Table := map["app/0" := map[]];
    assert !Holds(grants, "app/0");
    assert forall u :: u != "app/0" ==> u !in grants;
  }

  /**
   The literal key makes the written policy deny the holder: a unit holding
   "join" that asks for "restart" is refused, where the intended policy
   grants it.
   */
  lemma DefaultGrantDeniesHolder()
    ensures var grants: Table := map["app/0" := map["join" := "1"]];
      && !DefaultGrant(grants, "restart", "app/0", {}, ["app/0"])
      && IntendedGrant(grants, "restart", "app/0", {}, ["app/0"])
  {
    var grants: Table := map["app/0" := map["join" := "1"]];
    assert "app/0" in grants && "unit" != "app/0";
    var none: map<string, string> := map[];
    assert "join" in grants["app/0"] && "join" !in none;
  }

  /**
   The literal key also breaks mutual exclusion in the written policy: if a
   unit happens to be named "unit" and holds a lock, any other unit is
   granted too, leaving two holders.
   */
  lemma DefaultGrantSecondHolder()
    ensures var grants: Table := map["unit" := map["join" := "1"]];
      && SingleHolder(grants)
      && DefaultGrant(grants, "restart", "app/1", {}, ["app/1"])
      && !SingleHolder(Grant(grants, "app/1", "restart", "2"))
  {
    var grants: Table := map["unit" := map["join" := "1"]];
    var after := Grant(grants, "app/1", "restart", "2");
    GrantRecords(grants, "app/1", "restart", "2");
    assert "unit" != "app/1" && after["unit"] == grants["unit"];
    var none: map<string, string> := map[];
    assert "join" in after["unit"] && "join" !in none;
    assert Holds(after, "unit") && Holds(after, "app/1");
  }
}
