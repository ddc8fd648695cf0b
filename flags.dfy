/**
 The names of the reactive flags the coordinator layer manages
 (`coordinator.requested.<lock>` and `coordinator.granted.<lock>`), the
 Python string operations used to build and take apart such names and
 dotted class paths (`str.split` with a `maxsplit`, `str.join`), and the
 set algebra that recovers lock names from a set of flags.
 */
module Flags {

  /** The two flag namespaces: a lock that is wanted, and a lock that is held. */
  datatype Kind = Requested | Granted

  const Namespace: string := "coordinator"

  function KindName(k: Kind): string
  {
    match k
    case Requested => "requested"
    case Granted => "granted"
  }

  /** `coordinator.requested.` or `coordinator.granted.` */
  function Prefix(k: Kind): string
  {
    Namespace + "." + KindName(k) + "."
  }

  /** `'coordinator.<kind>.{}'.format(lock)`: the namespace prefix followed by the lock name. */
  function FlagName(k: Kind, lock: string): (name: string)
    ensures StartsWith(name, Prefix(k))
    ensures |name| == |Prefix(k)| + |lock| && name[|Prefix(k)|..] == lock
  {
    Prefix(k) + lock
  }

  /** Python's `s.startswith(p)`: `s` is `p` followed by the rest of `s`. */
  predicate StartsWith(s: string, p: string): (b: bool)
    ensures b <==> |p| <= |s| && s == p + s[|p|..]
  {
    |p| <= |s| && s[..|p|] == p
  }

  /** The index of the first occurrence of `c` in `s` (Python's `s.find(c)` when it succeeds). */
  function IndexOf(s: string, c: char): (i: nat)
    requires c in s
    ensures i < |s| && s[i] == c
    ensures c !in s[..i]
  {
    if s[0] == c then 0
    else
      var j := IndexOf(s[1..], c);
      assert s[..j + 1] == [s[0]] + s[1..][..j];
      j + 1
  }

  /** How many more splits `str.split` may make after one; a negative `maxsplit` means no limit. */
  function RemainingSplits(maxsplit: int): int
  {
    if maxsplit < 0 then maxsplit else maxsplit - 1
  }

  /**
   Python's `s.split(sep, maxsplit)` for a one-character separator: split at
   the leftmost `sep` at most `maxsplit` times (without limit when `maxsplit`
   is negative, Python's default of -1); empty fields are kept.
   */
  function Split(s: string, sep: char, maxsplit: int): (parts: seq<string>)
    ensures 1 <= |parts|
    ensures 0 <= maxsplit ==> |parts| <= maxsplit + 1
    ensures sep !in s ==> parts == [s]
    ensures maxsplit != 0 && sep in s ==> 2 <= |parts|
    decreases |s|
  {
    if maxsplit == 0 || sep !in s then [s]
    else
      var i := IndexOf(s, sep);
      [s[..i]] + Split(s[i + 1..], sep, RemainingSplits(maxsplit))
  }

  /**
   Python's `sep.join(parts)`: the string starts with the first field, a
   separator follows it when there are more fields, and it is one separator
   per gap longer than the fields together.
   */
  function Join(sep: char, parts: seq<string>): (s: string)
    ensures 1 <= |parts| ==> StartsWith(s, parts[0])
    ensures 2 <= |parts| ==> |parts[0]| < |s| && s[|parts[0]|] == sep
    ensures 1 <= |parts| ==> |s| == TotalLength(parts) + |parts| - 1
  {
    if |parts| == 0 then ""
    else if |parts| == 1 then parts[0]
    else parts[0] + [sep] + Join(sep, parts[1..])
  }

  /** Joining the fields of a split with the same separator gives back the string. */
  lemma {:induction false} JoinSplit(s: string, sep: char, maxsplit: int)
    ensures Join(sep, Split(s, sep, maxsplit)) == s
    decreases |s|
  {
    if maxsplit != 0 && sep in s {
      var i := IndexOf(s, sep);
      var rest := Split(s[i + 1..], sep, RemainingSplits(maxsplit));
      JoinSplit(s[i + 1..], sep, RemainingSplits(maxsplit));
      assert Split(s, sep, maxsplit) == [s[..i]] + rest;
      assert ([s[..i]] + rest)[1..] == rest;
      assert s == s[..i] + [sep] + s[i + 1..];
    }
  }

  /** The sum of the lengths of some strings. */
  function TotalLength(parts: seq<string>): nat
  {
    if |parts| == 0 then 0 else |parts[0]| + TotalLength(parts[1..])
  }

  /** The last field of a join is appended after a separator. */
  lemma {:induction false} JoinLast(sep: char, parts: seq<string>)
    requires 2 <= |parts|
    ensures Join(sep, parts) == Join(sep, parts[..|parts| - 1]) + [sep] + parts[|parts| - 1]
  {
    var n := |parts|;
    var init := parts[..n - 1];
    if n == 2 {
      assert Join(sep, parts[1..]) == parts[1];
      assert Join(sep, init) == parts[0];
    } else {
      JoinLast(sep, parts[1..]);
      assert parts[1..][..n - 2] == init[1..];
      assert Join(sep, init) == parts[0] + [sep] + Join(sep, init[1..]);
      assert Join(sep, parts) == parts[0] + [sep] + Join(sep, parts[1..]);
    }
  }

  /**
   Without a limit, the last field of a split is the text after the last
   separator and the join of the other fields is the text before it.
   */
  lemma LastFieldAfterLastSeparator(s: string, sep: char)
    ensures var parts := Split(s, sep, -1);
      var last := parts[|parts| - 1];
      && sep !in last
      && (sep !in s ==> parts == [s])
      && (sep in s ==>
            && |last| < |s|
            && s[|s| - |last| - 1] == sep
            && s[|s| - |last|..] == last
            && s[..|s| - |last| - 1] == Join(sep, parts[..|parts| - 1]))
  {
    var parts := Split(s, sep, -1);
    SplitFieldsLackSeparator(s, sep);
    assert sep !in parts[|parts| - 1];
    if sep in s {
      SplitAtLastSeparator(s, sep, parts);
    }
  }

  /** The separated case of `LastFieldAfterLastSeparator`. */
  lemma SplitAtLastSeparator(s: string, sep: char, parts: seq<string>)
    requires sep in s && parts == Split(s, sep, -1)
    ensures 2 <= |parts|
    ensures var last := parts[|parts| - 1];
      && |last| < |s|
      && s[|s| - |last| - 1] == sep
      && s[|s| - |last|..] == last
      && s[..|s| - |last| - 1] == Join(sep, parts[..|parts| - 1])
  {
    JoinSplit(s, sep, -1);
    JoinLast(sep, parts);
    var before := Join(sep, parts[..|parts| - 1]);
    var last := parts[|parts| - 1];
    assert s == before + [sep] + last;
    assert |s| == |before| + 1 + |last|;
    assert s[|before|] == sep;
    assert s[|before| + 1..] == last;
    assert s[..|before|] == before;
  }

  /** Without a limit, no field of a split contains the separator. */
  lemma {:induction false} SplitFieldsLackSeparator(s: string, sep: char)
    ensures forall j :: 0 <= j < |Split(s, sep, -1)| ==> sep !in Split(s, sep, -1)[j]
    decreases |s|
  {
    if sep in s {
      var i := IndexOf(s, sep);
      SplitFieldsLackSeparator(s[i + 1..], sep);
      assert Split(s, sep, -1) == [s[..i]] + Split(s[i + 1..], sep, -1);
    }
  }

  /** A first field free of the separator is split off exactly where the separator follows it. */
  lemma SplitFirstField(a: string, sep: char, rest: string, maxsplit: int)
    requires sep !in a
    requires maxsplit != 0
    ensures Split(a + [sep] + rest, sep, maxsplit) == [a] + Split(rest, sep, RemainingSplits(maxsplit))
  {
    var s := a + [sep] + rest;
    assert s[|a|] == sep;
    assert s[..|a|] == a;
    var i := IndexOf(s, sep);
    assert i == |a|;
    assert s[..i] == a;
    assert s[i + 1..] == rest;
  }

  /**
   `('coordinator.<kind>.' + lock).split('.', 2)` has exactly three fields,
   and the third is the lock name, whatever dots the lock name holds.
   */
  lemma SplitFlagName(k: Kind, lock: string)
    ensures Split(FlagName(k, lock), '.', 2) == [Namespace, KindName(k), lock]
  {
    assert '.' !in Namespace && '.' !in KindName(k);
    assert FlagName(k, lock) == Namespace + ['.'] + KindName(k) + ['.'] + lock;
    SplitTwoFields(Namespace, KindName(k), lock);
  }

  /** Splitting `a.b.rest` twice, with dot-free `a` and `b`, leaves `rest` whole. */
  lemma SplitTwoFields(a: string, b: string, rest: string)
    requires '.' !in a && '.' !in b
    ensures Split(a + ['.'] + b + ['.'] + rest, '.', 2) == [a, b, rest]
  {
    assert a + ['.'] + b + ['.'] + rest == a + ['.'] + (b + ['.'] + rest);
    SplitFirstField(a, '.', b + ['.'] + rest, 2);
    SplitFirstField(b, '.', rest, 1);
    assert Split(rest, '.', 0) == [rest];
  }

  /** No flag name lies in both namespaces: the prefixes differ at the first character of the kind name. */
  lemma PrefixesExclusive(s: string)
    ensures !(StartsWith(s, Prefix(Requested)) && StartsWith(s, Prefix(Granted)))
  {
    var i := |Namespace| + 1;
    assert Prefix(Requested)[i] == KindName(Requested)[0] == 'r';
    assert Prefix(Granted)[i] == KindName(Granted)[0] == 'g';
  }

  /**
   The lock named by a flag: `state.split('.', 2)[2]` for a state that starts
   with the namespace prefix. The flag is the prefix followed by that name.
   */
  function LockOfFlag(state: string, k: Kind): (lock: string)
    requires StartsWith(state, Prefix(k))
    ensures FlagName(k, lock) == state
  {
    var suffix := state[|Prefix(k)|..];
    assert state == FlagName(k, suffix);
    SplitFlagName(k, suffix);
    Split(state, '.', 2)[2]
  }

  /** Formatting a flag and parsing it back gives the lock name. */
  lemma LockOfFlagName(k: Kind, lock: string)
    ensures StartsWith(FlagName(k, lock), Prefix(k))
    ensures LockOfFlag(FlagName(k, lock), k) == lock
  {
    var f := FlagName(k, lock);
    assert f[..|Prefix(k)|] == Prefix(k);
    var l := LockOfFlag(f, k);
    assert Prefix(k) + l == Prefix(k) + lock;
    assert l == (Prefix(k) + l)[|Prefix(k)|..];
    assert lock == (Prefix(k) + lock)[|Prefix(k)|..];
  }

  /** The locks whose `k` flag is in `states` (the set comprehension over the bus). */
  function FlaggedLocks(states: set<string>, k: Kind): set<string>
  {
    set s | s in states && StartsWith(s, Prefix(k)) :: LockOfFlag(s, k)
  }

  /** The `k` flags of a set of locks. */
  function FlagsOf(k: Kind, locks: set<string>): set<string>
  {
    set lock | lock in locks :: FlagName(k, lock)
  }

  /** Flagging one more lock adds exactly its flag. */
  lemma FlagsOfAddOne(k: Kind, locks: set<string>, lock: string)
    ensures FlagsOf(k, locks + {lock}) == FlagsOf(k, locks) + {FlagName(k, lock)}
  {
  }

  /** States that are in neither coordinator namespace. */
  function OtherStates(states: set<string>): set<string>
  {
    set s | s in states && !StartsWith(s, Prefix(Requested)) && !StartsWith(s, Prefix(Granted))
  }

  /** A lock is flagged exactly when its flag is on the bus. */
  lemma FlaggedLocksMembership(states: set<string>, k: Kind, lock: string)
    ensures lock in FlaggedLocks(states, k) <==> FlagName(k, lock) in states
  {
    LockOfFlagName(k, lock);
    if lock in FlaggedLocks(states, k) {
      var s :| s in states && StartsWith(s, Prefix(k)) && LockOfFlag(s, k) == lock;
      assert FlagName(k, lock) == s;
    }
  }

  /** A flag of a set of locks names one of those locks, in its own namespace only. */
  lemma FlagsOfMembership(k: Kind, locks: set<string>, s: string)
    ensures s in FlagsOf(k, locks) <==> StartsWith(s, Prefix(k)) && LockOfFlag(s, k) in locks
  {
    if s in FlagsOf(k, locks) {
      var lock :| lock in locks && FlagName(k, lock) == s;
      LockOfFlagName(k, lock);
    }
    if StartsWith(s, Prefix(k)) && LockOfFlag(s, k) in locks {
      assert FlagName(k, LockOfFlag(s, k)) == s;
    }
  }

  /**
   Taking a flag set apart: a set made of non-coordinator states, the
   requested flags of `req` and the granted flags of `gr` yields back exactly
   `req`, `gr` and those other states.
   */
  lemma FlagSetParts(others: set<string>, req: set<string>, gr: set<string>)
    requires OtherStates(others) == others
    ensures var states := others + FlagsOf(Requested, req) + FlagsOf(Granted, gr);
      && FlaggedLocks(states, Requested) == req
      && FlaggedLocks(states, Granted) == gr
      && OtherStates(states) == others
  {
    var states := others + FlagsOf(Requested, req) + FlagsOf(Granted, gr);
    forall lock
      ensures lock in FlaggedLocks(states, Requested) <==> lock in req
      ensures lock in FlaggedLocks(states, Granted) <==> lock in gr
    {
      FlaggedLocksMembership(states, Requested, lock);
      FlaggedLocksMembership(states, Granted, lock);
      LockOfFlagName(Requested, lock);
      LockOfFlagName(Granted, lock);
      PrefixesExclusive(FlagName(Requested, lock));
      PrefixesExclusive(FlagName(Granted, lock));
      FlagsOfMembership(Requested, req, FlagName(Requested, lock));
      FlagsOfMembership(Granted, gr, FlagName(Requested, lock));
      FlagsOfMembership(Requested, req, FlagName(Granted, lock));
      FlagsOfMembership(Granted, gr, FlagName(Granted, lock));
    }
    forall s
      ensures s in OtherStates(states) <==> s in others
    {
      FlagsOfMembership(Requested, req, s);
      FlagsOfMembership(Granted, gr, s);
    }
  }
}
