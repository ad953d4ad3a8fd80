/**
 UserInOrg readers running concurrently with member and organization writers. Each database read,
 clock read, cache lookup, cache store, lazy delete, table write and eviction is a step of its own.
 */
module MemberCache {
  import ExpiredMap
  import Sets

  type Key = (nat, nat)        // (organization, uid)
  type Pid = nat

  const TTL: nat := 300

  /** A cached "is a member". All but `expiredAt` records who filled it, when and from what; no step reads it. */
  datatype Entry = Entry(expiredAt: int, filler: Pid, readStep: nat, readAt: nat, fillStep: nat, fillAt: nat)

  datatype Pc =
    | Idle
    | Looked(k: Key, e: Entry)                                      // holds the entry found under the read lock
    | MustDelete(k: Key)                                            // found it expired, lazy delete pending
    | Missed(k: Key)                                                // about to ask the database
    | Confirmed(k: Key, readStep: nat, readAt: nat)                 // the database said yes
    | Storing(k: Key, readStep: nat, readAt: nat, fillStep: nat, fillAt: nat)   // deadline computed, lock not taken yet
    | Answered(k: Key, e: Entry)                                    // returned "is a member" from the cache

  datatype State = State(now: nat, members: set<Key>, cache: map<Key, Entry>, pcs: map<Pid, Pc>)

  datatype Action =
    | Look(pid: Pid, key: Key) | Check(pid: Pid) | LazyDelete(pid: Pid) | ReadDb(pid: Pid)
    | ReadClock(pid: Pid) | Store(pid: Pid) | Finish(pid: Pid)
    | InsertMember(key: Key) | DeleteMember(key: Key) | DeleteMembersOf(org: nat) | Evict(key: Key)
    | Tick(seconds: nat)

  function PcOf(s: State, pid: Pid): Pc
  {
    if pid in s.pcs then s.pcs[pid] else Idle
  }

  function At(s: State, pid: Pid, pc: Pc): State
  {
    s.(pcs := s.pcs[pid := pc])
  }

  /** One step; an action that is not enabled leaves the state as it is. `i` numbers the steps of the run. */
  function Do(s: State, i: nat, a: Action): State
  {
    match a
    case Look(pid, k) =>
      if !PcOf(s, pid).Idle? then s
      else At(s, pid, if k in s.cache then Looked(k, s.cache[k]) else Missed(k))
    case Check(pid) =>
      (match PcOf(s, pid)
       case Looked(k, e) => At(s, pid, if e.expiredAt <= s.now then MustDelete(k) else Answered(k, e))
       case _ => s)
    case LazyDelete(pid) =>
      (match PcOf(s, pid)
       case MustDelete(k) => At(s.(cache := s.cache - {k}), pid, Missed(k))
       case _ => s)
    case ReadDb(pid) =>
      (match PcOf(s, pid)
       case Missed(k) => At(s, pid, if k in s.members then Confirmed(k, i, s.now) else Idle)
       case _ => s)
    case ReadClock(pid) =>
      (match PcOf(s, pid)
       case Confirmed(k, r, t) => At(s, pid, Storing(k, r, t, i, s.now))
       case _ => s)
    case Store(pid) =>
      (match PcOf(s, pid)
       case Storing(k, r, t, f, fillAt) =>
         At(s.(cache := s.cache[k := Entry(ExpiredMap.Deadline(TTL, fillAt), pid, r, t, f, fillAt)]), pid, Idle)
       case _ => s)
    case Finish(pid) =>
      if PcOf(s, pid).Answered? then At(s, pid, Idle) else s
    case InsertMember(k) => s.(members := s.members + {k})
    case DeleteMember(k) => s.(members := s.members - {k})
    case DeleteMembersOf(o) => s.(members := set k | k in s.members && k.0 != o)
    case Evict(k) => s.(cache := s.cache - {k})
    case Tick(d) => s.(now := s.now + d)
  }

  function StateAt(s: State, acts: seq<Action>, i: nat): State
    requires i <= |acts|
    decreases i
  {
    if i == 0 then s else Do(StateAt(s, acts, i - 1), i - 1, acts[i - 1])
  }

  predicate Initial(s: State)
  {
    s.cache == map[] && s.pcs == map[]
  }

  // ---------------------------------------------------------------- provenance

  /**
   Step `readStep` is the database read of `pid`'s lookup of `k`; it happened at `readAt` and found the membership.
   */
  ghost predicate ReadBy(s: State, acts: seq<Action>, i: nat, pid: Pid, k: Key, readStep: nat, readAt: nat)
    requires i <= |acts|
  {
    && readStep < i && acts[readStep] == ReadDb(pid)
    && var u := StateAt(s, acts, readStep);
       PcOf(u, pid) == Missed(k) && k in u.members && u.now == readAt
  }

  /** Step `fillStep` is the clock read with which `pid` computed the deadline for that same answer. */
  ghost predicate ClockedBy(s: State, acts: seq<Action>, i: nat, pid: Pid, k: Key, readStep: nat, readAt: nat,
                            fillStep: nat, fillAt: nat)
    requires i <= |acts|
  {
    && readStep < fillStep < i && acts[fillStep] == ReadClock(pid)
    && var u := StateAt(s, acts, fillStep);
       PcOf(u, pid) == Confirmed(k, readStep, readAt) && u.now == fillAt
  }

  ghost predicate EntryOk(s: State, acts: seq<Action>, i: nat, k: Key, e: Entry)
    requires i <= |acts|
  {
    && ReadBy(s, acts, i, e.filler, k, e.readStep, e.readAt)
    && ClockedBy(s, acts, i, e.filler, k, e.readStep, e.readAt, e.fillStep, e.fillAt)
    && e.readAt <= e.fillAt <= StateAt(s, acts, i).now
    && e.expiredAt == ExpiredMap.Deadline(TTL, e.fillAt)
  }

  ghost predicate PcOk(s: State, acts: seq<Action>, i: nat, pid: Pid, pc: Pc)
    requires i <= |acts|
  {
    match pc
    case Looked(k, e) => EntryOk(s, acts, i, k, e)
    case Answered(k, e) => EntryOk(s, acts, i, k, e)
    case Confirmed(k, r, t) => ReadBy(s, acts, i, pid, k, r, t) && t <= StateAt(s, acts, i).now
    case Storing(k, r, t, f, fillAt) =>
      && ReadBy(s, acts, i, pid, k, r, t) && ClockedBy(s, acts, i, pid, k, r, t, f, fillAt)
      && t <= fillAt <= StateAt(s, acts, i).now
    case _ => true
  }

  ghost predicate AllOk(s: State, acts: seq<Action>, i: nat)
    requires i <= |acts|
  {
    var u := StateAt(s, acts, i);
    && (forall k :: k in u.cache ==> EntryOk(s, acts, i, k, u.cache[k]))
    && (forall pid :: pid in u.pcs ==> PcOk(s, acts, i, pid, u.pcs[pid]))
  }

  lemma {:induction false} ProvenanceHolds(s: State, acts: seq<Action>, i: nat)
    requires Initial(s) && i <= |acts|
    ensures AllOk(s, acts, i)
    decreases i
  {
    if i == 0 {
      assert StateAt(s, acts, i) == s;
    } else {
      ProvenanceHolds(s, acts, i - 1);
      ProvenanceStep(s, acts, i - 1);
    }
  }

  lemma TimeAdvances(s: State, acts: seq<Action>, i: nat)
    requires i < |acts|
    ensures StateAt(s, acts, i).now <= StateAt(s, acts, i + 1).now
  {
  }

  lemma PcStillOk(s: State, acts: seq<Action>, i: nat, pid: Pid, pc: Pc)
    requires i < |acts| && PcOk(s, acts, i, pid, pc)
    ensures PcOk(s, acts, i + 1, pid, pc)
  {
    TimeAdvances(s, acts, i);
  }

  lemma EntryStillOk(s: State, acts: seq<Action>, i: nat, k: Key, e: Entry)
    requires i < |acts| && EntryOk(s, acts, i, k, e)
    ensures EntryOk(s, acts, i + 1, k, e)
  {
    TimeAdvances(s, acts, i);
  }

  /** What a reader's new position says about its old one and the step. */
  lemma Moves(u: State, i: nat, a: Action, pid: Pid)
    requires pid in Do(u, i, a).pcs && Do(u, i, a).pcs[pid] != PcOf(u, pid)
    ensures var was, pc := PcOf(u, pid), Do(u, i, a).pcs[pid];
            && (pc.Looked? ==> pc.k in u.cache && pc.e == u.cache[pc.k])
            && (pc.Answered? ==> was == Looked(pc.k, pc.e))
            && (pc.Confirmed? ==>
                a == ReadDb(pid) && was == Missed(pc.k) && pc == Confirmed(pc.k, i, u.now) && pc.k in u.members)
            && (pc.Storing? ==>
                && a == ReadClock(pid) && was == Confirmed(pc.k, pc.readStep, pc.readAt)
                && pc.fillStep == i && pc.fillAt == u.now)
  {
  }

  lemma MovedPcOk(s: State, acts: seq<Action>, i: nat, pid: Pid)
    requires i < |acts| && AllOk(s, acts, i) && pid in StateAt(s, acts, i + 1).pcs
    requires StateAt(s, acts, i + 1).pcs[pid] != PcOf(StateAt(s, acts, i), pid)
    ensures PcOk(s, acts, i + 1, pid, StateAt(s, acts, i + 1).pcs[pid])
  {
    var was, pc := PcOf(StateAt(s, acts, i), pid), StateAt(s, acts, i + 1).pcs[pid];
    TimeAdvances(s, acts, i);
    Moves(StateAt(s, acts, i), i, acts[i], pid);
    match pc
    case Looked(k, e) => EntryStillOk(s, acts, i, k, e);
    case Answered(k, e) => EntryStillOk(s, acts, i, k, e);
    case Confirmed(k, r, t) =>
    case Storing(k, r, t, f, fillAt) => PcStillOk(s, acts, i, pid, was);
    case _ =>
  }

  /** Where a new cache entry comes from. */
  lemma Stores(u: State, i: nat, a: Action, k: Key)
    requires k in Do(u, i, a).cache && !(k in u.cache && u.cache[k] == Do(u, i, a).cache[k])
    ensures a.Store? && a.pid in u.pcs
    ensures var pc, e := u.pcs[a.pid], Do(u, i, a).cache[k];
            && pc.Storing? && pc.k == k
            && e == Entry(ExpiredMap.Deadline(TTL, pc.fillAt), a.pid, pc.readStep, pc.readAt, pc.fillStep, pc.fillAt)
  {
  }

  lemma NewEntryOk(s: State, acts: seq<Action>, i: nat, k: Key)
    requires i < |acts| && AllOk(s, acts, i) && k in StateAt(s, acts, i + 1).cache
    ensures EntryOk(s, acts, i + 1, k, StateAt(s, acts, i + 1).cache[k])
  {
    var u, e := StateAt(s, acts, i), StateAt(s, acts, i + 1).cache[k];
    if k in u.cache && u.cache[k] == e {
      EntryStillOk(s, acts, i, k, e);
    } else {
      Stores(u, i, acts[i], k);
      PcStillOk(s, acts, i, acts[i].pid, u.pcs[acts[i].pid]);
    }
  }

  lemma ProvenanceStep(s: State, acts: seq<Action>, i: nat)
    requires i < |acts| && AllOk(s, acts, i)
    ensures AllOk(s, acts, i + 1)
  {
    var v := StateAt(s, acts, i + 1);
    forall pid | pid in v.pcs
      ensures PcOk(s, acts, i + 1, pid, v.pcs[pid])
    {
      if v.pcs[pid] == PcOf(StateAt(s, acts, i), pid) {
        PcStillOk(s, acts, i, pid, v.pcs[pid]);
      } else {
        MovedPcOk(s, acts, i, pid);
      }
    }
    forall k | k in v.cache
      ensures EntryOk(s, acts, i + 1, k, v.cache[k])
    {
      NewEntryOk(s, acts, i, k);
    }
  }

  /**
   In every interleaving, a cached "is a member" answer was filled by a reader of this run whose database
   read found the membership, less than 300 s plus that reader's own read-to-fill delay before the answer.
   */
  lemma CachedAnswerIsRecent(s: State, acts: seq<Action>, i: nat, pid: Pid)
    requires Initial(s) && i < |acts| && acts[i] == Check(pid)
    requires PcOf(StateAt(s, acts, i), pid).Looked? && PcOf(StateAt(s, acts, i + 1), pid).Answered?
    ensures var k, e := PcOf(StateAt(s, acts, i + 1), pid).k, PcOf(StateAt(s, acts, i + 1), pid).e;
            var now := StateAt(s, acts, i).now;
            && ReadBy(s, acts, i, e.filler, k, e.readStep, e.readAt)
            && ClockedBy(s, acts, i, e.filler, k, e.readStep, e.readAt, e.fillStep, e.fillAt)
            && e.readAt <= e.fillAt <= now
            && now - e.readAt < 300 + (e.fillAt - e.readAt)
  {
    ProvenanceHolds(s, acts, i);
  }

  // ---------------------------------------------------------------- the eviction race, and exactly when there is none

  lemma ReadThenRemove(s: State, acts: seq<Action>, k: Key, pid: Pid)
    requires Initial(s) && k in s.members && |acts| >= 4
    requires acts[0] == Look(pid, k) && acts[1] == ReadDb(pid) && acts[2] == DeleteMember(k) && acts[3] == Evict(k)
    ensures var u := StateAt(s, acts, 4); PcOf(u, pid) == Confirmed(k, 1, s.now) && u.now == s.now && k !in u.members
  {
    assert StateAt(s, acts, 1) == At(s, pid, Missed(k));
    assert PcOf(StateAt(s, acts, 2), pid) == Confirmed(k, 1, s.now);
    assert PcOf(StateAt(s, acts, 3), pid) == Confirmed(k, 1, s.now) && k !in StateAt(s, acts, 3).members;
  }

  /** A reader misses and reads; the membership is removed and evicted; the reader fills; a lookup hits. */
  function Race(k: Key, pid: Pid): seq<Action>
  {
    [Look(pid, k), ReadDb(pid), DeleteMember(k), Evict(k), ReadClock(pid), Store(pid), Look(pid, k), Check(pid)]
  }

  /** Whatever the initial members and time: a removal and its eviction can fall between a reader's read and fill. */
  lemma EvictionRace(s: State, k: Key, pid: Pid)
    requires Initial(s) && k in s.members
    ensures var acts := Race(k, pid);
            PcOf(StateAt(s, acts, 8), pid).Answered? && k !in StateAt(s, acts, 8).members
  {
    var acts := Race(k, pid);
    ReadThenRemove(s, acts, k, pid);
    assert PcOf(StateAt(s, acts, 5), pid) == Storing(k, 1, s.now, 4, s.now);
    assert k in StateAt(s, acts, 6).cache && StateAt(s, acts, 6).cache[k].expiredAt > s.now;
    assert PcOf(StateAt(s, acts, 7), pid) == Looked(k, StateAt(s, acts, 6).cache[k]) &&
             StateAt(s, acts, 7).now == s.now;
  }

  /** This step tells its reader, from the cache, that `k` is a membership. */
  predicate SaysYes(s: State, a: Action, k: Key)
  {
    a.Check? && PcOf(s, a.pid).Looked? && PcOf(s, a.pid).k == k && s.now < PcOf(s, a.pid).e.expiredAt
  }

  /** The run from `s`, whose first step has number `i`. */
  function Then(s: State, i: nat, acts: seq<Action>): State
    decreases |acts|
  {
    if acts == [] then s else Then(Do(s, i, acts[0]), i + 1, acts[1..])
  }

  /** Some step of the run from `s` says yes. */
  predicate EverYes(s: State, i: nat, acts: seq<Action>, k: Key)
    decreases |acts|
  {
    acts != [] && (SaysYes(s, acts[0], k) || EverYes(Do(s, i, acts[0]), i + 1, acts[1..], k))
  }

  /** A reader that will, or still may, turn an old answer about `k` into a cached yes. */
  predicate Carries(s: State, pc: Pc, k: Key)
  {
    match pc
    case Looked(k', e) => k' == k && s.now < e.expiredAt
    case Confirmed(k', _, _) => k' == k
    case Storing(k', _, _, _, fillAt) => k' == k && s.now < ExpiredMap.Deadline(TTL, fillAt)
    case _ => false
  }

  /** The membership is gone, its entry gone or expired, and no reader carries an answer about it that is still good. */
  ghost predicate Quiet(s: State, k: Key)
  {
    && k !in s.members
    && (k in s.cache ==> s.cache[k].expiredAt <= s.now)
    && forall pid :: pid in s.pcs ==> !Carries(s, s.pcs[pid], k)
  }

  /**
   Removing an organization's memberships, or this one, and then evicting the entry makes the state quiet exactly when
   no reader carries an answer that is still good; inserting the membership ends any quiet.
   */
  lemma RemoveAndEvictQuietIff(s: State, i: nat, k: Key)
    ensures Quiet(Do(Do(s, i, DeleteMembersOf(k.0)), i + 1, Evict(k)), k) <==>
            forall pid :: pid in s.pcs ==> !Carries(s, s.pcs[pid], k)
    ensures Quiet(Do(Do(s, i, DeleteMember(k)), i + 1, Evict(k)), k) <==>
            forall pid :: pid in s.pcs ==> !Carries(s, s.pcs[pid], k)
    ensures !Quiet(Do(s, i, InsertMember(k)), k)
  {
  }

  /** A removal touches the named memberships only. */
  lemma RemovalsAreLocal(s: State, i: nat, k: Key, other: Key)
    ensures other in Do(s, i, DeleteMembersOf(k.0)).members <==> other in s.members && other.0 != k.0
    ensures other in Do(s, i, DeleteMember(k)).members <==> other in s.members && other != k
    ensures other in Do(s, i, InsertMember(k)).members <==> other in s.members || other == k
  {
  }

  lemma QuietStep(s: State, i: nat, a: Action, k: Key)
    requires Quiet(s, k) && a != InsertMember(k)
    ensures Quiet(Do(s, i, a), k) && !SaysYes(s, a, k)
  {
  }

  lemma {:induction false} QuietStays(s: State, i: nat, acts: seq<Action>, k: Key)
    requires Quiet(s, k) && InsertMember(k) !in acts
    ensures !EverYes(s, i, acts, k)
    decreases |acts|
  {
    if acts == [] {
    } else {
      QuietStep(s, i, acts[0], k);
      QuietStays(Do(s, i, acts[0]), i + 1, acts[1..], k);
    }
  }

  lemma {:induction false} YesLater(s: State, i: nat, first: seq<Action>, acts: seq<Action>, k: Key)
    requires EverYes(Then(s, i, first), i + |first|, acts, k)
    ensures EverYes(s, i, first + acts, k)
    decreases |first|
  {
    if first == [] {
      assert first + acts == acts;
    } else {
      YesLater(Do(s, i, first[0]), i + 1, first[1..], acts, k);
      assert (first + acts)[1..] == first[1..] + acts;
    }
  }

  lemma LiveEntrySaysYes(s: State, i: nat, k: Key, pid: Pid)
    requires k in s.cache && s.now < s.cache[k].expiredAt && PcOf(s, pid).Idle?
    ensures EverYes(s, i, [Look(pid, k), Check(pid)], k)
  {
    var acts := [Look(pid, k), Check(pid)];
    var u := Do(s, i, acts[0]);
    assert PcOf(u, pid) == Looked(k, s.cache[k]) && SaysYes(u, acts[1], k);
    assert acts[1..][0] == acts[1];
  }

  lemma StoringSaysYes(s: State, i: nat, k: Key, pid: Pid)
    requires PcOf(s, pid).Storing? && PcOf(s, pid).k == k && Carries(s, PcOf(s, pid), k)
    ensures EverYes(s, i, [Store(pid), Look(pid, k), Check(pid)], k)
  {
    var acts := [Store(pid), Look(pid, k), Check(pid)];
    LiveEntrySaysYes(Do(s, i, acts[0]), i + 1, k, pid);
    assert acts[1..] == [Look(pid, k), Check(pid)];
  }

  lemma ConfirmedSaysYes(s: State, i: nat, k: Key, pid: Pid)
    requires PcOf(s, pid).Confirmed? && PcOf(s, pid).k == k
    ensures EverYes(s, i, [ReadClock(pid), Store(pid), Look(pid, k), Check(pid)], k)
  {
    var acts := [ReadClock(pid), Store(pid), Look(pid, k), Check(pid)];
    StoringSaysYes(Do(s, i, acts[0]), i + 1, k, pid);
    assert acts[1..] == [Store(pid), Look(pid, k), Check(pid)];
  }

  lemma ThenThree(s: State, i: nat, acts: seq<Action>)
    requires |acts| == 3
    ensures Then(s, i, acts) == Do(Do(Do(s, i, acts[0]), i + 1, acts[1]), i + 2, acts[2])
  {
    var u := Do(s, i, acts[0]);
    var v := Do(u, i + 1, acts[1]);
    assert Then(s, i, acts) == Then(u, i + 1, acts[1..]);
    assert Then(u, i + 1, acts[1..]) == Then(v, i + 2, acts[1..][1..]);
    assert Then(v, i + 2, acts[1..][1..]) == Then(Do(v, i + 2, acts[2]), i + 3, acts[1..][1..][1..]);
  }

  function ReadAndHit(k: Key, pid: Pid): seq<Action>
  {
    [Evict(k), Look(pid, k), ReadDb(pid), ReadClock(pid), Store(pid), Look(pid, k), Check(pid)]
  }

  lemma MemberSaysYes(s: State, i: nat, k: Key, pid: Pid)
    requires k in s.members && PcOf(s, pid).Idle?
    ensures EverYes(s, i, ReadAndHit(k, pid), k)
  {
    var first := [Evict(k), Look(pid, k), ReadDb(pid)];
    var last := [ReadClock(pid), Store(pid), Look(pid, k), Check(pid)];
    var u := Do(Do(Do(s, i, first[0]), i + 1, first[1]), i + 2, first[2]);
    ThenThree(s, i, first);
    ConfirmedSaysYes(u, i + 3, k, pid);
    YesLater(s, i, first, last, k);
    assert first + last == ReadAndHit(k, pid);
  }

  /** A reader that has not asked anything yet. */
  lemma IdleReader(s: State) returns (pid: Pid)
    ensures PcOf(s, pid).Idle?
  {
    pid := Sets.MaxBound(s.pcs.Keys) + 1;
  }

  lemma NotQuietSaysYes(s: State, i: nat, k: Key) returns (acts: seq<Action>)
    requires !Quiet(s, k)
    ensures InsertMember(k) !in acts && EverYes(s, i, acts, k)
  {
    var pid := IdleReader(s);
    if k in s.members {
      MemberSaysYes(s, i, k, pid);
      acts := ReadAndHit(k, pid);
    } else if k in s.cache && s.now < s.cache[k].expiredAt {
      LiveEntrySaysYes(s, i, k, pid);
      acts := [Look(pid, k), Check(pid)];
    } else {
      pid :| pid in s.pcs && Carries(s, s.pcs[pid], k);
      acts := CarriedSaysYes(s, i, k, pid);
    }
  }

  lemma CarriedSaysYes(s: State, i: nat, k: Key, pid: Pid) returns (acts: seq<Action>)
    requires pid in s.pcs && Carries(s, s.pcs[pid], k)
    ensures InsertMember(k) !in acts && EverYes(s, i, acts, k)
  {
    match s.pcs[pid]
    case Looked(_, _) =>
      acts := [Check(pid)];
      assert SaysYes(s, acts[0], k);
    case Storing(_, _, _, _, _) =>
      StoringSaysYes(s, i, k, pid);
      acts := [Store(pid), Look(pid, k), Check(pid)];
    case Confirmed(_, _, _) =>
      ConfirmedSaysYes(s, i, k, pid);
      acts := [ReadClock(pid), Store(pid), Look(pid, k), Check(pid)];
  }

  /**
   The exact condition: from a state, reachable or not, no continuation that does not write the membership
   again is ever told "is a member" from the cache if and only if the state is quiet for it.
   */
  lemma QuietIff(s: State, i: nat, k: Key)
    ensures Quiet(s, k) <==> forall acts: seq<Action> :: InsertMember(k) !in acts ==> !EverYes(s, i, acts, k)
  {
    if Quiet(s, k) {
      forall acts: seq<Action> | InsertMember(k) !in acts
        ensures !EverYes(s, i, acts, k)
      {
        QuietStays(s, i, acts, k);
      }
    } else {
      var acts := NotQuietSaysYes(s, i, k);
    }
  }

  /** A removed membership turns quiet after 300 s if nobody is between its database read and its clock read. */
  lemma QuietAfterTtl(s: State, acts: seq<Action>, i: nat, k: Key)
    requires Initial(s) && i <= |acts|
    requires var u := StateAt(s, acts, i);
             k !in u.members && forall pid :: pid in u.pcs ==> !(u.pcs[pid].Confirmed? && u.pcs[pid].k == k)
    ensures Quiet(Do(StateAt(s, acts, i), i, Tick(TTL)), k)
  {
    ProvenanceHolds(s, acts, i);
    var u := StateAt(s, acts, i);
    if k in u.cache {
      EntryExpires(s, acts, i, k, u.cache[k]);
    }
    forall pid | pid in u.pcs
      ensures !Carries(Do(u, i, Tick(TTL)), u.pcs[pid], k)
    {
      CarriedExpires(s, acts, i, pid, k);
    }
  }

  lemma EntryExpires(s: State, acts: seq<Action>, i: nat, k: Key, e: Entry)
    requires i <= |acts| && EntryOk(s, acts, i, k, e)
    ensures e.expiredAt <= StateAt(s, acts, i).now + TTL
  {
  }

  lemma CarriedExpires(s: State, acts: seq<Action>, i: nat, pid: Pid, k: Key)
    requires i <= |acts| && pid in StateAt(s, acts, i).pcs && PcOk(s, acts, i, pid, StateAt(s, acts, i).pcs[pid])
    requires var pc := StateAt(s, acts, i).pcs[pid]; !(pc.Confirmed? && pc.k == k)
    ensures !Carries(Do(StateAt(s, acts, i), i, Tick(TTL)), StateAt(s, acts, i).pcs[pid], k)
  {
  }
}
