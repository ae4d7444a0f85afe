/** swarmmanager.cpp: the index of swarms by hash and by id, and the bounded set of active ones. */
module Manager {
  /** Comparing 20 bytes is comparing the numbers they spell, most significant byte first. */
  type Sha1Hash = nat

  const ZERO: Sha1Hash := 0
  const TINT_SEC := 1000000
  const UNUSED_UNTIL_DEACTIVATED := 300 * TINT_SEC
  const UNTIL_INDEX_REUSE := 120

  /** The low six bits of the first byte. */
  function Bucket(h: Sha1Hash): (r: nat)
    ensures r < 64
  {
    h / 0x100000000000000000000000000000000000000 % 64
  }

  /** A hash that spells its first byte and 19 more is in the bucket of the low six bits of the first. */
  lemma BucketIs(first: nat, rest: nat)
    requires first < 256 && rest < 0x100000000000000000000000000000000000000
    ensures Bucket(first * 0x100000000000000000000000000000000000000 + rest) == first % 64
  {
  }

  class SwarmData {
    const hash: Sha1Hash
    var id: int
    var active: bool
    var latestUse: int
    var transfer: bool

    constructor (h: Sha1Hash, built: bool)
      ensures hash == h && id == -1 && !active && latestUse == 0 && transfer == built
    {
      hash, id, active, latestUse, transfer := h, -1, false, 0, built;
    }
  }

  datatype UnusedIndex = UnusedIndex(index: nat, since: int)

  /** Strictly ascending hashes. */
  ghost predicate Sorted(l: seq<SwarmData>) {
    forall i, j :: 0 <= i < j < |l| ==> l[i].hash < l[j].hash
  }

  class SwarmManager {
    var known: seq<seq<SwarmData>>
    var list: seq<SwarmData?>
    var unused: seq<UnusedIndex>
    var active: seq<SwarmData>
    var activeCount: int
    var maxActive: int

    ghost function Members(): set<SwarmData>
      reads this`list
    {
      set s: SwarmData | s in list
    }

    /** The free ids are exactly the holes of the list, each once. */
    ghost predicate Holes()
      reads this`list, this`unused
    {
      HolesOf(list, unused)
    }

    /** The buckets hold the registered swarms by hash, each bucket in strictly ascending order. */
    ghost predicate Buckets()
      reads this`known, this`list
    {
      BucketsOf(known, Members())
    }

    /** The id of a swarm is its place in the list. */
    ghost predicate Ids()
      reads this`list, Members()`id
    {
      forall i :: 0 <= i < |list| && list[i] != null ==> list[i].id == i
    }

    /** A swarm is active exactly if it is in the active list, which has it once. */
    ghost predicate ActiveList()
      reads this`active, this`activeCount, this`list, Members()`active
    {
      ActiveOf(active, activeCount, Members())
    }

    /** The invariant, except that some swarms may have a transfer without being active. */
    ghost predicate ValidBut(loose: set<SwarmData>)
      reads this, Members()
    {
      Buckets() && Holes() && Ids() && ActiveList() && maxActive > 0 &&
      forall s :: s in Members() ==> (s.active ==> s.transfer) && (s.transfer && s !in loose ==> s.active)
    }

    ghost predicate Valid()
      reads this, Members()
    {
      ValidBut({})
    }

    constructor ()
      ensures Valid() && Members() == {} && maxActive == 480 && list == [] && unused == []
    {
      known := seq(64, i => []);
      list, unused, active, activeCount, maxActive := [], [], [], 0, 480;
    }

    /** GetSwarmLocation: where a hash is, or where it would go. */
    method GetSwarmLocation(l: seq<SwarmData>, h: Sha1Hash) returns (loc: nat)
      requires Sorted(l)
      ensures loc <= |l|
      ensures forall i :: 0 <= i < loc ==> l[i].hash < h
      ensures forall i :: loc <= i < |l| ==> l[i].hash >= h
    {
      var low, high := 0, |l|;
      while low < high
        invariant 0 <= low <= high <= |l|
        invariant forall i :: 0 <= i < low ==> l[i].hash < h
        invariant forall i :: high <= i < |l| ==> l[i].hash > h
      {
        var mid := (low + high) / 2;
        if l[mid].hash < h {
          low := mid + 1;
        } else if l[mid].hash > h {
          high := mid;
        } else {
          return mid;
        }
      }
      return low;
    }

    /** Two registered swarms with one hash are one. */
    lemma OneHash(s: SwarmData, t: SwarmData)
      requires Buckets() && s in Members() && t in Members() && s.hash == t.hash
      ensures s == t
    {
      hide Bucket;
      var l := known[Bucket(s.hash)];
      var i :| 0 <= i < |l| && l[i] == s;
      var j :| 0 <= j < |l| && l[j] == t;
      assert i == j;
    }

    /** FindSwarm by hash: the registered swarm with it, if there is one. */
    method FindByHash(h: Sha1Hash) returns (s: SwarmData?)
      requires Buckets()
      ensures s != null ==> s in Members() && s.hash == h
      ensures s == null ==> forall t :: t in Members() ==> t.hash != h
    {
      hide Bucket;
      var l := known[Bucket(h)];
      var loc := GetSwarmLocation(l, h);
      if loc >= |l| {
        return null;
      }
      if l[loc].hash == h {
        return l[loc];
      }
      return null;
    }

    /** FindSwarm by id. */
    method FindById(id: int) returns (s: SwarmData?)
      requires Ids()
      ensures s != null ==> s in Members() && s.id == id
      ensures s == null ==> forall t :: t in Members() ==> t.id != id
    {
      if id < 0 || id >= |list| {
        return null;
      }
      return list[id];
    }

    /** Takes an active swarm off the active list; the last one takes its place. */
    method DeactivateAt(s: SwarmData, at: nat, ghost loose: set<SwarmData>)
      requires ValidBut(loose) && at < |active| && active[at] == s
      modifies this`active, this`activeCount, s`active, s`transfer
      ensures ValidBut(loose) && !s.active && !s.transfer && activeCount == old(activeCount) - 1
      ensures active == old(active)[at := old(active)[|old(active)| - 1]][..|old(active)| - 1]
      ensures forall t :: t in active <==> t in old(active) && t != s
    {
      hide Bucket, SwarmManager.Buckets, SwarmManager.Holes;
      ghost var was := active;
      s.active := false;
      active := active[at := active[|active| - 1]];
      active := active[..|active| - 1];
      activeCount := activeCount - 1;
      if s.transfer {
        s.transfer := false;
      }
      Swapped(was, active, at);
    }

    /** The swarm that idles longest past the limit goes; nothing if none does. */
    method Deactivate(now: int, ghost loose: set<SwarmData>) returns (done: bool, ghost victim: SwarmData?)
      requires ValidBut(loose)
      modifies this`active, this`activeCount, Members()`active, Members()`transfer
      ensures ValidBut(loose) && activeCount == old(activeCount) - (if done then 1 else 0)
      ensures if done then victim != null && victim in old(active) && Oldest(victim, old(active), now - UNUSED_UNTIL_DEACTIVATED) &&
          (forall t :: t in active <==> t in old(active) && t != victim)
        else victim == null && active == old(active) && forall t :: t in active ==> t.latestUse >= now - UNUSED_UNTIL_DEACTIVATED
      ensures forall s :: s in Members() ==> (s.active <==> old(s.active) && s != victim) && (s.transfer <==> old(s.transfer) && s != victim)
    {
      var limit := now - UNUSED_UNTIL_DEACTIVATED;
      var oldest: SwarmData? := null;
      var oldestLoc := 0;
      for i := 0 to |active|
        invariant oldest == null ==> forall j :: 0 <= j < i ==> active[j].latestUse >= limit
        invariant oldest != null ==> 0 <= oldestLoc < i && active[oldestLoc] == oldest && oldest.latestUse < limit
        invariant oldest != null ==> forall j :: 0 <= j < i && active[j].latestUse < limit ==> oldest.latestUse <= active[j].latestUse
        invariant oldest != null ==> forall j :: 0 <= j < oldestLoc ==> active[j].latestUse > oldest.latestUse
      {
        if active[i].latestUse < limit && (oldest == null || oldest.latestUse > active[i].latestUse) {
          oldest := active[i];
          oldestLoc := i;
        }
      }
      victim := oldest;
      if oldest == null {
        return false, null;
      }
      assert FirstAt(oldest, active, oldestLoc);
      ghost var was := active;
      assert Oldest(oldest, was, limit);
      DeactivateAt(oldest, oldestLoc, loose);
      return true, oldest;
    }

    /** Some active swarm has not been used since the limit. */
    ghost predicate SomeIdle(limit: int)
      reads this`active, active
    {
      exists t :: t in active && t.latestUse < limit
    }

    /** There is room for one more active swarm, or one can make room. */
    ghost predicate Room(now: int)
      reads this`active, this`activeCount, this`maxActive, active
    {
      activeCount < maxActive || SomeIdle(now - UNUSED_UNTIL_DEACTIVATED)
    }

    lemma ActiveHas(sd: SwarmData)
      requires ActiveList() && sd in Members()
      ensures sd.active <==> sd in active
      ensures forall t :: t in active ==> t in Members()
    {
    }

    /** ActivateSwarm: makes room if the maximum is reached, builds the transfer if needed; null if either fails. */
    method Activate(sd: SwarmData, operational: bool, now: int) returns (res: SwarmData?, ghost victim: SwarmData?)
      requires ValidBut({sd}) && sd in Members()
      modifies this`active, this`activeCount, Members()`active, Members()`transfer, sd`latestUse
      ensures Valid() && (res != null <==> sd.active) && (res != null ==> res == sd)
      ensures old(activeCount) <= maxActive ==> activeCount <= maxActive
      ensures activeCount <= old(activeCount) + 1 && (old(activeCount) >= maxActive ==> activeCount <= old(activeCount))
      ensures res != null <==> old(sd.active) || (old(Room(now)) && (old(sd.transfer) || operational))
      ensures victim != null <==> !old(sd.active) && old(activeCount) >= maxActive && old(SomeIdle(now - UNUSED_UNTIL_DEACTIVATED))
      ensures victim != null ==> victim != sd && victim in old(active) && old(Oldest(victim, active, now - UNUSED_UNTIL_DEACTIVATED))
      ensures forall t :: t in Members() && t != sd ==> (t.active <==> old(t.active) && t != victim)
      ensures activeCount == old(activeCount) - (if victim != null then 1 else 0) + (if res != null && !old(sd.active) then 1 else 0)
      ensures sd.latestUse == if res != null && !old(sd.active) then 0 else old(sd.latestUse)
    {
      hide Bucket, SwarmManager.Buckets, SwarmManager.Holes, SwarmManager.Ids, SwarmManager.ActiveList;
      ActiveHas(sd);
      victim := null;
      if sd.active {
        return sd, null;
      }
      if activeCount >= maxActive {
        var done;
        done, victim := Deactivate(now, {sd});
        if !done {
          if sd.transfer {
            sd.transfer := false;
          }
          return null, null;
        }
      }
      if !sd.transfer {
        sd.transfer := operational;
        if !sd.transfer {
          return null, victim;
        }
      }
      Enlist(sd);
      res := sd;
    }

    /** Puts a swarm with a transfer on the active list. */
    method Enlist(sd: SwarmData)
      requires ValidBut({sd}) && sd in Members() && sd.transfer && !sd.active
      modifies this`active, this`activeCount, sd`active, sd`latestUse
      ensures Valid() && sd.active && sd.latestUse == 0 && activeCount == old(activeCount) + 1 && active == old(active) + [sd]
    {
      hide Bucket, SwarmManager.Buckets, SwarmManager.Holes, SwarmManager.Ids;
      activeCount := activeCount + 1;
      sd.active := true;
      sd.latestUse := 0;
      active := active + [sd];
    }

    /** ActivateSwarm by hash. */
    method ActivateByHash(h: Sha1Hash, operational: bool, now: int) returns (res: SwarmData?, ghost victim: SwarmData?)
      requires Valid()
      modifies this`active, this`activeCount, Members()`active, Members()`transfer, Members()`latestUse
      ensures Valid() && (res != null ==> res in Members() && res.hash == h && res.active)
      ensures res == null ==> forall t :: t in Members() && t.hash == h ==> !t.active
      ensures activeCount <= old(activeCount) + 1 && (old(activeCount) >= maxActive ==> activeCount <= old(activeCount))
      ensures forall t :: t in Members() && t.hash == h ==> (res != null <==> old(t.active) || (old(Room(now)) && operational))
      ensures victim != null ==> victim.hash != h && victim in old(active) && old(Oldest(victim, active, now - UNUSED_UNTIL_DEACTIVATED))
      ensures victim != null <==>
        old(activeCount) >= maxActive && old(Room(now)) && exists t :: t in Members() && t.hash == h && !old(t.active)
      ensures forall t :: t in Members() && t.hash != h ==> (t.active <==> old(t.active) && t != victim) && t.latestUse == old(t.latestUse)
      ensures forall t :: t in Members() && t.hash == h ==> t.latestUse == if res != null && !old(t.active) then 0 else old(t.latestUse)
    {
      hide Bucket, SwarmManager.Buckets, SwarmManager.Holes, SwarmManager.Ids, SwarmManager.ActiveList;
      var sd := FindByHash(h);
      if sd == null {
        return null, null;
      }
      forall t | t in Members() && t.hash == h ensures t == sd {
        OneHash(t, sd);
      }
      if sd.active {
        return sd, null;
      }
      ActiveInside();
      res, victim := Activate(sd, operational, now);
    }

    /** DeactivateSwarm by hash. */
    method DeactivateByHash(h: Sha1Hash)
      requires Valid()
      modifies this`active, this`activeCount, Members()`active, Members()`transfer
      ensures Valid()
      ensures forall t :: t in Members() ==> (t.active <==> old(t.active) && t.hash != h)
    {
      hide Bucket, SwarmManager.Buckets, SwarmManager.Holes, SwarmManager.Ids;
      var swarm := FindByHash(h);
      if swarm == null {
        return;
      }
      forall t | t in Members() && t.hash == h ensures t == swarm {
        OneHash(t, swarm);
      }
      var i := 0;
      while i < |active|
        invariant 0 <= i <= |active| && forall j :: 0 <= j < i ==> active[j] != swarm
      {
        if active[i] == swarm {
          DeactivateAt(swarm, i, {});
          return;
        }
        i := i + 1;
      }
    }

    /** SetMaximumActiveSwarms: idle swarms go until the new maximum is met or none is idle long enough. */
    method SetMaximum(n: int, now: int)
      requires Valid()
      modifies this`active, this`activeCount, this`maxActive, Members()`active, Members()`transfer
      ensures Valid() && maxActive == (if n > 0 then n else old(maxActive)) && activeCount <= old(activeCount)
      ensures n > 0 && activeCount > n ==> forall t :: t in active ==> t.latestUse >= now - UNUSED_UNTIL_DEACTIVATED
      ensures activeCount < old(activeCount) ==> activeCount >= n > 0
      ensures forall t :: t in active ==> t in old(active)
      ensures forall t, u :: t in old(active) && t !in active ==>
        t.latestUse < now - UNUSED_UNTIL_DEACTIVATED && (u in active && u.latestUse < now - UNUSED_UNTIL_DEACTIVATED ==> t.latestUse <= u.latestUse)
    {
      hide Bucket, SwarmManager.Buckets, SwarmManager.Holes, SwarmManager.Ids, SwarmManager.ActiveList;
      if n <= 0 {
        return;
      }
      while n < activeCount
        invariant Valid() && activeCount <= old(activeCount) && maxActive == old(maxActive)
        invariant activeCount < old(activeCount) ==> activeCount >= n
        invariant forall t :: t in active ==> t in old(active)
        invariant forall t, u :: t in old(active) && t !in active ==>
          t.latestUse < now - UNUSED_UNTIL_DEACTIVATED && (u in active && u.latestUse < now - UNUSED_UNTIL_DEACTIVATED ==> t.latestUse <= u.latestUse)
        decreases activeCount - n
      {
        var done, victim := Deactivate(now, {});
        if !done {
          break;
        }
      }
      maxActive := n;
    }

    /** The oldest free id may be used again: it has been free for long enough. */
    ghost predicate MayReuse(now: int)
      reads this`unused
    {
      |unused| > 0 && unused[0].since < now - UNTIL_INDEX_REUSE
    }

    /** Times are in microseconds: the delay is 120 of them, the idle time 300 million. */
    lemma Delays(now: int)
      ensures unused != [] ==> (MayReuse(now) <==> now - unused[0].since > 120)
      ensures forall s :: s in active && Oldest(s, active, now - UNUSED_UNTIL_DEACTIVATED) ==> now - s.latestUse > 300_000_000
    {
    }

    /** Gives a new swarm the id freed longest ago, if that was long enough ago, or the next one. */
    method TakeId(ns: SwarmData, now: int)
      requires Holes() && Ids() && ns !in Members()
      modifies this`list, this`unused, ns`id
      ensures Holes() && Ids() && Members() == old(Members()) + {ns}
      ensures Numbered(ns, old(list), old(unused), old(MayReuse(now)))
    {
      hide HolesOf;
      if unused != [] && unused[0].since < now - UNTIL_INDEX_REUSE {
        FirstHole();
        Reused(list, unused, ns);
        ns.id := unused[0].index;
        unused := unused[1..];
        list := list[ns.id := ns];
      } else {
        Appended(list, unused, ns);
        ns.id := |list|;
        list := list + [ns];
      }
    }

    /** The new swarm has the oldest free id, or one more than all ids; all other places stay. */
    ghost predicate Numbered(ns: SwarmData, before: seq<SwarmData?>, free: seq<UnusedIndex>, reuse: bool)
      reads this`list, this`unused, ns`id
    {
      if reuse then free != [] && 0 <= free[0].index < |before| && ns.id == free[0].index && list == before[ns.id := ns] && unused == free[1..]
      else ns.id == |before| && list == before + [ns] && unused == free
    }

    /** Enters a new swarm in the list and in its bucket. */
    method Register(ns: SwarmData, loc: nat, now: int)
      requires Valid() && ns !in Members() && ns.hash != ZERO && !ns.active
      requires var l := known[Bucket(ns.hash)];
        loc <= |l| && (forall i :: 0 <= i < loc ==> l[i].hash < ns.hash) && forall i :: loc <= i < |l| ==> l[i].hash > ns.hash
      modifies this`known, this`list, this`unused, ns`id
      ensures ValidBut({ns}) && Members() == old(Members()) + {ns}
      ensures Numbered(ns, old(list), old(unused), old(MayReuse(now)))
    {
      hide Bucket, SwarmManager.Holes, SwarmManager.Ids, SwarmManager.Buckets;
      var b := Bucket(ns.hash);
      ghost var was := Members();
      BucketsShow();
      TakeId(ns, now);
      var l := known[b];
      InsertSorted(l, loc, ns);
      known := known[b := l[..loc] + [ns] + l[loc..]];
      assert Buckets() by {
        BucketsAfter(old(known), was, b, l[..loc] + [ns] + l[loc..], ns);
      }
    }

    lemma BucketsShow()
      requires Buckets()
      ensures BucketsOf(known, Members())
    {
    }

    /** A bucket with one more member. */
    lemma BucketsAfter(before: seq<seq<SwarmData>>, members: set<SwarmData>, b: nat, l: seq<SwarmData>, ns: SwarmData)
      requires BucketsOf(before, members) && b == Bucket(ns.hash) && ns.hash != ZERO && Members() == members + {ns}
      requires known == before[b := l] && Sorted(l) && forall t :: t in l <==> t in before[b] || t == ns
      ensures Buckets()
    {
      hide Bucket, Sorted;
      forall c, j | 0 <= c < 64 && 0 <= j < |known[c]|
        ensures known[c][j].hash != ZERO && Bucket(known[c][j].hash) == c && known[c][j] in list
      {
        if c == b {
          assert known[c][j] in l;
        }
        assert known[c][j] in Members();
      }
    }

    lemma FirstHole()
      requires Holes() && |unused| > 0
      ensures unused[0].index < |list| && list[unused[0].index] == null
    {
    }

    /** AddSwarm. The hash is the one given; or, without one, that of a complete content on disk (if it may sleep), or that
        of the transfer built for it. */
    method AddSwarm(given: Sha1Hash, onDisk: Sha1Hash, built: Sha1Hash, mayWake: bool, operational: bool, now: int)
      returns (r: SwarmData?, ghost h: Sha1Hash, ghost victim: SwarmData?)
      requires Valid()
      modifies this, Members()
      ensures Valid() && maxActive == old(maxActive)
      ensures h == (if given != ZERO then given else if !mayWake && onDisk != ZERO then onDisk else built)
      ensures h == ZERO ==> r == null && Members() == old(Members())
      ensures h != ZERO ==> r != null && r.hash == h && r in Members()
      ensures h != ZERO && (exists t :: t in old(Members()) && t.hash == h) ==> r in old(Members()) && Members() == old(Members())
      ensures h != ZERO && (forall t :: t in old(Members()) ==> t.hash != h) ==> fresh(r) && Members() == old(Members()) + {r}
      ensures activeCount <= old(activeCount) + 1 && (old(activeCount) >= maxActive ==> activeCount <= old(activeCount))
      ensures r != null && r !in old(Members()) ==>
        (r.active <==> (mayWake || (given == ZERO && onDisk == ZERO)) && old(Room(now)) && (given == ZERO || operational))
      ensures r != null && r !in old(Members()) ==>
        r.latestUse == (if mayWake || (given == ZERO && onDisk == ZERO) then now else 0) && Numbered(r, old(list), old(unused), old(MayReuse(now)))
      ensures h == ZERO || r in old(Members()) ==> list == old(list) && unused == old(unused)
      ensures victim != null ==> victim in old(active) && old(Oldest(victim, active, now - UNUSED_UNTIL_DEACTIVATED))
      ensures victim != null ==> old(activeCount) >= maxActive && r !in old(Members())
      ensures forall t :: t in old(Members()) ==>
        t in Members() && (t.active <==> old(t.active) && t != victim) && t.latestUse == old(t.latestUse) && t.id == old(t.id)
    {
      hide Bucket, SwarmManager.Buckets, SwarmManager.Holes, SwarmManager.Ids, SwarmManager.ActiveList, SwarmManager.Numbered, SwarmManager.Room, SwarmManager.SomeIdle, SwarmManager.MayReuse, Sorted;
      var wake := mayWake;
      var hash, ft := given, false;
      if given == ZERO && !wake {
        if onDisk != ZERO {
          hash := onDisk;
        } else {
          wake := true;
        }
      }
      if hash == ZERO {
        hash, ft := built, true;
      }
      h, victim := hash, null;
      if hash == ZERO {
        return null, h, null;
      }
      var found, loc := Place(hash);
      if found != null {
        return found, h, null;
      }
      var ns := new SwarmData(hash, ft);
      Register(ns, loc, now);
      if wake {
        var res;
        res, victim := Activate(ns, operational, now);
        // A transfer that could not be activated is gone already, so what is left is the touch.
        assert res == null ==> !ns.transfer;
        ns.latestUse := now;
      }
      r := ns;
    }

    /** The swarm with a hash, or the place for it in its bucket. */
    method Place(h: Sha1Hash) returns (s: SwarmData?, loc: nat)
      requires Buckets()
      ensures s != null ==> s in Members() && s.hash == h
      ensures s == null ==> forall t :: t in Members() ==> t.hash != h
      ensures s == null ==> var l := known[Bucket(h)];
        loc <= |l| && (forall i :: 0 <= i < loc ==> l[i].hash < h) && forall i :: loc <= i < |l| ==> l[i].hash > h
    {
      hide Bucket;
      var l := known[Bucket(h)];
      loc := GetSwarmLocation(l, h);
      if loc < |l| && l[loc].hash == h {
        return l[loc], loc;
      }
      return null, loc;
    }

    /** Removing an unknown hash goes wrong exactly if its bucket has a greater hash. */
    ghost predicate Confused(h: Sha1Hash)
      reads this`list
    {
      (forall t :: t in Members() ==> t.hash != h) && exists t :: t in Members() && Bucket(t.hash) == Bucket(h) && t.hash > h
    }

    /** Takes a swarm off the active list if it is there. */
    method TakeInactive(swarm: SwarmData)
      requires Valid() && swarm in Members()
      modifies this`active, this`activeCount, swarm`active
      ensures ValidBut({swarm}) && !swarm.active && maxActive == old(maxActive)
    {
      hide Bucket, SwarmManager.Buckets, SwarmManager.Holes, SwarmManager.Ids;
      var activeLoc := -1;
      var i := 0;
      while i < |active|
        invariant 0 <= i <= |active| && activeLoc == -1
        invariant forall j :: 0 <= j < i ==> active[j] != swarm
      {
        if active[i] == swarm {
          activeLoc := i;
          break;
        }
        i := i + 1;
      }
      if activeLoc != -1 {
        ghost var was := active;
        swarm.active := false;
        active := active[activeLoc := active[|active| - 1]];
        active := active[..|active| - 1];
        activeCount := activeCount - 1;
        Swapped(was, active, activeLoc);
      }
    }

    /** RemoveSwarm: right for a known hash; for an unknown one it either does nothing or removes another swarm from the list only. */
    method RemoveSwarm(h: Sha1Hash, now: int)
      requires Valid() && h != ZERO
      modifies this`known, this`list, this`unused, this`active, this`activeCount, Members()`active
      ensures Valid() <==> !old(Confused(h))
      ensures !old(Confused(h)) && (forall t :: t in old(Members()) ==> t.hash != h) ==> list == old(list) && unused == old(unused)
      ensures forall t :: t in old(Members()) && t.hash == h ==> unused == old(unused) + [UnusedIndex(t.id, now)]
      ensures !old(Confused(h)) ==> forall t :: t in Members() <==> t in old(Members()) && t.hash != h
      ensures !old(Confused(h)) ==> forall t :: t in Members() ==> t.id == old(t.id) && (t.active <==> old(t.active))
    {
      hide Bucket, SwarmManager.Buckets, SwarmManager.Holes, SwarmManager.Ids, SwarmManager.ActiveList, Sorted;
      var b := Bucket(h);
      BucketsShow();
      var l := known[b];
      var loc := GetSwarmLocation(l, h);
      LocationMeans(l, h, loc);
      if loc == |l| {
        return;
      }
      var swarm := l[loc];
      TakeInactive(swarm);
      ActiveShow();
      ghost var was := known;
      if swarm.hash == h {
        known := known[b := l[..loc] + l[loc + 1..]];
      }
      GiveId(swarm, now);
      if swarm.hash == h {
        RemoveSorted(l, loc);
        BucketsWithout(was, old(Members()), b, l[..loc] + l[loc + 1..], swarm);
        ActiveWithout(old(Members()), swarm);
      } else {
        StaleBucket(swarm, b, loc);
      }
    }

    /** The one caller of RemoveSwarm: it passes the hash of a registered swarm, so the invariant stays. */
    method Close(id: int, now: int) returns (found: bool)
      requires Valid()
      modifies this`known, this`list, this`unused, this`active, this`activeCount, Members()`active
      ensures Valid()
      ensures forall t :: t in Members() <==> t in old(Members()) && t.id != id
      ensures forall t :: t in Members() ==> (t.active <==> old(t.active))
      ensures found <==> exists t :: t in old(Members()) && t.id == id
      ensures unused == if found then old(unused) + [UnusedIndex(id, now)] else old(unused)
    {
      hide Bucket, SwarmManager.Buckets, SwarmManager.Holes, SwarmManager.ActiveList;
      var swarm := FindById(id);
      if swarm == null {
        return false;
      }
      forall t | t in Members() && (t.hash == swarm.hash || t.id == id) ensures t == swarm {
        if t.hash == swarm.hash {
          OneHash(t, swarm);
        }
      }
      Named(swarm);
      RemoveSwarm(swarm.hash, now);
      found := true;
    }

    lemma Named(s: SwarmData)
      requires Buckets() && s in Members()
      ensures s.hash != ZERO
    {
    }

    lemma ActiveInside()
      requires ActiveList()
      ensures forall t :: t in active ==> t in Members()
    {
    }

    lemma ActiveShow()
      requires ActiveList()
      ensures ActiveOf(active, activeCount, Members())
    {
    }

    /** Frees the id of a swarm. */
    method GiveId(s: SwarmData, now: int)
      requires Holes() && Ids() && s in Members()
      modifies this`list, this`unused
      ensures Holes() && Ids() && Members() == old(Members()) - {s}
      ensures unused == old(unused) + [UnusedIndex(s.id, now)]
    {
      var i := s.id;
      Emptied(list, unused, s, i, now);
      list := list[i := null];
      unused := unused + [UnusedIndex(i, now)];
    }

    lemma LocationMeans(l: seq<SwarmData>, h: Sha1Hash, loc: nat)
      requires Buckets() && l == known[Bucket(h)] && loc <= |l|
      requires (forall i :: 0 <= i < loc ==> l[i].hash < h) && forall i :: loc <= i < |l| ==> l[i].hash >= h
      ensures loc == |l| ==> (forall t :: t in Members() ==> t.hash != h) && !Confused(h)
      ensures loc < |l| ==> l[loc] in Members() && (l[loc].hash == h <==> !Confused(h))
      ensures loc < |l| && l[loc].hash == h ==> forall t :: t in Members() && t.hash == h ==> t == l[loc]
    {
      hide Bucket;
      forall t | t in Members() && t.hash == h ensures loc < |l| && l[loc] == t {
        assert t in l;
        if loc < |l| {
          OneHash(t, l[loc]);
        }
      }
      forall t | t in Members() && Bucket(t.hash) == Bucket(h) && t.hash > h ensures loc < |l| {
        assert t in l;
      }
      if loc < |l| && l[loc].hash > h {
        assert l[loc] in Members() && Bucket(l[loc].hash) == Bucket(h);
      }
    }

    lemma BucketsWithout(before: seq<seq<SwarmData>>, members: set<SwarmData>, b: nat, l: seq<SwarmData>, s: SwarmData)
      requires BucketsOf(before, members) && b == Bucket(s.hash) && Members() == members - {s}
      requires known == before[b := l] && Sorted(l) && forall t :: t in l <==> t in before[b] && t != s
      ensures Buckets()
    {
      hide Bucket, Sorted;
      forall c, j | 0 <= c < 64 && 0 <= j < |known[c]|
        ensures known[c][j].hash != ZERO && Bucket(known[c][j].hash) == c && known[c][j] in list
      {
        if c == b {
          assert known[c][j] in l;
        }
        assert known[c][j] in Members();
      }
    }

    lemma ActiveWithout(members: set<SwarmData>, s: SwarmData)
      requires Members() == members - {s} && ActiveOf(active, activeCount, members) && !s.active && s in members
      ensures ActiveList()
    {
    }

    lemma StaleBucket(s: SwarmData, b: nat, loc: nat)
      requires |known| == 64 && b < 64 && loc < |known[b]| && known[b][loc] == s && s !in Members()
      ensures !Buckets()
    {
    }
  }

  /** RemoveSwarm with a hash nobody has, next to a greater one: the index is wrong afterwards. */
  method RemoveUnknown() returns (m: SwarmManager)
    ensures !m.Valid()
  {
    hide SwarmManager.ActiveList, SwarmManager.Buckets, SwarmManager.Holes, SwarmManager.Ids;
    m := new SwarmManager();
    var r, h, victim := m.AddSwarm(2, ZERO, ZERO, false, false, 0);
    assert r in m.Members() && Bucket(r.hash) == Bucket(1) && r.hash > 1;
    m.RemoveSwarm(1, 0);
  }

  ghost predicate ActiveOf(active: seq<SwarmData>, count: int, members: set<SwarmData>)
    reads members`active
  {
    count == |active| &&
    (forall j, k :: 0 <= j < k < |active| ==> active[j] != active[k]) &&
    (forall s :: s in active ==> s in members) &&
    forall s :: s in members ==> (s.active <==> s in active)
  }

  ghost predicate HolesOf(list: seq<SwarmData?>, unused: seq<UnusedIndex>) {
    (forall k :: 0 <= k < |unused| ==> unused[k].index < |list| && list[unused[k].index] == null) &&
    (forall j, k :: 0 <= j < k < |unused| ==> unused[j].index != unused[k].index) &&
    forall i :: 0 <= i < |list| && list[i] == null ==> exists k :: 0 <= k < |unused| && unused[k].index == i
  }

  lemma Reused(list: seq<SwarmData?>, unused: seq<UnusedIndex>, ns: SwarmData)
    requires HolesOf(list, unused) && |unused| > 0
    ensures unused[0].index < |list| && HolesOf(list[unused[0].index := ns], unused[1..])
    ensures forall t: SwarmData :: t in list[unused[0].index := ns] <==> t in list || t == ns
  {
    var at := unused[0].index;
    var after := list[at := ns];
    forall i | 0 <= i < |after| && after[i] == null ensures exists k :: 0 <= k < |unused[1..]| && unused[1..][k].index == i {
      var k :| 0 <= k < |unused| && unused[k].index == i;
      assert unused[1..][k - 1].index == i;
    }
    forall t: SwarmData | t in list ensures t in after {
      var i :| 0 <= i < |list| && list[i] == t;
      assert after[i] == t;
    }
    assert after[at] == ns;
  }

  lemma Appended(list: seq<SwarmData?>, unused: seq<UnusedIndex>, ns: SwarmData)
    requires HolesOf(list, unused)
    ensures HolesOf(list + [ns], unused)
  {
  }

  lemma Emptied(list: seq<SwarmData?>, unused: seq<UnusedIndex>, s: SwarmData, i: nat, now: int)
    requires HolesOf(list, unused) && i < |list| && list[i] == s && forall j :: 0 <= j < |list| && j != i ==> list[j] != s
    ensures HolesOf(list[i := null], unused + [UnusedIndex(i, now)])
    ensures forall t: SwarmData :: t in list[i := null] <==> t in list && t != s
  {
    var after, more := list[i := null], unused + [UnusedIndex(i, now)];
    forall j | 0 <= j < |after| && after[j] == null ensures exists k :: 0 <= k < |more| && more[k].index == j {
      if j == i {
        assert more[|unused|].index == j;
      } else {
        var k :| 0 <= k < |unused| && unused[k].index == j;
        assert more[k].index == j;
      }
    }
    forall t: SwarmData | t in list && t != s ensures t in after {
      var j :| 0 <= j < |list| && list[j] == t;
      assert after[j] == t;
    }
  }

  ghost predicate BucketsOf(known: seq<seq<SwarmData>>, members: set<SwarmData>) {
    |known| == 64 && (forall b :: 0 <= b < 64 ==> Sorted(known[b])) &&
    (forall b, j :: 0 <= b < 64 && 0 <= j < |known[b]| ==>
       known[b][j].hash != ZERO && Bucket(known[b][j].hash) == b && known[b][j] in members) &&
    forall s :: s in members ==> s in known[Bucket(s.hash)]
  }

  lemma InsertSorted(l: seq<SwarmData>, loc: nat, ns: SwarmData)
    requires Sorted(l) && loc <= |l|
    requires (forall i :: 0 <= i < loc ==> l[i].hash < ns.hash) && forall i :: loc <= i < |l| ==> l[i].hash > ns.hash
    ensures Sorted(l[..loc] + [ns] + l[loc..])
    ensures forall t :: t in l[..loc] + [ns] + l[loc..] <==> t in l || t == ns
  {
    var m := l[..loc] + [ns] + l[loc..];
    forall t | t in l ensures t in m {
      var i :| 0 <= i < |l| && l[i] == t;
      assert m[if i < loc then i else i + 1] == t;
    }
    assert m[loc] == ns;
  }

  lemma RemoveSorted(l: seq<SwarmData>, loc: nat)
    requires Sorted(l) && loc < |l|
    ensures Sorted(l[..loc] + l[loc + 1..])
    ensures forall t :: t in l[..loc] + l[loc + 1..] <==> t in l && t != l[loc]
  {
    var m := l[..loc] + l[loc + 1..];
    forall t | t in l && t != l[loc] ensures t in m {
      var i :| 0 <= i < |l| && l[i] == t;
      assert m[if i < loc then i else i - 1] == t;
    }
  }

  /** Idle past the limit, and none of the idle ones has been idle longer. */
  ghost predicate Oldest(s: SwarmData, l: seq<SwarmData>, limit: int)
    reads s`latestUse, l`latestUse
  {
    s.latestUse < limit && (forall t :: t in l && t.latestUse < limit ==> s.latestUse <= t.latestUse) && exists i :: FirstAt(s, l, i)
  }

  ghost predicate FirstAt(s: SwarmData, l: seq<SwarmData>, i: int)
    reads s`latestUse, l`latestUse
  {
    0 <= i < |l| && l[i] == s && forall j :: 0 <= j < i ==> l[j].latestUse > s.latestUse
  }

  lemma Swapped<T>(before: seq<T>, after: seq<T>, at: nat)
    requires at < |before| && after == before[at := before[|before| - 1]][..|before| - 1]
    requires forall j, k :: 0 <= j < k < |before| ==> before[j] != before[k]
    ensures forall t :: t in after <==> t in before && t != before[at]
    ensures forall j, k :: 0 <= j < k < |after| ==> after[j] != after[k]
  {
    forall t | t in before && t != before[at] ensures t in after {
      var j :| 0 <= j < |before| && before[j] == t;
      assert after[if j == |before| - 1 then at else j] == t;
    }
  }
}
