/** The link scheduler, desktop/internal/scheduler/scheduler.go. The clock is read where the code reads it and
    passed in; within one call the later reading is not earlier. */
module Scheduler {
  import opened Prelude
  import opened PathPolicy

  class LinkScheduler {
    const switchCooldown: int
    const lossThreshold: real
    var paths: map<string, Path>
    var activePath: Path?
    var lockedID: string       // "" when not locked
    var lastSwitch: Option<int>
    /** The times of all path changes made by SwitchTo. */
    ghost var switches: seq<int>

    /** Paths are stored under their ids, the active path has a registered id, and any two path changes made by
        SwitchTo are at least the cooldown apart. */
    ghost predicate Valid()
      reads this
    {
      && switchCooldown >= 0
      && (forall id :: id in paths ==> paths[id].id == id)
      && (activePath != null ==> activePath.id in paths)
      && lastSwitch == (if switches == [] then None else Some(switches[|switches| - 1]))
      && forall i, j :: 0 <= i < j < |switches| ==> switches[j] - switches[i] >= switchCooldown
    }

    /** The scheduler's own state, apart from the paths' measurements. */
    twostate predicate Unmoved()
      reads this
    {
      paths == old(paths) && activePath == old(activePath) && lockedID == old(lockedID)
      && lastSwitch == old(lastSwitch) && switches == old(switches)
    }

    constructor (switchCooldown: int, lossThreshold: real)
      requires switchCooldown >= 0
      ensures Valid() && paths == map[] && activePath == null && lockedID == "" && lastSwitch == None
      ensures this.switchCooldown == switchCooldown && this.lossThreshold == lossThreshold
    {
      this.switchCooldown, this.lossThreshold := switchCooldown, lossThreshold;
      paths, activePath, lockedID, lastSwitch, switches := map[], null, "", None, [];
    }

    method RegisterPath(path: Path, now: int)
      requires Valid()
      modifies this`paths, this`activePath, path`createdAt
      ensures Valid()
      ensures paths == old(paths)[path.id := path]
      ensures activePath == if old(activePath) == null then path else old(activePath)
      ensures path.createdAt == now
    {
      path.createdAt := now;
      paths := paths[path.id := path];
      if activePath == null {
        activePath := path;
      }
    }

    /** The evaluation that follows has no effect: a removed active path leaves no active path. */
    method UnregisterPath(pathID: string)
      requires Valid()
      modifies this`paths, this`activePath
      ensures Valid()
      ensures paths == old(paths) - {pathID}
      ensures activePath == if old(activePath) != null && old(activePath).id == pathID then null else old(activePath)
    {
      paths := paths - {pathID};
      if activePath != null && activePath.id == pathID {
        activePath := null;
        var _ := Evaluate();
      }
    }

    method AllPaths() returns (all: seq<Path>)
      ensures forall p :: p in all <==> p in paths.Values
    {
      all := [];
      var remaining := paths.Keys;
      while remaining != {}
        invariant remaining <= paths.Keys
        invariant forall p :: p in all <==> exists id :: id in paths && id !in remaining && paths[id] == p
        decreases remaining
      {
        var id :| id in remaining;
        remaining := remaining - {id};
        all := all + [paths[id]];
      }
    }

    /** Switching to a path also ignores the cooldown and leaves the switch time alone. */
    method LockPath(pathID: string) returns (ok: bool)
      requires Valid()
      modifies this`lockedID, this`activePath, paths.Values`manualLock
      ensures Valid()
      ensures ok <==> pathID in paths
      ensures ok ==> lockedID == pathID && activePath == paths[pathID] && paths[pathID].manualLock
      ensures forall p :: p in paths.Values && !(ok && p.id == pathID) ==> p.manualLock == old(p.manualLock)
      ensures !ok ==> Unmoved()
    {
      if pathID !in paths {
        return false;
      }
      var path := paths[pathID];
      path.manualLock := true;
      lockedID := pathID;
      activePath := path;
      return true;
    }

    method UnlockPath()
      requires Valid()
      modifies this`lockedID, paths.Values`manualLock
      ensures Valid()
      ensures lockedID == ""
      ensures old(lockedID) != "" && old(lockedID) in paths ==> !paths[old(lockedID)].manualLock
      ensures forall p :: p in paths.Values && !(old(lockedID) != "" && p.id == old(lockedID)) ==>
        p.manualLock == old(p.manualLock)
    {
      if lockedID != "" && lockedID in paths {
        paths[lockedID].manualLock := false;
      }
      lockedID := "";
      var _ := Evaluate();
    }

    ghost predicate Usable(p: Path)
      reads this, p
    {
      p in paths.Values && p.state != Unavailable
    }

    /** No usable path is better. */
    ghost predicate IsBest(p: Path)
      reads this, paths.Values, p
    {
      Usable(p) && forall q :: q in paths.Values && q.state != Unavailable ==>
        var best := RoundToFourPlaces(RawScore(p.pathType, p.metrics));
        var other := RoundToFourPlaces(RawScore(q.pathType, q.metrics));
        best > other || (best == other && p.pathType <= q.pathType)
    }

    /** The locked path when it is registered, otherwise a best path, or null when none is usable. */
    method Evaluate() returns (best: Path?)
      requires Valid()
      ensures lockedID != "" && lockedID in paths ==> best == paths[lockedID]
      ensures !(lockedID != "" && lockedID in paths) ==>
        && (best == null <==> forall p :: p in paths.Values ==> p.state == Unavailable)
        && (best != null ==> IsBest(best))
      ensures best != null ==> best in paths.Values
    {
      if lockedID != "" && lockedID in paths {
        return paths[lockedID];
      }
      var all := AllPaths();
      var scores := RankPaths(all);
      BestIsMaximal(all, scores);
      var selected := SelectBestPath(scores);
      if selected == None {
        return null;
      }
      ghost var owner :| owner in all && owner.state != Unavailable && selected.value == ScorePath(owner);
      best := FindPath(all, selected.value.pathID, owner);
    }

    method FindPath(all: seq<Path>, pathID: string, ghost owner: Path) returns (p: Path?)
      requires Valid() && owner in all && owner.id == pathID
      requires forall q :: q in all ==> q in paths.Values
      ensures p == owner
    {
      for i := 0 to |all|
        invariant forall j :: 0 <= j < i ==> all[j].id != pathID
      {
        if all[i].id == pathID {
          SameIdSamePath(all[i], owner);
          return all[i];
        }
      }
      assert false;
      return null;
    }

    lemma SameIdSamePath(p: Path, q: Path)
      requires Valid() && p in paths.Values && q in paths.Values && p.id == q.id
      ensures p == q
    {
    }

    /** The last switch is the one that counts. */
    lemma CooledDownIff(now: int)
      requires Valid()
      ensures CooledDown(now) <==> forall i :: 0 <= i < |switches| ==> now - switches[i] >= switchCooldown
    {
      if CooledDown(now) {
        forall i | 0 <= i < |switches|
          ensures now - switches[i] >= switchCooldown
        {
          var last := |switches| - 1;
          assert i < last ==> switches[last] - switches[i] >= switchCooldown;
        }
      }
    }

    predicate CooledDown(now: int)
      reads this
    {
      lastSwitch == None || now - lastSwitch.value >= switchCooldown
    }

    /** Refuses an unknown path and, for a real change, anything within the cooldown of the last one. */
    method SwitchTo(pathID: string, checkedAt: int, switchedAt: int) returns (ok: bool)
      requires Valid() && checkedAt <= switchedAt && (switches != [] ==> switches[|switches| - 1] <= checkedAt)
      modifies this`activePath, this`lastSwitch, this`switches
      ensures Valid()
      ensures ok <==>
        && pathID in paths
        && (|| (old(activePath) != null && old(activePath).id == pathID)
            || forall i :: 0 <= i < |old(switches)| ==> checkedAt - old(switches)[i] >= switchCooldown)
      ensures !ok || (old(activePath) != null && old(activePath).id == pathID) ==> Unmoved()
      ensures ok && !(old(activePath) != null && old(activePath).id == pathID) ==>
        && activePath == paths[pathID] && lastSwitch == Some(switchedAt)
        && switches == old(switches) + [switchedAt]
    {
      if pathID !in paths {
        return false;
      }
      if activePath != null && activePath.id == pathID {
        return true;
      }
      CooledDownIff(checkedAt);
      if !CooledDown(checkedAt) {
        return false;
      }
      activePath := paths[pathID];
      lastSwitch := Some(switchedAt);
      switches := switches + [switchedAt];
      return true;
    }

    /** The periodic evaluation. With a lock id set it changes nothing. Otherwise it moves only from no path or
        from a path whose loss exceeds the threshold, only to a best path, and only outside the cooldown. */
    method AutoEvaluate(checkedAt: int, switchedAt: int, probed: Option<Metrics>)
      requires Valid() && checkedAt <= switchedAt && (switches != [] ==> switches[|switches| - 1] <= checkedAt)
      modifies this`activePath, this`lastSwitch, this`switches,
        (if activePath == null then {} else {activePath})`metrics
      ensures Valid()
      ensures old(lockedID) != "" ==>
        Unmoved() && (activePath != null ==> activePath.metrics == old(activePath.metrics))
      ensures old(lockedID) == "" && old(activePath) != null ==>
        old(activePath).metrics == if probed.Some? then probed.value else old(activePath.metrics)
      ensures old(activePath) != null && old(activePath).metrics.lossRate <= lossThreshold ==> Unmoved()
      ensures activePath != old(activePath) ==>
        && activePath != null && IsBest(activePath)
        && (forall i :: 0 <= i < |old(switches)| ==> checkedAt - old(switches)[i] >= switchCooldown)
        && switches == old(switches) + [switchedAt]
      ensures activePath == old(activePath) ==> Unmoved()
      ensures lockedID == "" && old(activePath) == null ==>
        (activePath == null <==>
          || (exists i :: 0 <= i < |old(switches)| && checkedAt - old(switches)[i] < switchCooldown)
          || forall p :: p in paths.Values ==> p.state == Unavailable)
      ensures lockedID == "" && old(activePath) != null && old(activePath).metrics.lossRate > lossThreshold
        && (forall i :: 0 <= i < |old(switches)| ==> checkedAt - old(switches)[i] >= switchCooldown)
        && (exists p :: p in paths.Values && p.state != Unavailable)
        && (forall p :: p in paths.Values && IsBest(p) ==> p.id != old(activePath).id)
        ==> activePath != old(activePath)
    {
      if lockedID != "" {
        return;
      }
      if activePath == null {
        var best := Evaluate();
        if best != null {
          var _ := SwitchTo(best.id, checkedAt, switchedAt);
        }
        return;
      }
      var active := activePath;
      if probed.Some? {
        active.metrics := probed.value;
      }
      if active.metrics.lossRate > lossThreshold {
        var best := Evaluate();
        if best != null && best.id != active.id {
          var _ := SwitchTo(best.id, checkedAt, switchedAt);
        }
      }
    }
  }

  /** A locked active path is unregistered: the lock id stays, so however good the other paths are, the periodic
      evaluation leaves the scheduler without an active path. */
  method UnregisterWhileLocked(s: LinkScheduler, checkedAt: int, switchedAt: int, probed: Option<Metrics>)
    requires s.Valid() && s.lockedID != "" && s.activePath != null && s.activePath.id == s.lockedID
    requires checkedAt <= switchedAt && (s.switches != [] ==> s.switches[|s.switches| - 1] <= checkedAt)
    modifies s
    ensures s.Valid() && s.activePath == null
    ensures s.paths == old(s.paths) - {old(s.lockedID)} && s.lockedID == old(s.lockedID)
  {
    s.UnregisterPath(s.lockedID);
    s.AutoEvaluate(checkedAt, switchedAt, probed);
  }

  datatype Event =
    | Register(id: string, pathType: int, state: PathState, metrics: Metrics)
    | Unregister(id: string)
    | Lock(id: string)
    | Unlock
    | Switch(id: string)
    | Tick(probed: Option<Metrics>)

  /** Any run, each event coming some time after the last and taking some time between its two clock readings: the
      active path is null or has a registered id, and the path changes of SwitchTo are a cooldown apart. */
  method Run(switchCooldown: int, lossThreshold: real, events: seq<(Event, nat, nat)>) returns (s: LinkScheduler)
    requires switchCooldown >= 0
    ensures s.Valid() && s.switchCooldown == switchCooldown
    ensures s.activePath != null ==> s.activePath.id in s.paths
    ensures forall i :: 0 <= i < |s.switches| - 1 ==> s.switches[i + 1] - s.switches[i] >= switchCooldown
  {
    s := new LinkScheduler(switchCooldown, lossThreshold);
    var now := 0;
    for n := 0 to |events|
      invariant s.Valid() && fresh(s) && s.switchCooldown == switchCooldown
      invariant forall id :: id in s.paths ==> fresh(s.paths[id])
      invariant s.activePath != null ==> fresh(s.activePath)
      invariant s.switches != [] ==> s.switches[|s.switches| - 1] <= now
    {
      var checkedAt := now + events[n].1;
      var switchedAt := checkedAt + events[n].2;
      match events[n].0 {
        case Register(id, pathType, state, metrics) =>
          var path := new Path(id, pathType, state, metrics);
          s.RegisterPath(path, checkedAt);
        case Unregister(id) => s.UnregisterPath(id);
        case Lock(id) => var _ := s.LockPath(id);
        case Unlock => s.UnlockPath();
        case Switch(id) => var _ := s.SwitchTo(id, checkedAt, switchedAt);
        case Tick(probed) => s.AutoEvaluate(checkedAt, switchedAt, probed);
      }
      now := switchedAt;
    }
  }
}
