/**
  The receipts store. A recorder updates a host under the write lock and sets the dirty flag before it releases the
  lock; a flush clears the flag, prunes under the write lock, and clones the map under the read lock. The flag is not
  protected by the lock, so a flush may clear it between the two halves of a recorder.
 */
module Receipts {
  import opened Text
  import opened Domains

  const MAX_AGE: nat := 6 * 3600

  datatype HostReceipt = HostReceipt(counters: map<Bytes, nat>, lastSeen: nat)
  type Hosts = map<Bytes, HostReceipt>

  const NO_RECEIPT := HostReceipt(map[], 0)

  /** A recorder's closure, followed by the time stamp. */
  function Updated(hosts: Hosts, host: Bytes, update: HostReceipt -> HostReceipt, now: nat): Hosts {
    hosts[host := update(if host in hosts then hosts[host] else NO_RECEIPT).(lastSeen := now)]
  }

  function Cutoff(now: nat): nat {
    if now < MAX_AGE then 0 else now - MAX_AGE
  }

  /** `prune_stale_hosts`. */
  function Pruned(hosts: Hosts, cutoff: nat): Hosts {
    map h | h in hosts && hosts[h].lastSeen >= cutoff :: hosts[h]
  }

  // ---------------------------------------------------------------- recorders and flushers, interleaved

  /** What has happened to the map. */
  datatype Change =
    | Update(host: Bytes, update: HostReceipt -> HostReceipt, now: nat)
    | Prune(cutoff: nat)

  function Apply(hosts: Hosts, c: Change): Hosts {
    match c
    case Update(host, update, now) => Updated(hosts, host, update, now)
    case Prune(cutoff) => Pruned(hosts, cutoff)
  }

  function Replay(loaded: Hosts, changes: seq<Change>): Hosts {
    if changes == [] then loaded else Apply(Replay(loaded, changes[..|changes| - 1]), changes[|changes| - 1])
  }

  /** How far a flush has come: the flag is cleared, or the map is pruned too. */
  datatype FlushStage = Cleared | Trimmed

  /** `writer` is the recorder inside the write lock that has updated the map and not yet set the flag;
      `snapshot` is the last clone taken, and `covered` the number of changes it reflects. */
  datatype System = System(
    hosts: Hosts,
    dirty: bool,
    writer: Option<nat>,
    flushers: map<nat, FlushStage>,
    snapshot: Hosts,
    changes: seq<Change>,
    covered: nat)

  datatype Action =
    | RecordUpdate(t: nat, host: Bytes, update: HostReceipt -> HostReceipt, now: nat)
    | RecordFlag(t: nat)
    | FlushSwap(f: nat)
    | FlushPrune(f: nat, now: nat)
    | FlushSnapshot(f: nat)

  /** One atomic step. An action that is not enabled, for instance because the lock is held, changes nothing. */
  function Step(s: System, a: Action): System {
    match a
    case RecordUpdate(t, host, update, now) =>
      var h := NormalizeHost(host);
      if s.writer.Some? || h == [] then s
      else s.(hosts := Updated(s.hosts, h, update, now), writer := Some(t), changes := s.changes + [Update(h, update, now)])
    case RecordFlag(t) =>
      if s.writer == Some(t) then s.(dirty := true, writer := None) else s
    case FlushSwap(f) =>
      if f in s.flushers || !s.dirty then s else s.(dirty := false, flushers := s.flushers[f := Cleared])
    case FlushPrune(f, now) =>
      if s.writer.None? && f in s.flushers && s.flushers[f].Cleared? then
        s.(hosts := Pruned(s.hosts, Cutoff(now)),
           flushers := s.flushers[f := Trimmed],
           changes := s.changes + [Prune(Cutoff(now))])
      else s
    case FlushSnapshot(f) =>
      if s.writer.None? && f in s.flushers && s.flushers[f].Trimmed? then
        s.(snapshot := s.hosts, flushers := s.flushers - {f}, covered := |s.changes|)
      else s
  }

  function Run(loaded: Hosts, actions: seq<Action>): System {
    if actions == [] then System(loaded, false, None, map[], loaded, [], 0)
    else Step(Run(loaded, actions[..|actions| - 1]), actions[|actions| - 1])
  }

  /** The changes whose recorder has finished: all but one under way. */
  function Completed(s: System): int {
    if s.writer.Some? then |s.changes| - 1 else |s.changes|
  }

  /** A flush is under way that has cleared the flag and will still take its snapshot. */
  predicate FlushPending(s: System) {
    s.flushers != map[]
  }

  ghost predicate Inv(loaded: Hosts, s: System) {
    && s.hosts == Replay(loaded, s.changes)
    && s.covered <= Completed(s)
    && s.snapshot == Replay(loaded, s.changes[..s.covered])
    && (s.dirty || FlushPending(s) || s.covered == Completed(s))
  }

  lemma ReplayStep(loaded: Hosts, changes: seq<Change>, c: Change, n: nat)
    requires n <= |changes|
    ensures Replay(loaded, changes + [c]) == Apply(Replay(loaded, changes), c)
    ensures (changes + [c])[..n] == changes[..n]
  {
    assert (changes + [c])[..|changes|] == changes;
  }

  lemma InvStep(loaded: Hosts, s: System, a: Action)
    requires Inv(loaded, s)
    ensures Inv(loaded, Step(s, a))
  {
    hide NormalizeHost, Updated, Pruned, Replay;
    match a
    case RecordUpdate(t, host, update, now) =>
      ReplayStep(loaded, s.changes, Update(NormalizeHost(host), update, now), s.covered);
    case RecordFlag(t) =>
    case FlushSwap(f) =>
      assert f in s.flushers[f := Cleared];
    case FlushPrune(f, now) =>
      ReplayStep(loaded, s.changes, Prune(Cutoff(now)), s.covered);
      assert f in s.flushers[f := Trimmed];
    case FlushSnapshot(f) =>
      assert s.changes[..|s.changes|] == s.changes;
  }

  lemma {:induction false} RunInv(loaded: Hosts, actions: seq<Action>)
    ensures Inv(loaded, Run(loaded, actions))
    decreases |actions|
  {
    hide Step;
    if actions != [] {
      RunInv(loaded, actions[..|actions| - 1]);
      InvStep(loaded, Run(loaded, actions[..|actions| - 1]), actions[|actions| - 1]);
    }
  }

  /** No lost receipt: under every interleaving of recorders and flushes, each completed update is covered by the flag,
      by a flush that will still take its snapshot, or by the last snapshot, which is the replay of all it covers. */
  lemma NoLostReceipt(loaded: Hosts, actions: seq<Action>, i: nat)
    requires i < Completed(Run(loaded, actions))
    ensures var s := Run(loaded, actions);
            && (s.dirty || FlushPending(s) || i < s.covered)
            && s.covered <= |s.changes| && s.snapshot == Replay(loaded, s.changes[..s.covered])
  {
    hide Run, Replay;
    RunInv(loaded, actions);
  }

  /** When everything is quiet, the last snapshot is the map in memory. */
  lemma QuietMeansSaved(loaded: Hosts, actions: seq<Action>)
    requires var s := Run(loaded, actions); !s.dirty && !FlushPending(s) && s.writer.None?
    ensures Run(loaded, actions).snapshot == Run(loaded, actions).hosts
  {
    hide Run, Replay;
    RunInv(loaded, actions);
    var s := Run(loaded, actions);
    assert s.changes[..|s.changes|] == s.changes;
  }

  /** A snapshot contains every host whose covered updates are all recent enough for the prunes that followed them. */
  lemma {:induction false} RecentHostKept(loaded: Hosts, changes: seq<Change>, i: nat, host: Bytes)
    requires i < |changes| && changes[i].Update? && changes[i].host == host
    requires forall j, k | i <= j < k < |changes| && changes[j].Update? && changes[j].host == host && changes[k].Prune? ::
               changes[k].cutoff <= changes[j].now
    ensures host in Replay(loaded, changes)
    ensures exists j :: i <= j < |changes| && changes[j].Update? && changes[j].host == host
                        && Replay(loaded, changes)[host].lastSeen == changes[j].now
    decreases |changes|
  {
    var n := |changes| - 1;
    if i == n {
      assert Replay(loaded, changes)[host].lastSeen == changes[i].now;
    } else {
      var front := changes[..n];
      RecentHostKept(loaded, front, i, host);
      var j :| i <= j < |front| && front[j].Update? && front[j].host == host
               && Replay(loaded, front)[host].lastSeen == front[j].now;
      assert changes[j] == front[j];
      if changes[n].Update? && changes[n].host == host {
        assert Replay(loaded, changes)[host].lastSeen == changes[n].now;
      } else {
        assert Replay(loaded, changes)[host].lastSeen == changes[j].now;
      }
    }
  }

  /** After a prune no host is older than its cutoff, until a recorder writes it again. */
  lemma {:induction false} StaleHostGone(loaded: Hosts, changes: seq<Change>, k: nat, host: Bytes)
    requires k < |changes| && changes[k].Prune?
    requires forall j | k < j < |changes| :: !(changes[j].Update? && changes[j].host == host)
    requires host in Replay(loaded, changes)
    ensures Replay(loaded, changes)[host].lastSeen >= changes[k].cutoff
    ensures host in Replay(loaded, changes[..k]) && Replay(loaded, changes)[host] == Replay(loaded, changes[..k])[host]
    decreases |changes|
  {
    var n := |changes| - 1;
    if k < n {
      StaleHostGone(loaded, changes[..n], k, host);
      assert changes[..n][..k] == changes[..k];
    }
  }

  // ---------------------------------------------------------------- one thread at a time

  /** No recorder and no flush is under way. */
  predicate Idle(s: System) {
    s.writer.None? && s.flushers == map[]
  }

  lemma RunSnoc(loaded: Hosts, actions: seq<Action>, a: Action)
    ensures Run(loaded, actions + [a]) == Step(Run(loaded, actions), a)
  {
    assert (actions + [a])[..|actions|] == actions;
  }

  /** The actions of one recorder. */
  function Recording(t: nat, host: Bytes, update: HostReceipt -> HostReceipt, now: nat): seq<Action> {
    [RecordUpdate(t, host, update, now), RecordFlag(t)]
  }

  /** The actions of one flush. */
  function Flushing(f: nat, now: nat): seq<Action> {
    [FlushSwap(f), FlushPrune(f, now), FlushSnapshot(f)]
  }

  /** A recorder that runs alone leaves the store idle with its update made and flagged. */
  lemma RecordingAlone(loaded: Hosts, actions: seq<Action>, t: nat, host: Bytes, update: HostReceipt -> HostReceipt, now: nat)
    requires Idle(Run(loaded, actions))
    ensures var s, r := Run(loaded, actions), Run(loaded, actions + Recording(t, host, update, now));
            var h := NormalizeHost(host);
            && Idle(r) && r.snapshot == s.snapshot
            && r.hosts == (if h == [] then s.hosts else Updated(s.hosts, h, update, now))
            && r.dirty == (h != [] || s.dirty)
  {
    hide Run, NormalizeHost, Updated;
    var a := RecordUpdate(t, host, update, now);
    RunSnoc(loaded, actions, a);
    RunSnoc(loaded, actions + [a], RecordFlag(t));
    assert actions + [a] + [RecordFlag(t)] == actions + Recording(t, host, update, now);
  }

  /** A flush that runs alone leaves the store idle and clean; if it was dirty, it was pruned and that is the snapshot. */
  lemma FlushingAlone(loaded: Hosts, actions: seq<Action>, f: nat, now: nat)
    requires Idle(Run(loaded, actions))
    ensures var s, r := Run(loaded, actions), Run(loaded, actions + Flushing(f, now));
            && Idle(r) && !r.dirty
            && r.hosts == (if s.dirty then Pruned(s.hosts, Cutoff(now)) else s.hosts)
            && r.snapshot == (if s.dirty then r.hosts else s.snapshot)
  {
    hide Run, Pruned;
    var a, b, c := FlushSwap(f), FlushPrune(f, now), FlushSnapshot(f);
    RunSnoc(loaded, actions, a);
    RunSnoc(loaded, actions + [a], b);
    RunSnoc(loaded, actions + [a] + [b], c);
    assert actions + [a] + [b] + [c] == actions + Flushing(f, now);
  }

  /** `ReceiptStore`, used by one thread at a time: each call is its own actions of the system above, run without
      interruption, so everything proved of runs holds of the object. */
  class ReceiptStore {
    var hosts: Hosts
    var dirty: bool

    ghost const loaded: Hosts
    ghost var actions: seq<Action>

    ghost predicate Valid()
      reads this
    {
      var s := Run(loaded, actions);
      Idle(s) && s.hosts == hosts && s.dirty == dirty
    }

    constructor (loaded: Hosts)
      ensures Valid() && this.loaded == loaded && actions == []
      ensures hosts == loaded && !dirty
    {
      hosts, dirty := loaded, false;
      this.loaded, actions := loaded, [];
    }

    /** `inc_counter`; a host that normalizes to nothing is ignored. */
    method IncCounter(host: Bytes, update: HostReceipt -> HostReceipt, now: nat)
      requires Valid()
      modifies this
      ensures Valid()
      ensures actions == old(actions) + Recording(0, host, update, now)
      ensures var h := NormalizeHost(host);
              if h == [] then hosts == old(hosts) && dirty == old(dirty)
              else
                && dirty && hosts.Keys == old(hosts).Keys + {h}
                && hosts[h] == update(if h in old(hosts) then old(hosts)[h] else HostReceipt(map[], 0)).(lastSeen := now)
                && forall k | k in old(hosts) && k != h :: hosts[k] == old(hosts)[k]
    {
      hide Run, NormalizeHost;
      RecordingAlone(loaded, actions, 0, host, update, now);
      actions := actions + Recording(0, host, update, now);
      var normalized := NormalizeHost(host);
      if normalized == [] { return; }
      hosts := Updated(hosts, normalized, update, now);
      dirty := true;
    }

    /** `flush_if_dirty`: the snapshot handed to the persisting task, if there is one. Afterwards the last snapshot
        taken, by this call or an earlier one, is the map in memory. */
    method FlushIfDirty(now: nat) returns (snapshot: Option<Hosts>)
      requires Valid()
      modifies this
      ensures Valid() && !dirty
      ensures actions == old(actions) + Flushing(0, now)
      ensures snapshot.Some? <==> old(dirty)
      ensures snapshot.Some? ==> snapshot.value == hosts
      ensures Run(loaded, actions).snapshot == hosts
      ensures !old(dirty) ==> hosts == old(hosts)
      ensures old(dirty) ==>
                && (forall h :: h in hosts <==> h in old(hosts) && old(hosts)[h].lastSeen + MAX_AGE >= now)
                && forall h | h in hosts :: hosts[h] == old(hosts)[h]
    {
      hide Run;
      FlushingAlone(loaded, actions, 0, now);
      actions := actions + Flushing(0, now);
      QuietMeansSaved(loaded, actions);
      if !dirty { return None; }
      dirty := false;
      hosts := Pruned(hosts, Cutoff(now));
      snapshot := Some(hosts);
    }
  }
}
