/**
  Trust-on-first-use certificate pinning. A check takes the read lock, and then the write lock if it has to change
  anything; other threads may run between the two. Each critical section is one atomic action of the system below.
 */
module CertPin {
  import opened Text
  import opened Domains

  const U64_MAX: nat := 0xFFFF_FFFF_FFFF_FFFF

  datatype Pin = Pin(fingerprints: seq<Bytes>, firstSeen: nat, lastSeen: nat, hitCount: nat)
  type Pins = map<Bytes, Pin>

  datatype PinCheck = FirstSeen | Match | Mismatch(expected: seq<Bytes>, got: Bytes)

  /** `saturating_add(1)` on a `u64`. */
  function Bumped(n: nat): nat {
    if n < U64_MAX then n + 1 else n
  }

  // ---------------------------------------------------------------- the critical sections

  datatype Lookup = Absent | Hit | Miss(expected: seq<Bytes>)

  /** What either lock holder finds for a host and a fingerprint. */
  function Look(pins: Pins, host: Bytes, fp: Bytes): Lookup {
    if host !in pins then Absent
    else if fp in pins[host].fingerprints then Hit
    else Miss(pins[host].fingerprints)
  }

  /** The write section of the fast path. */
  function Touch(pins: Pins, host: Bytes, now: nat): Pins {
    if host in pins then pins[host := pins[host].(lastSeen := now, hitCount := Bumped(pins[host].hitCount))] else pins
  }

  /** The write section of the slow path, once the host has been looked up again and is still absent. */
  function InsertNew(pins: Pins, host: Bytes, fp: Bytes, now: nat): Pins
    requires host !in pins
  {
    pins[host := Pin([fp], now, now, 1)]
  }

  /** The write section of `add_fingerprint`. */
  function AddTo(pins: Pins, host: Bytes, fp: Bytes, now: nat): Pins {
    var entry := if host in pins then pins[host] else Pin([], now, now, 0);
    pins[host := entry.(
      fingerprints := if fp in entry.fingerprints then entry.fingerprints else entry.fingerprints + [fp],
      lastSeen := now)]
  }

  // ---------------------------------------------------------------- threads

  /** Where a thread's check is; the clock was read at the start. */
  datatype Stage =
    | Started(host: Bytes, fp: Bytes, now: nat)
    | FoundHit(host: Bytes, fp: Bytes, now: nat)
    | FoundAbsent(host: Bytes, fp: Bytes, now: nat)

  datatype Entry =
    | Returned(host: Bytes, fp: Bytes, result: PinCheck)
    | Inserted(host: Bytes)
    | Touched(host: Bytes)

  datatype System = System(pins: Pins, threads: map<nat, Stage>, log: seq<Entry>)

  datatype Action =
    | Begin(t: nat, host: Bytes, fp: Bytes, now: nat)
    | Read(t: nat)
    | WriteHit(t: nat, persists: bool)
    | WriteAbsent(t: nat, persists: bool)
    | Add(host: Bytes, fp: Bytes, now: nat)

  /** One critical section of one thread. An action that is not enabled changes nothing. */
  function Step(s: System, a: Action): System {
    match a
    case Begin(t, host, fp, now) =>
      if t in s.threads then s else s.(threads := s.threads[t := Started(NormalizeHost(host), fp, now)])
    case Read(t) =>
      if t in s.threads && s.threads[t].Started? then
        var Started(host, fp, now) := s.threads[t];
        match Look(s.pins, host, fp)
        case Absent => s.(threads := s.threads[t := FoundAbsent(host, fp, now)])
        case Hit => s.(threads := s.threads[t := FoundHit(host, fp, now)])
        case Miss(expected) => s.(threads := s.threads - {t}, log := s.log + [Returned(host, fp, Mismatch(expected, fp))])
      else s
    case WriteHit(t, persists) =>
      if t in s.threads && s.threads[t].FoundHit? then
        var FoundHit(host, fp, now) := s.threads[t];
        System(Touch(s.pins, host, now), s.threads - {t},
               s.log + [Touched(host)] + if persists then [Returned(host, fp, Match)] else [])
      else s
    case WriteAbsent(t, persists) =>
      if t in s.threads && s.threads[t].FoundAbsent? then
        var FoundAbsent(host, fp, now) := s.threads[t];
        match Look(s.pins, host, fp)
        case Hit => s.(threads := s.threads - {t}, log := s.log + [Returned(host, fp, Match)])
        case Miss(expected) => s.(threads := s.threads - {t}, log := s.log + [Returned(host, fp, Mismatch(expected, fp))])
        case Absent =>
          System(InsertNew(s.pins, host, fp, now), s.threads - {t},
                 s.log + [Inserted(host)] + if persists then [Returned(host, fp, FirstSeen)] else [])
      else s
    case Add(host, fp, now) => s.(pins := AddTo(s.pins, NormalizeHost(host), fp, now))
  }

  /** Any interleaving of any number of checks and additions, from a loaded database. */
  function Run(loaded: Pins, actions: seq<Action>): System {
    if actions == [] then System(loaded, map[], [])
    else Step(Run(loaded, actions[..|actions| - 1]), actions[|actions| - 1])
  }

  // ---------------------------------------------------------------- counting

  function Count(log: seq<Entry>, e: Entry -> bool): nat {
    if log == [] then 0 else Count(log[..|log| - 1], e) + if e(log[|log| - 1]) then 1 else 0
  }

  lemma {:induction false} CountAppend(a: seq<Entry>, b: seq<Entry>, e: Entry -> bool)
    ensures Count(a + b, e) == Count(a, e) + Count(b, e)
    decreases |b|
  {
    if b == [] {
      assert a + b == a;
    } else {
      assert (a + b)[..|a + b| - 1] == a + b[..|b| - 1];
      CountAppend(a, b[..|b| - 1], e);
    }
  }

  function FirstSeenOf(host: Bytes): Entry -> bool {
    (e: Entry) => e.Returned? && e.host == host && e.result.FirstSeen?
  }

  function InsertedOf(host: Bytes): Entry -> bool {
    (e: Entry) => e == Inserted(host)
  }

  function TouchedOf(host: Bytes): Entry -> bool {
    (e: Entry) => e == Touched(host)
  }

  // ---------------------------------------------------------------- the invariant

  /** A log entry is backed by the recorded pins. */
  predicate Backed(loaded: Pins, pins: Pins, e: Entry) {
    match e
    case Returned(host, fp, result) =>
      result.Match? || result.FirstSeen? ==> host in pins && fp in pins[host].fingerprints
    case Inserted(host) => host in pins && host !in loaded
    case Touched(host) => host in pins
  }

  /** What the lock protects: answers given and answers under way are backed by the recorded pins. */
  ghost predicate Sound(loaded: Pins, s: System) {
    && (forall h | h in loaded :: h in s.pins && loaded[h].fingerprints <= s.pins[h].fingerprints)
    && (forall t | t in s.threads && s.threads[t].FoundHit? ::
          s.threads[t].host in s.pins && s.threads[t].fp in s.pins[s.threads[t].host].fingerprints)
    && (forall e | e in s.log :: Backed(loaded, s.pins, e))
  }

  /** Pins are never removed and fingerprints are only appended. */
  predicate Grows(a: Pins, b: Pins) {
    forall h | h in a :: h in b && a[h].fingerprints <= b[h].fingerprints
  }

  lemma StepGrows(s: System, a: Action)
    ensures Grows(s.pins, Step(s, a).pins)
  {
    hide NormalizeHost;
  }

  lemma SoundGrows(loaded: Pins, s: System, pins: Pins)
    requires Sound(loaded, s) && Grows(s.pins, pins)
    ensures Sound(loaded, s.(pins := pins))
  {
  }

  lemma InsertRecords(pins: Pins, host: Bytes, fp: Bytes, now: nat)
    requires host !in pins
    ensures host in InsertNew(pins, host, fp, now) && fp in InsertNew(pins, host, fp, now)[host].fingerprints
  {
  }

  lemma SoundStep(loaded: Pins, s: System, a: Action)
    requires Sound(loaded, s)
    ensures Sound(loaded, Step(s, a))
  {
    hide Step, Sound, Grows;
    StepGrows(s, a);
    SoundGrows(loaded, s, Step(s, a).pins);
    match a
    case WriteAbsent(t, persists) => SoundWriteAbsent(loaded, s, t, persists);
    case WriteHit(t, persists) => SoundWriteHit(loaded, s, t, persists);
    case _ => SoundElse(loaded, s, a);
  }

  /** A thread leaves, and what it logs is backed. */
  lemma SoundLeaves(loaded: Pins, s: System, t: nat, added: seq<Entry>)
    requires Sound(loaded, s) && forall e | e in added :: Backed(loaded, s.pins, e)
    ensures Sound(loaded, System(s.pins, s.threads - {t}, s.log + added))
  {
    hide Backed;
  }

  lemma SoundWriteAbsent(loaded: Pins, s: System, t: nat, persists: bool)
    requires Sound(loaded, s) && Sound(loaded, s.(pins := Step(s, WriteAbsent(t, persists)).pins))
    ensures Sound(loaded, Step(s, WriteAbsent(t, persists)))
  {
    hide InsertNew, Sound;
    if t in s.threads && s.threads[t].FoundAbsent? {
      var next := Step(s, WriteAbsent(t, persists));
      var FoundAbsent(host, fp, now) := s.threads[t];
      match Look(s.pins, host, fp)
      case Hit => SoundLeaves(loaded, s, t, [Returned(host, fp, Match)]);
      case Miss(expected) => SoundLeaves(loaded, s, t, [Returned(host, fp, Mismatch(expected, fp))]);
      case Absent =>
        InsertRecords(s.pins, host, fp, now);
        NotLoaded(loaded, s, host);
        var added := [Inserted(host)] + if persists then [Returned(host, fp, FirstSeen)] else [];
        SoundLeaves(loaded, s.(pins := next.pins), t, added);
        assert s.log + added == next.log;
    }
  }

  lemma NotLoaded(loaded: Pins, s: System, host: Bytes)
    requires Sound(loaded, s) && host !in s.pins
    ensures host !in loaded
  {
  }

  lemma SoundWriteHit(loaded: Pins, s: System, t: nat, persists: bool)
    requires Sound(loaded, s) && Sound(loaded, s.(pins := Step(s, WriteHit(t, persists)).pins))
    ensures Sound(loaded, Step(s, WriteHit(t, persists)))
  {
    hide Touch;
    if t in s.threads && s.threads[t].FoundHit? {
      var next := Step(s, WriteHit(t, persists));
      var FoundHit(host, fp, now) := s.threads[t];
      var added := [Touched(host)] + if persists then [Returned(host, fp, Match)] else [];
      SoundLeaves(loaded, s.(pins := next.pins), t, added);
      assert s.log + added == next.log;
    }
  }

  lemma SoundElse(loaded: Pins, s: System, a: Action)
    requires Sound(loaded, s) && Sound(loaded, s.(pins := Step(s, a).pins)) && !a.WriteAbsent? && !a.WriteHit?
    ensures Sound(loaded, Step(s, a))
  {
    hide NormalizeHost, AddTo;
  }

  lemma {:induction false} RunSound(loaded: Pins, actions: seq<Action>)
    ensures Sound(loaded, Run(loaded, actions))
    decreases |actions|
  {
    hide Step;
    if actions != [] {
      RunSound(loaded, actions[..|actions| - 1]);
      SoundStep(loaded, Run(loaded, actions[..|actions| - 1]), actions[|actions| - 1]);
    }
  }

  // ---------------------------------------------------------------- trust on first use

  /** Every answer given in a run that accepts a certificate is about a fingerprint recorded at the end of that run;
      taken at each prefix, it is recorded when the answer is given and ever after. */
  lemma AcceptedIsRecorded(loaded: Pins, actions: seq<Action>, e: Entry)
    requires e in Run(loaded, actions).log && e.Returned? && (e.result.Match? || e.result.FirstSeen?)
    ensures e.host in Run(loaded, actions).pins && e.fp in Run(loaded, actions).pins[e.host].fingerprints
  {
    hide Run;
    RunSound(loaded, actions);
  }

  /** Recorded fingerprints only grow along a run. */
  lemma {:induction false} FingerprintsGrow(loaded: Pins, actions: seq<Action>, n: nat)
    requires n <= |actions|
    ensures Grows(Run(loaded, actions[..n]).pins, Run(loaded, actions).pins)
    decreases |actions| - n
  {
    hide Step;
    if n == |actions| {
      assert actions[..n] == actions;
    } else {
      assert actions[..n + 1][..n] == actions[..n];
      StepGrows(Run(loaded, actions[..n]), actions[n]);
      FingerprintsGrow(loaded, actions, n + 1);
    }
  }

  /** The host an action is about, if it can write. */
  function Writes(s: System, a: Action): Option<Bytes> {
    match a
    case Add(host, _, _) => Some(NormalizeHost(host))
    case WriteHit(t, _) => if t in s.threads then Some(s.threads[t].host) else None
    case WriteAbsent(t, _) => if t in s.threads then Some(s.threads[t].host) else None
    case _ => None
  }

  /** One action writes at most the pin of its own host, and never changes when that host was first seen. */
  lemma OtherPinsUntouched(s: System, a: Action, host: Bytes)
    requires host in s.pins
    ensures host in Step(s, a).pins && Step(s, a).pins[host].firstSeen == s.pins[host].firstSeen
    ensures Writes(s, a) != Some(host) ==> Step(s, a).pins[host] == s.pins[host]
  {
    hide NormalizeHost;
  }

  /** A mismatch is answered with what is recorded, about a fingerprint that is not, and changes no pin. */
  lemma MismatchChangesNothing(s: System, a: Action, e: Entry)
    requires |s.log| <= |Step(s, a).log| && e in Step(s, a).log[|s.log|..] && e.Returned? && e.result.Mismatch?
    ensures Step(s, a).pins == s.pins
    ensures e.host in s.pins && e.result == Mismatch(s.pins[e.host].fingerprints, e.fp)
    ensures e.fp !in s.pins[e.host].fingerprints
  {
    hide NormalizeHost;
  }

  /** Insertions of one host by checks: at most one, none if it was there before, and none while it is absent. */
  lemma {:induction false} InsertedOnce(loaded: Pins, actions: seq<Action>, host: Bytes)
    ensures var s := Run(loaded, actions);
            && Count(s.log, InsertedOf(host)) <= 1
            && (host in loaded || host !in s.pins ==> Count(s.log, InsertedOf(host)) == 0)
            && Count(s.log, FirstSeenOf(host)) <= Count(s.log, InsertedOf(host))
    decreases |actions|
  {
    hide Step, Count, InsertedOf, FirstSeenOf;
    if actions == [] {
      CountNone(InsertedOf(host));
      CountNone(FirstSeenOf(host));
    } else {
      var s, a := Run(loaded, actions[..|actions| - 1]), actions[|actions| - 1];
      InsertedOnce(loaded, actions[..|actions| - 1], host);
      RunSound(loaded, actions[..|actions| - 1]);
      InsertedStep(s, a, host);
    }
  }

  lemma CountNone(e: Entry -> bool)
    ensures Count([], e) == 0
  {
  }

  /** How one action changes the two counts. */
  lemma InsertedStep(s: System, a: Action, host: Bytes)
    ensures var i := Count(Step(s, a).log, InsertedOf(host)) - Count(s.log, InsertedOf(host));
            && 0 <= i <= 1
            && (i == 1 ==> host !in s.pins && host in Step(s, a).pins)
            && 0 <= Count(Step(s, a).log, FirstSeenOf(host)) - Count(s.log, FirstSeenOf(host)) <= i
    ensures host in s.pins ==> host in Step(s, a).pins
  {
    hide NormalizeHost, Count;
    var added := Step(s, a).log[|s.log|..];
    assert Step(s, a).log == s.log + added;
    CountAppend(s.log, added, InsertedOf(host));
    CountAppend(s.log, added, FirstSeenOf(host));
    CountTwo(added, InsertedOf(host));
    CountTwo(added, FirstSeenOf(host));
  }

  lemma CountTwo(log: seq<Entry>, e: Entry -> bool)
    requires |log| <= 2
    ensures Count(log, e) == (if |log| >= 1 && e(log[0]) then 1 else 0) + (if |log| >= 2 && e(log[1]) then 1 else 0)
  {
    if |log| >= 1 {
      assert log[..1][..0] == [];
      assert |log| == 2 ==> log[..1] == [log[0]];
    }
  }

  /** Under every interleaving a host is answered FirstSeen at most once, and never if it was loaded. */
  lemma FirstSeenAtMostOnce(loaded: Pins, actions: seq<Action>, host: Bytes)
    ensures Count(Run(loaded, actions).log, FirstSeenOf(host)) <= if host in loaded then 0 else 1
  {
    hide Run, Count;
    InsertedOnce(loaded, actions, host);
  }

  // ---------------------------------------------------------------- hit counts

  function Saturated(n: nat): nat {
    if n < U64_MAX then n else U64_MAX
  }

  /** The hit count a pin starts from: loaded, inserted by a check, or created by an addition. */
  function StartCount(loaded: Pins, log: seq<Entry>, host: Bytes): nat {
    if host in loaded then loaded[host].hitCount else if Count(log, InsertedOf(host)) > 0 then 1 else 0
  }

  /** Hit counts: the starting count plus the fast-path matches, saturating. */
  lemma {:induction false} HitCounts(loaded: Pins, actions: seq<Action>, host: Bytes)
    requires forall h | h in loaded :: loaded[h].hitCount <= U64_MAX
    requires host in Run(loaded, actions).pins
    ensures var s := Run(loaded, actions);
            s.pins[host].hitCount == Saturated(StartCount(loaded, s.log, host) + Count(s.log, TouchedOf(host)))
    decreases |actions|
  {
    hide Step, Count, InsertedOf, TouchedOf;
    if actions == [] {
      CountNone(TouchedOf(host));
    } else {
      var front, a := actions[..|actions| - 1], actions[|actions| - 1];
      var s := Run(loaded, front);
      InsertedOnce(loaded, front, host);
      InsertedOnce(loaded, actions, host);
      RunSound(loaded, front);
      TouchedStep(s, a, host);
      InsertedStep(s, a, host);
      if host in s.pins {
        HitCounts(loaded, front, host);
      } else {
        NoTouchBefore(loaded, s, host);
      }
    }
  }

  /** How one action changes a host's hit count and the number of fast-path matches. */
  lemma TouchedStep(s: System, a: Action, host: Bytes)
    ensures var k := Count(Step(s, a).log, TouchedOf(host)) - Count(s.log, TouchedOf(host));
            var i := Count(Step(s, a).log, InsertedOf(host)) - Count(s.log, InsertedOf(host));
            && 0 <= k <= 1
            && (host in s.pins ==>
                  && i == 0
                  && host in Step(s, a).pins
                  && Step(s, a).pins[host].hitCount == if k == 1 then Bumped(s.pins[host].hitCount) else s.pins[host].hitCount)
            && (host !in s.pins && host in Step(s, a).pins ==> k == 0 && Step(s, a).pins[host].hitCount == i)
  {
    hide NormalizeHost, Count;
    var added := Step(s, a).log[|s.log|..];
    assert Step(s, a).log == s.log + added;
    CountAppend(s.log, added, InsertedOf(host));
    CountAppend(s.log, added, TouchedOf(host));
    CountTwo(added, InsertedOf(host));
    CountTwo(added, TouchedOf(host));
  }

  lemma NoTouchBefore(loaded: Pins, s: System, host: Bytes)
    requires Sound(loaded, s) && host !in s.pins
    ensures Count(s.log, TouchedOf(host)) == 0 && Count(s.log, InsertedOf(host)) == 0 && host !in loaded
  {
    hide Count;
    CountZero(s.log, TouchedOf(host));
    CountZero(s.log, InsertedOf(host));
  }

  lemma {:induction false} CountZero(log: seq<Entry>, e: Entry -> bool)
    requires forall x | x in log :: !e(x)
    ensures Count(log, e) == 0
  {
    if log != [] {
      assert log[|log| - 1] in log;
      CountZero(log[..|log| - 1], e);
    }
  }

  // ---------------------------------------------------------------- one thread at a time

  lemma RunSnoc(loaded: Pins, actions: seq<Action>, a: Action)
    ensures Run(loaded, actions + [a]) == Step(Run(loaded, actions), a)
  {
    assert (actions + [a])[..|actions|] == actions;
  }

  /** What a check returns; writing the file may fail. */
  datatype Outcome = Ok(result: PinCheck) | PersistFailed

  /** The actions of one check: the write section it needs, if any, is settled by what its read section finds. */
  function Checking(pins: Pins, t: nat, host: Bytes, fp: Bytes, now: nat, persists: bool): seq<Action> {
    [Begin(t, host, fp, now), Read(t)] +
    match Look(pins, NormalizeHost(host), fp)
    case Absent => [WriteAbsent(t, persists)]
    case Hit => [WriteHit(t, persists)]
    case Miss(_) => []
  }

  /** The log grew by exactly the answer given. */
  ghost predicate Answered(before: seq<Entry>, after: seq<Entry>, host: Bytes, fp: Bytes, r: Outcome) {
    before <= after && forall e: Entry | e.Returned? ::
      e in after[|before|..] <==> r.Ok? && e == Returned(host, fp, r.result)
  }

  lemma LogAppended(log: seq<Entry>, added: seq<Entry>, host: Bytes, fp: Bytes, r: Outcome)
    requires forall e: Entry | e.Returned? :: e in added <==> r.Ok? && e == Returned(host, fp, r.result)
    ensures Answered(log, log + added, host, fp, r)
  {
    assert (log + added)[|log|..] == added;
  }

  /** The first two sections of a check that runs alone. */
  lemma ReadAlone(s: System, t: nat, host: Bytes, fp: Bytes, now: nat)
    requires s.threads == map[]
    ensures var h := NormalizeHost(host);
            Step(Step(s, Begin(t, host, fp, now)), Read(t)) ==
            match Look(s.pins, h, fp)
            case Absent => s.(threads := map[t := FoundAbsent(h, fp, now)])
            case Hit => s.(threads := map[t := FoundHit(h, fp, now)])
            case Miss(expected) => s.(log := s.log + [Returned(h, fp, Mismatch(expected, fp))])
  {
    hide NormalizeHost;
  }

  /** The write section of a check that runs alone. */
  lemma WriteAlone(s: System, t: nat, host: Bytes, fp: Bytes, now: nat, persists: bool)
    requires s.threads == map[]
    ensures host !in s.pins ==>
              Step(s.(threads := map[t := FoundAbsent(host, fp, now)]), WriteAbsent(t, persists)) ==
              System(InsertNew(s.pins, host, fp, now), map[],
                     s.log + ([Inserted(host)] + if persists then [Returned(host, fp, FirstSeen)] else []))
    ensures Step(s.(threads := map[t := FoundHit(host, fp, now)]), WriteHit(t, persists)) ==
            System(Touch(s.pins, host, now), map[],
                   s.log + ([Touched(host)] + if persists then [Returned(host, fp, Match)] else []))
  {
    assert map[t := FoundAbsent(host, fp, now)] - {t} == map[];
    assert map[t := FoundHit(host, fp, now)] - {t} == map[];
  }

  /** A check that runs alone: its answer, the new pins, and no thread left behind. */
  lemma CheckingAlone(loaded: Pins, actions: seq<Action>, t: nat, host: Bytes, fp: Bytes, now: nat, persists: bool)
    returns (r: Outcome)
    requires Run(loaded, actions).threads == map[]
    ensures var s := Run(loaded, actions);
            var next := Run(loaded, actions + Checking(s.pins, t, host, fp, now, persists));
            var h := NormalizeHost(host);
            && next.threads == map[]
            && Answered(s.log, next.log, h, fp, r)
            && match Look(s.pins, h, fp)
               case Absent => next.pins == InsertNew(s.pins, h, fp, now) && r == (if persists then Ok(FirstSeen) else PersistFailed)
               case Hit => next.pins == Touch(s.pins, h, now) && r == (if persists then Ok(Match) else PersistFailed)
               case Miss(expected) => next.pins == s.pins && r == Ok(Mismatch(expected, fp))
  {
    hide Run, NormalizeHost, InsertNew, Touch, Answered;
    var s, h := Run(loaded, actions), NormalizeHost(host);
    var a, b := Begin(t, host, fp, now), Read(t);
    RunSnoc(loaded, actions, a);
    RunSnoc(loaded, actions + [a], b);
    ReadAlone(s, t, host, fp, now);
    WriteAlone(s, t, h, fp, now, persists);
    match Look(s.pins, h, fp)
    case Absent =>
      r := if persists then Ok(FirstSeen) else PersistFailed;
      RunSnoc(loaded, actions + [a] + [b], WriteAbsent(t, persists));
      assert actions + [a] + [b] + [WriteAbsent(t, persists)] == actions + Checking(s.pins, t, host, fp, now, persists);
      LogAppended(s.log, [Inserted(h)] + if persists then [Returned(h, fp, FirstSeen)] else [], h, fp, r);
    case Hit =>
      r := if persists then Ok(Match) else PersistFailed;
      RunSnoc(loaded, actions + [a] + [b], WriteHit(t, persists));
      assert actions + [a] + [b] + [WriteHit(t, persists)] == actions + Checking(s.pins, t, host, fp, now, persists);
      LogAppended(s.log, [Touched(h)] + if persists then [Returned(h, fp, Match)] else [], h, fp, r);
    case Miss(expected) =>
      r := Ok(Mismatch(expected, fp));
      assert actions + [a] + [b] == actions + Checking(s.pins, t, host, fp, now, persists);
      LogAppended(s.log, [Returned(h, fp, r.result)], h, fp, r);
  }

  /** `CertPinDb`, used by one thread at a time: each call is its own actions of the system above, run without
      interruption, so everything proved of runs holds of the object. `persists` says whether a write of the file
      succeeds. */
  class CertPinDb {
    var pins: Pins

    ghost const loaded: Pins
    ghost var actions: seq<Action>

    ghost predicate Valid()
      reads this
    {
      Run(loaded, actions).pins == pins && Run(loaded, actions).threads == map[]
    }

    constructor (pins: Pins)
      ensures Valid() && loaded == pins && actions == []
      ensures this.pins == pins
    {
      this.pins := pins;
      loaded, actions := pins, [];
    }

    /** `check_and_update`. */
    method CheckAndUpdate(host: Bytes, fp: Bytes, now: nat, persists: bool) returns (r: Outcome)
      requires Valid()
      modifies this
      ensures Valid()
      ensures actions == old(actions) + Checking(old(pins), 0, host, fp, now, persists)
      ensures Answered(Run(loaded, old(actions)).log, Run(loaded, actions).log, NormalizeHost(host), fp, r)
      ensures var h := NormalizeHost(host);
              match Look(old(pins), h, fp)
              case Absent => pins == old(pins)[h := Pin([fp], now, now, 1)] && r == (if persists then Ok(FirstSeen) else PersistFailed)
              case Hit =>
                && r == (if persists then Ok(Match) else PersistFailed)
                && pins == old(pins)[h := old(pins)[h].(
                             lastSeen := now,
                             hitCount := if old(pins)[h].hitCount < U64_MAX then old(pins)[h].hitCount + 1 else old(pins)[h].hitCount)]
              case Miss(expected) => pins == old(pins) && r == Ok(Mismatch(expected, fp))
    {
      hide NormalizeHost, Run, Answered, Checking;
      ghost var answer := CheckingAlone(loaded, actions, 0, host, fp, now, persists);
      actions := actions + Checking(pins, 0, host, fp, now, persists);
      var normalized := NormalizeHost(host);
      if normalized in pins {
        var pin := pins[normalized];
        if fp in pin.fingerprints {
          pins := Touch(pins, normalized, now);
          return if persists then Ok(Match) else PersistFailed;
        }
        return Ok(Mismatch(pin.fingerprints, fp));
      }
      pins := InsertNew(pins, normalized, fp, now);
      r := if persists then Ok(FirstSeen) else PersistFailed;
    }

    /** `add_fingerprint`: afterwards the fingerprint is recorded, and a check of it matches. */
    method AddFingerprint(host: Bytes, fp: Bytes, now: nat, persists: bool) returns (ok: bool)
      requires Valid()
      modifies this
      ensures Valid()
      ensures actions == old(actions) + [Add(host, fp, now)]
      ensures var h := NormalizeHost(host);
              && pins.Keys == old(pins).Keys + {h}
              && (forall k | k in old(pins) && k != h :: pins[k] == old(pins)[k])
              && (h !in old(pins) ==> pins[h] == Pin([fp], now, now, 0))
              && (h in old(pins) ==>
                    && pins[h] == old(pins)[h].(fingerprints := pins[h].fingerprints, lastSeen := now)
                    && pins[h].fingerprints ==
                       old(pins)[h].fingerprints + if fp in old(pins)[h].fingerprints then [] else [fp])
      ensures Look(pins, NormalizeHost(host), fp) == Hit
      ensures ok == persists
    {
      hide NormalizeHost, Run;
      RunSnoc(loaded, actions, Add(host, fp, now));
      actions := actions + [Add(host, fp, now)];
      pins := AddTo(pins, NormalizeHost(host), fp, now);
      ok := persists;
    }
  }
}
