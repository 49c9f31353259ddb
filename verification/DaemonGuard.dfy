/** Ensuring a daemon: probe, compare versions, replace a stale one, or start the first. */
module DaemonGuard {
  import opened Common
  import opened BinaryResolver

  /** A daemon process: instances are told apart by `id`. */
  datatype Daemon = Daemon(id: nat, version: Option<string>)

  /** The daemon owning the socket, if any; spawned ones that did not come up in time; the
      instances told to shut down so far; and all that `ensure_daemon` has spawned. */
  datatype World = World(daemon: Option<Daemon>, late: seq<Daemon>, next: nat, told: set<nat>, spawned: set<nat>)

  /** One call of `ensure_daemon` and what its environment answers: the binaries on disk, whether
      a live daemon answers the liveness probe and the version query, and, poll by poll until the
      deadline, whether the socket still answers after a shutdown and yet answers after a spawn. */
  datatype Call = Call(remote: bool, spawn: bool, checkVersion: bool, disk: Disk, answersProbe: bool,
                       answersVersion: bool, stopPolls: seq<bool>, startPolls: seq<bool>)

  datatype Outcome = Client | NoDaemon | NoMatchingBinary

  /** `spawn_daemon`, followed by waiting for the socket. `chosen` is the resolved binary. */
  function Spawn(w: World, c: Call, chosen: Option<Binary>): (World, Outcome)
  {
    match chosen
    case None => (w, NoMatchingBinary)
    case Some(b) =>
      var v := w.(next := w.next + 1, spawned := w.spawned + {w.next});
      var d := Daemon(w.next, b.version);
      if true in c.startPolls then (v.(daemon := Some(d)), Client) else (v.(late := v.late + [d]), NoDaemon)
  }

  /** The version a live daemon reports, None when it does not answer or is older than versions. */
  function RunningVersion(d: Daemon, answers: bool): Option<string>
  {
    if answers then d.version else None
  }

  /** A live daemon is replaced only on a known mismatch. */
  predicate Mismatch(w: World, c: Call, expected: Option<string>)
  {
    && !c.remote && w.daemon.Some? && c.answersProbe && expected.Some? && c.checkVersion
    && RunningVersion(w.daemon.value, c.answersVersion) != expected
  }

  function EnsureDaemon(w: World, c: Call, expected: Option<string>, chosen: Option<Binary>): (World, Outcome)
  {
    if c.remote then (w, if c.answersProbe then Client else NoDaemon)
    else if Mismatch(w, c, expected) then
      var told := w.(told := w.told + {w.daemon.value.id});
      if false !in c.stopPolls then (told, Client)
      else
        var gone := told.(daemon := None);
        if !c.spawn then (gone, NoDaemon) else Spawn(gone, c, chosen)
    else if w.daemon.Some? && c.answersProbe then (w, Client)
    else if !c.spawn then (w, NoDaemon)
    else Spawn(w, c, chosen)
  }

  // ----- What a call promises ------------------------------------------------------------------

  /** A daemon was there and answered. */
  predicate Found(w: World, c: Call)
  {
    w.daemon.Some? && c.answersProbe
  }

  /** It is asked to stop: versions are checked, the expected one is known, and it says another one
      or none. */
  predicate Unwanted(w: World, c: Call, expected: Option<string>)
  {
    && Found(w, c) && c.checkVersion && expected.Some?
    && !(c.answersVersion && w.daemon.value.version == expected)
  }

  /** It was asked to stop and was seen gone before the deadline. */
  predicate Stopped(w: World, c: Call, expected: Option<string>)
  {
    Unwanted(w, c, expected) && false in c.stopPolls
  }

  /** A daemon has to be spawned: none answered, or the one that did has been stopped. */
  predicate MustSpawn(w: World, c: Call, expected: Option<string>)
  {
    !c.remote && c.spawn && (!Found(w, c) || Stopped(w, c, expected))
  }

  /** The state and the answer that a call promises: who is told, what is spawned, who owns the socket
      afterwards, and whether the caller gets a client. */
  ghost predicate IsPromised(w: World, c: Call, expected: Option<string>, chosen: Option<Binary>, v: World, outcome: Outcome)
  {
    if c.remote then v == w && outcome == if c.answersProbe then Client else NoDaemon
    else
      var kept := Found(w, c) && !Stopped(w, c, expected);
      var started := MustSpawn(w, c, expected) && chosen.Some? && true in c.startPolls;
      && (outcome == Client <==> kept || started)
      && (outcome == NoMatchingBinary <==> MustSpawn(w, c, expected) && chosen.None?)
      && v.told == w.told + (if Unwanted(w, c, expected) then {w.daemon.value.id} else {})
      && v.spawned == w.spawned + (if MustSpawn(w, c, expected) && chosen.Some? then {w.next} else {})
      && v.late == w.late + (if MustSpawn(w, c, expected) && chosen.Some? && !started
                             then [Daemon(w.next, chosen.value.version)] else [])
      && v.next == w.next + (if MustSpawn(w, c, expected) && chosen.Some? then 1 else 0)
      && v.daemon == (if started then Some(Daemon(w.next, chosen.value.version))
                      else if Stopped(w, c, expected) then None else w.daemon)
      && (outcome == Client ==> v.daemon.Some?)
  }

  lemma EnsureKeepsPromise(w: World, c: Call, expected: Option<string>, chosen: Option<Binary>)
    ensures var (v, outcome) := EnsureDaemon(w, c, expected, chosen);
            IsPromised(w, c, expected, chosen, v, outcome)
  {
  }

  /** The machine the daemons run on. */
  class Machine {
    var world: World

    constructor (found: Option<string>, any: bool)
      ensures world == Initial(found, any)
    {
      world := Initial(found, any);
    }

    /** `_stop_stale_daemon`: tell it to shut down, then poll until it is gone or time is up. */
    method StopStaleDaemon(polls: seq<bool>) returns (stopped: bool)
      requires world.daemon.Some?
      modifies this
      ensures stopped == (false in polls)
      ensures var told := old(world).(told := old(world).told + {old(world).daemon.value.id});
              world == if stopped then told.(daemon := None) else told
    {
      world := world.(told := world.told + {world.daemon.value.id});
      for i := 0 to |polls|
        invariant false !in polls[..i]
        invariant world == old(world).(told := old(world).told + {old(world).daemon.value.id})
      {
        if !polls[i] {
          world := world.(daemon := None);
          return true;
        }
      }
      return false;
    }

    method SpawnDaemon(b: Binary) returns (d: Daemon)
      modifies this
      ensures d == Daemon(old(world).next, b.version)
      ensures world == old(world).(next := old(world).next + 1, spawned := old(world).spawned + {d.id},
                                   late := old(world).late + [d])
    {
      d := Daemon(world.next, b.version);
      world := world.(next := world.next + 1, spawned := world.spawned + {d.id}, late := world.late + [d]);
    }

    /** Polls the socket until the daemon just spawned owns it, or time is up. */
    method AwaitDaemon(polls: seq<bool>) returns (up: bool)
      requires world.late != []
      modifies this
      ensures up == (true in polls)
      ensures var n := |old(world).late| - 1;
              world == if up then old(world).(daemon := Some(old(world).late[n]), late := old(world).late[..n])
                       else old(world)
    {
      for i := 0 to |polls|
        invariant true !in polls[..i] && world == old(world)
      {
        if polls[i] {
          var n := |world.late| - 1;
          world := world.(daemon := Some(world.late[n]), late := world.late[..n]);
          return true;
        }
      }
      return false;
    }

    method SpawnAndAwait(c: Call, expected: Option<string>, ghost chosen: Option<Binary>) returns (outcome: Outcome)
      requires IsResolved(c.disk, expected, chosen)
      modifies this
      ensures (world, outcome) == Spawn(old(world), c, chosen)
    {
      hide IsResolved;
      var found := Resolve(c.disk, expected);
      ResolvedUnique(c.disk, expected, found, chosen);
      if found.None? {
        return NoMatchingBinary;
      }
      var d := SpawnDaemon(found.value);
      assert world.late[..|world.late| - 1] == old(world).late;
      var up := AwaitDaemon(c.startPolls);
      return if up then Client else NoDaemon;
    }

    method Ensure(c: Call, expected: Option<string>, ghost chosen: Option<Binary>) returns (outcome: Outcome)
      requires IsResolved(c.disk, expected, chosen)
      modifies this
      ensures IsPromised(old(world), c, expected, chosen, world, outcome)
      ensures (world, outcome) == EnsureDaemon(old(world), c, expected, chosen)
    {
      hide IsResolved, Spawn, IsPromised;
      EnsureKeepsPromise(world, c, expected, chosen);
      if c.remote {
        return if c.answersProbe then Client else NoDaemon;
      }
      if world.daemon.Some? && c.answersProbe {
        if expected.Some? && c.checkVersion {
          var running := RunningVersion(world.daemon.value, c.answersVersion);
          if running != expected {
            var stopped := StopStaleDaemon(c.stopPolls);
            if !stopped {
              return Client;
            }
            if !c.spawn {
              return NoDaemon;
            }
            outcome := SpawnAndAwait(c, expected, chosen);
            return;
          }
        }
        return Client;
      }
      if !c.spawn {
        return NoDaemon;
      }
      outcome := SpawnAndAwait(c, expected, chosen);
    }
  }

  // ----- Runs -------------------------------------------------------------------------------

  /** Between calls a daemon may die on its own, or one that was late take a free socket. */
  datatype Event = Ensure(c: Call, chosen: Option<Binary>) | Dies | ComesUp(i: nat)

  function Step(w: World, e: Event, expected: Option<string>): World
  {
    match e
    case Ensure(c, chosen) => EnsureDaemon(w, c, expected, chosen).0
    case Dies => w.(daemon := None)
    case ComesUp(i) => if w.daemon.None? && i < |w.late| then w.(daemon := Some(w.late[i])) else w
  }

  function Run(w: World, events: seq<Event>, expected: Option<string>): World
    decreases |events|
  {
    if events == [] then w else Run(Step(w, events[0], expected), events[1..], expected)
  }

  /** The daemon found at the start, if any, is instance 0. */
  function Initial(found: Option<string>, any: bool): World
  {
    World(if any then Some(Daemon(0, found)) else None, [], 1, {}, {})
  }

  /** Live daemons answer, with their binary's version; binaries come from a dev tree, which may
      be rebuilt between calls. */
  ghost predicate IsOrdinary(e: Event, expected: string)
  {
    e.Ensure? ==> && e.c.answersProbe && e.c.answersVersion
                  && IsDevTree(e.c.disk) && IsResolved(e.c.disk, Some(expected), e.chosen)
  }

  ghost predicate IsCurrent(w: World, d: Daemon, expected: string)
  {
    d.id in w.spawned && d.version == Some(expected)
  }

  ghost predicate Inv(w: World, expected: string)
  {
    && 0 !in w.spawned && w.told <= {0} && w.next > 0
    && (w.daemon.Some? ==> w.daemon.value.id == 0 || IsCurrent(w, w.daemon.value, expected))
    && (forall i :: 0 <= i < |w.late| ==> IsCurrent(w, w.late[i], expected))
  }

  lemma StepKeepsInv(w: World, e: Event, expected: string)
    requires Inv(w, expected) && IsOrdinary(e, expected)
    ensures Inv(Step(w, e, Some(expected)), expected)
  {
    hide IsResolved;
    if e.Ensure? {
      DevTreeChoice(e.c.disk, expected, e.chosen);
    }
  }

  lemma {:induction false} RunKeepsInv(w: World, events: seq<Event>, expected: string)
    requires Inv(w, expected) && (forall e :: e in events ==> IsOrdinary(e, expected))
    ensures Inv(Run(w, events, Some(expected)), expected)
    decreases |events|
  {
    hide Inv, IsOrdinary, Step;
    if events != [] {
      StepKeepsInv(w, events[0], expected);
      RunKeepsInv(Step(w, events[0], Some(expected)), events[1..], expected);
    }
  }

  ghost predicate NobodyStale(w: World, expected: string)
  {
    && w.told == {} && (w.daemon.Some? ==> w.daemon.value.version == Some(expected))
    && forall i :: 0 <= i < |w.late| ==> w.late[i].version == Some(expected)
  }

  lemma StepTellsNobody(w: World, e: Event, expected: string)
    requires NobodyStale(w, expected) && IsOrdinary(e, expected)
    ensures NobodyStale(Step(w, e, Some(expected)), expected)
  {
    hide IsResolved;
    if e.Ensure? {
      DevTreeChoice(e.c.disk, expected, e.chosen);
    }
  }

  lemma {:induction false} NobodyTold(w: World, events: seq<Event>, expected: string)
    requires NobodyStale(w, expected) && (forall e :: e in events ==> IsOrdinary(e, expected))
    ensures Run(w, events, Some(expected)).told == {}
    decreases |events|
  {
    hide IsOrdinary, Step;
    if events != [] {
      StepTellsNobody(w, events[0], expected);
      NobodyTold(Step(w, events[0], Some(expected)), events[1..], expected);
    }
  }

  /** No restart loop: in a dev tree with a known expected version and daemons that answer, any
      sequence of calls tells at most one daemon to shut down, the one found at the start, and it
      only if it was stale; a daemon that was spawned is never told. */
  lemma NoRestartLoop(expected: string, found: Option<string>, any: bool, events: seq<Event>)
    requires forall e :: e in events ==> IsOrdinary(e, expected)
    ensures var w := Run(Initial(found, any), events, Some(expected));
            w.told <= {0} && w.told !! w.spawned
            && (found == Some(expected) || !any ==> w.told == {})
  {
    hide IsOrdinary, Run;
    RunKeepsInv(Initial(found, any), events, expected);
    if found == Some(expected) || !any {
      NobodyTold(Initial(found, any), events, expected);
    }
  }

  /** Exactly when a call tells a current daemon to shut down: it is local, checks a known
      expectation, and the daemon answers the probe but not the version query that follows. */
  lemma CurrentDaemonTold(w: World, c: Call, expected: string, chosen: Option<Binary>)
    requires w.daemon.Some? && w.daemon.value.version == Some(expected) && w.daemon.value.id !in w.told
    ensures w.daemon.value.id in EnsureDaemon(w, c, Some(expected), chosen).0.told
       <==> !c.remote && c.checkVersion && c.answersProbe && !c.answersVersion
  {
  }

  /** With an unknown expectation, or without the check, no daemon is ever told. */
  lemma {:induction false} UnknownExpectationTellsNobody(w: World, events: seq<Event>, expected: Option<string>)
    requires expected.None? || forall e :: e in events && e.Ensure? ==> !e.c.checkVersion
    ensures Run(w, events, expected).told == w.told
    decreases |events|
  {
    if events != [] {
      assert events[0] in events;
      UnknownExpectationTellsNobody(Step(w, events[0], expected), events[1..], expected);
    }
  }

  // ----- Outside the dev tree -------------------------------------------------------------------

  /** A named binary of another version, or a bundle no copy of which has the expected one. */
  predicate RunsStale(d: Disk, expected: string)
  {
    if d.named.Some? then d.named.value.version != Some(expected)
    else d.bundled != [] && forall b :: b in d.bundled ==> b.version != Some(expected)
  }

  lemma ChosenIsStale(d: Disk, expected: string, chosen: Binary)
    requires IsResolved(d, Some(expected), Some(chosen))
    ensures chosen.version != Some(expected) <==> RunsStale(d, expected)
  {
    if d.named.None? && d.bundled != [] {
      BundleAlwaysAnswers(d, Some(expected), Some(chosen));
    }
  }

  /** A local call that checks versions, and whose environment lets everything succeed. */
  ghost predicate IsSmooth(e: Event, expected: string)
  {
    && e.Ensure? && !e.c.remote && e.c.spawn && e.c.checkVersion && e.c.answersProbe && e.c.answersVersion
    && false in e.c.stopPolls && true in e.c.startPolls
    && e.chosen.Some? && IsResolved(e.c.disk, Some(expected), e.chosen)
  }

  function Repeated(e: Event, n: nat): seq<Event>
  {
    if n == 0 then [] else [e] + Repeated(e, n - 1)
  }

  /** The `n` instances from `first` on. */
  function Instances(first: nat, n: nat): set<nat>
    decreases n
  {
    if n == 0 then {} else {first} + Instances(first + 1, n - 1)
  }

  /** Repeating the call tells every daemon but the last to shut down, each one right after it was
      spawned, or none at all: it depends on the disk alone. */
  lemma RestartLoopExactly(e: Event, expected: string, n: nat)
    requires IsSmooth(e, expected)
    ensures Run(Initial(None, false), Repeated(e, n + 1), Some(expected)).told
         == if RunsStale(e.c.disk, expected) then Instances(1, n) else {}
  {
    hide IsResolved;
    var w := Initial(None, false);
    var first := Step(w, e, Some(expected));
    ChosenIsStale(e.c.disk, expected, e.chosen.value);
    assert Repeated(e, n + 1)[1..] == Repeated(e, n);
    LoopFrom(first, e, expected, n);
  }

  lemma {:induction false} LoopFrom(w: World, e: Event, expected: string, n: nat)
    requires IsSmooth(e, expected) && w.next > 0 && w.daemon == Some(Daemon(w.next - 1, e.chosen.value.version))
    ensures Run(w, Repeated(e, n), Some(expected)).told
         == if e.chosen.value.version != Some(expected) then w.told + Instances(w.next - 1, n) else w.told
    decreases n
  {
    hide IsResolved;
    if n > 0 {
      assert Repeated(e, n)[1..] == Repeated(e, n - 1);
      LoopFrom(Step(w, e, Some(expected)), e, expected, n - 1);
    }
  }
}
