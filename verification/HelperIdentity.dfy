/** Identity files for spawned helpers: a pid is an address only together with a start time. */
module HelperIdentity {
  import opened Common

  type Pid = nat

  /** A process instance of the operating system: `uid` tells instances apart for ever, which
      neither the pid nor the start time alone does. */
  datatype Process = Process(uid: nat, started: string)

  /** The identity file: absent, unreadable as an identity, or a record. */
  datatype File = Missing | Garbage | Record(pid: int, started: string)

  /** `born` maps every (pid, start time) pair ever used to its instance, `next` is the instance
      to come. `children` are the instances identities were written for, `signalled` those
      `stop` has signalled. */
  datatype World = World(live: map<Pid, Process>, born: map<(Pid, string), nat>, next: nat, file: File,
                         children: seq<nat>, signalled: seq<nat>)

  /** What `os.kill` does inside `stop`. */
  datatype Kill = Delivered | NoSuchProcess | NotPermitted

  /** `psAnswers` says whether the `ps` query succeeds for a live process. */
  datatype Action =
    | Spawn(pid: Pid, started: string)
    | Exit(pid: Pid)
    | Write(pid: Pid, psAnswers: bool)     // for a child that is still alive
    | Forget
    | Damage                               // the file becomes unreadable
    | Stop(psAnswers: bool, kill: Kill)

  /** `process_started`: None when the process is gone or `ps` fails. */
  function ProcessStarted(w: World, pid: Pid, psAnswers: bool): Option<string>
  {
    if psAnswers && pid in w.live && w.live[pid].started != "" then Some(w.live[pid].started) else None
  }

  /** `resolve`: the pid the identity names, if the live process is still that one. */
  function Resolve(w: World, psAnswers: bool): Option<Pid>
  {
    match w.file
    case Record(pid, started) =>
      if pid <= 0 || started == "" then None
      else if ProcessStarted(w, pid, psAnswers) == Some(started) then Some(pid)
      else None
    case _ => None
  }

  /** `write`: whoever has the pid now gives the start time; "" when it cannot be had. */
  function WriteIdentity(w: World, pid: Pid, psAnswers: bool): World
  {
    var started := ProcessStarted(w, pid, psAnswers);
    w.(file := Record(pid, if started.Some? then started.value else ""))
  }

  /** `stop`, taken as one step: resolve, signal, forget. */
  function StopHelper(w: World, psAnswers: bool, kill: Kill): (r: (World, bool))
  {
    var pid := Resolve(w, psAnswers);
    if pid.None? then (w.(file := Missing), false)
    else match kill
      case Delivered => (w.(signalled := w.signalled + [w.live[pid.value].uid], file := Missing), true)
      case NoSuchProcess => (w.(file := Missing), true)
      case NotPermitted => (w, false)
  }

  function Step(w: World, a: Action): World
  {
    match a
    case Spawn(pid, started) =>
      // the system gives out a free pid, and no (pid, start time) pair twice
      if pid in w.live || (pid, started) in w.born then w
      else w.(live := w.live[pid := Process(w.next, started)], born := w.born[(pid, started) := w.next],
              next := w.next + 1)
    case Exit(pid) => w.(live := w.live - {pid})
    case Write(pid, psAnswers) =>
      if pid !in w.live then w
      else WriteIdentity(w, pid, psAnswers).(children := w.children + [w.live[pid].uid])
    case Forget => w.(file := Missing)
    case Damage => w.(file := Garbage)
    case Stop(psAnswers, kill) => StopHelper(w, psAnswers, kill).0
  }

  function Run(w: World, actions: seq<Action>): World
    decreases |actions|
  {
    if actions == [] then w else Run(Step(w, actions[0]), actions[1..])
  }

  function Initial(): World
  {
    World(map[], map[], 0, Missing, [], [])
  }

  // ----- The module's operations ----------------------------------------------------------

  /** The machine: its processes and the identity file of one helper. */
  class Machine {
    var world: World

    constructor ()
      ensures world == Initial()
    {
      world := Initial();
    }

    /** Records a child that is alive. The identity names it from now on, unless its start time
        could not be read: then it names nobody. */
    method Write(pid: Pid, psAnswers: bool)
      requires pid in world.live
      modifies this
      ensures SameProcesses(old(world), world) && world.signalled == old(world).signalled
      ensures world.children == old(world).children + [world.live[pid].uid]
      ensures Resolve(world, true) ==
                if psAnswers && pid > 0 && world.live[pid].started != "" then Some(pid) else None
      ensures world == Step(old(world), Action.Write(pid, psAnswers))
    {
      var started := ProcessStarted(world, pid, psAnswers);
      var child := world.live[pid].uid;
      world := world.(file := Record(pid, if started.Some? then started.value else ""),
                      children := world.children + [child]);
    }

    method ForgetIdentity()
      modifies this
      ensures world == Step(old(world), Forget)
    {
      world := world.(file := Missing);
    }

    /** Signals the live process the identity was last written for, or nobody; afterwards the
        identity is gone, unless the signal was not permitted: then nothing has changed. */
    method StopNamed(psAnswers: bool, kill: Kill) returns (signalled: bool)
      modifies this
      ensures SameProcesses(old(world), world) && world.children == old(world).children
      ensures signalled <==> Resolve(old(world), psAnswers).Some? && kill != NotPermitted
      ensures world.signalled == old(world).signalled + if signalled && kill == Delivered
                then [old(world).live[Resolve(old(world), psAnswers).value].uid] else []
      ensures Inv(old(world)) && world.signalled != old(world).signalled ==>
                && world.children != []
                && world.signalled == old(world).signalled + [world.children[|world.children| - 1]]
      ensures if Resolve(old(world), psAnswers).Some? && kill == NotPermitted then !signalled && world == old(world)
              else world.file == Missing && forall answers :: Resolve(world, answers).None?
      ensures (world, signalled) == StopHelper(old(world), psAnswers, kill)
    {
      var pid := Resolve(world, psAnswers);
      if pid.None? {
        ForgetIdentity();
        return false;
      }
      if Inv(world) {
        ResolvedIsLastChild(world, psAnswers);
      }
      match kill {
        case Delivered => world := world.(signalled := world.signalled + [world.live[pid.value].uid]);
        case NoSuchProcess =>
        case NotPermitted => return false;
      }
      ForgetIdentity();
      return true;
    }
  }

  /** The operating system's side is as it was. */
  ghost predicate SameProcesses(w: World, v: World)
  {
    w.live == v.live && w.born == v.born && w.next == v.next
  }

  // ----- Safety ------------------------------------------------------------------------

  ghost predicate Inv(w: World)
  {
    && (forall pid :: pid in w.live ==>
          (pid, w.live[pid].started) in w.born && w.born[(pid, w.live[pid].started)] == w.live[pid].uid)
    && (w.file.Record? && w.file.pid >= 0 && w.file.started != "" ==>
          && (w.file.pid, w.file.started) in w.born
          && w.children != []
          && w.born[(w.file.pid, w.file.started)] == w.children[|w.children| - 1])
    && (forall u :: u in w.signalled ==> u in w.children)
  }

  lemma ResolvedIsLastChild(w: World, psAnswers: bool)
    requires Inv(w) && Resolve(w, psAnswers).Some?
    ensures var pid := Resolve(w, psAnswers).value;
            pid in w.live && w.children != [] && w.live[pid].uid == w.children[|w.children| - 1]
  {
  }

  lemma StepKeepsInv(w: World, a: Action)
    requires Inv(w)
    ensures Inv(Step(w, a))
  {
    match a
    case Stop(psAnswers, kill) =>
      if Resolve(w, psAnswers).Some? {
        ResolvedIsLastChild(w, psAnswers);
      }
    case _ =>
  }

  lemma {:induction false} RunKeepsInv(w: World, actions: seq<Action>)
    requires Inv(w)
    ensures Inv(Run(w, actions))
    decreases |actions|
  {
    hide Inv, Step;
    if actions != [] {
      StepKeepsInv(w, actions[0]);
      RunKeepsInv(Step(w, actions[0]), actions[1..]);
    }
  }

  /** Over every run, pids reused or not: whatever `resolve` yields is the live process the last
      identity was written for, and `stop` has never signalled any process but such a child. */
  lemma IdentitySafety(actions: seq<Action>, psAnswers: bool)
    ensures var w := Run(Initial(), actions);
            && (Resolve(w, psAnswers).Some? ==>
                  var pid := Resolve(w, psAnswers).value;
                  pid in w.live && w.children != [] && w.live[pid].uid == w.children[|w.children| - 1])
            && (forall u :: u in w.signalled ==> u in w.children)
  {
    hide Run, Resolve;
    RunKeepsInv(Initial(), actions);
    var w := Run(Initial(), actions);
    if Resolve(w, psAnswers).Some? {
      ResolvedIsLastChild(w, psAnswers);
    }
  }

  /** An identity survives exactly as long as its process does: from a fresh identity of a live
      child, and until a later write, `forget` or `stop`, it resolves if and only if the child
      itself is alive. */
  lemma IdentityFollowsChild(actions: seq<Action>, pid: Pid, later: seq<Action>)
    requires var w := Run(Initial(), actions);
             pid > 0 && pid in w.live && w.live[pid].started != ""
    requires forall a :: a in later ==> a.Spawn? || a.Exit?
    ensures var w := Step(Run(Initial(), actions), Write(pid, true));
            var v := Run(w, later);
            Resolve(v, true) == Some(pid) <==> pid in v.live && v.live[pid].uid == w.live[pid].uid
  {
    hide Run;
    var before := Run(Initial(), actions);
    var w := Step(before, Write(pid, true));
    RunKeepsInv(Initial(), actions);
    StepKeepsInv(before, Write(pid, true));
    RunDistinct(Initial(), actions);
    StepDistinct(before, Write(pid, true));
    FollowsFrom(w, pid, w.live[pid], later);
  }

  /** Distinct pairs have distinct instances. */
  ghost predicate Distinct(w: World)
  {
    && (forall k :: k in w.born ==> w.born[k] < w.next)
    && (forall k, l :: k in w.born && l in w.born && w.born[k] == w.born[l] ==> k == l)
  }

  lemma StepDistinct(w: World, a: Action)
    requires Distinct(w)
    ensures Distinct(Step(w, a))
  {
  }

  lemma {:induction false} RunDistinct(w: World, actions: seq<Action>)
    requires Distinct(w)
    ensures Distinct(Run(w, actions))
    decreases |actions|
  {
    hide Distinct, Step;
    if actions != [] {
      StepDistinct(w, actions[0]);
      RunDistinct(Step(w, actions[0]), actions[1..]);
    }
  }

  lemma {:induction false} FollowsFrom(w: World, pid: Pid, child: Process, later: seq<Action>)
    requires Inv(w) && Distinct(w) && pid > 0 && child.started != ""
    requires w.file == Record(pid, child.started)
    requires (pid, child.started) in w.born && w.born[(pid, child.started)] == child.uid
    requires forall a :: a in later ==> a.Spawn? || a.Exit?
    ensures var v := Run(w, later);
            Resolve(v, true) == Some(pid) <==> pid in v.live && v.live[pid].uid == child.uid
    decreases |later|
  {
    if later != [] {
      var v := Step(w, later[0]);
      StepKeepsInv(w, later[0]);
      StepDistinct(w, later[0]);
      FollowsFrom(v, pid, child, later[1..]);
    }
  }
}
