/** The single-instance lock as a protocol between processes: an advisory lock on a file, and
    the holder's pid written into it. */
module SingleInstance {
  import opened Common

  // ----- Pids as text -------------------------------------------------------------------

  function Digit(d: nat): char
    requires d < 10
  {
    "0123456789"[d]
  }

  function DigitValue(c: char): Option<nat>
  {
    if '0' <= c <= '9' then Some(c as int - '0' as int) else None
  }

  /** `str(n)` */
  function ToText(n: nat): (s: string)
    ensures s != ""
  {
    if n < 10 then [Digit(n)] else ToText(n / 10) + [Digit(n % 10)]
  }

  /** `int(s)` for the texts this file can hold: decimal digits, at least one. */
  function FromText(s: string): Option<nat>
  {
    if s == "" then None
    else
      var last := DigitValue(s[|s| - 1]);
      if last.None? then None
      else if |s| == 1 then last
      else
        var front := FromText(s[..|s| - 1]);
        if front.None? then None else Some(10 * front.value + last.value)
  }

  lemma {:induction false} TextRoundTrip(n: nat)
    ensures FromText(ToText(n)) == Some(n)
  {
    if n >= 10 {
      TextRoundTrip(n / 10);
      assert ToText(n)[..|ToText(n)| - 1] == ToText(n / 10);
    }
  }

  // ----- The protocol ---------------------------------------------------------------------

  type Pid = nat

  /** How far a process is in `ensure_single_instance`. `Holding` is after the flush, when the
      call returns True; `Lost` is after it returned False. */
  datatype Phase = Started | Opened | Locked | Truncated | Holding | Lost

  /** The lock file (absent at first), the kernel's lock holder, and the live processes. */
  datatype State = State(file: Option<string>, holder: Option<Pid>, phase: map<Pid, Phase>)

  datatype Action =
    | Start(p: Pid)
    | Open(p: Pid)          // O_CREAT | O_RDWR: never truncates
    | TryLock(p: Pid)       // LOCK_EX | LOCK_NB
    | Truncate(p: Pid)
    | Flush(p: Pid)         // the buffered pid reaches the file, at offset 0
    | Fail(p: Pid)          // any OSError on the way: the file handle is dropped
    | Die(p: Pid)

  function At(s: State, p: Pid, ph: Phase): bool
  {
    p in s.phase && s.phase[p] == ph
  }

  /** Writing at offset 0 leaves what a longer old content has beyond the new text. */
  function WriteAtStart(content: string, text: string): string
  {
    text + if |content| > |text| then content[|text|..] else ""
  }

  function Release(s: State, p: Pid): State
  {
    if s.holder == Some(p) then s.(holder := None) else s
  }

  /** One step of one process; an action that is not enabled changes nothing. */
  function Step(s: State, a: Action): State
  {
    match a
    case Start(p) => if p in s.phase then s else s.(phase := s.phase[p := Started])
    case Open(p) =>
      if !At(s, p, Started) then s
      else s.(file := if s.file.None? then Some("") else s.file, phase := s.phase[p := Opened])
    case TryLock(p) =>
      if !At(s, p, Opened) then s
      else if s.holder.None? then s.(holder := Some(p), phase := s.phase[p := Locked])
      else s.(phase := s.phase[p := Lost])
    case Truncate(p) =>
      if !At(s, p, Locked) then s else s.(file := Some(""), phase := s.phase[p := Truncated])
    case Flush(p) =>
      if !At(s, p, Truncated) || s.file.None? then s
      else s.(file := Some(WriteAtStart(s.file.value, ToText(p))), phase := s.phase[p := Holding])
    case Fail(p) =>
      if p !in s.phase || s.phase[p] == Holding || s.phase[p] == Lost then s
      else Release(s, p).(phase := s.phase[p := Lost])
    case Die(p) =>
      if p !in s.phase then s else Release(s, p).(phase := s.phase - {p})
  }

  function Run(s: State, actions: seq<Action>): State
    decreases |actions|
  {
    if actions == [] then s else Run(Step(s, actions[0]), actions[1..])
  }

  /** Before any process: no lock, and whatever file an earlier session left. */
  function Initial(file: Option<string>): State
  {
    State(file, None, map[])
  }

  /** `running_gui_pid()`: any process may read at any time. */
  function RunningGuiPid(s: State): Option<nat>
  {
    if s.file.None? then None else FromText(s.file.value)
  }

  /** What an undisturbed `ensure_single_instance` does. */
  function Program(p: Pid): seq<Action>
  {
    [Open(p), TryLock(p), Truncate(p), Flush(p)]
  }

  /** The lock file with the kernel's lock on it. */
  class LockFile {
    var content: Option<string>
    var holder: Option<Pid>

    constructor (content: Option<string>)
      ensures this.content == content && holder == None
    {
      this.content := content;
      holder := None;
    }

    /** A call that nobody interrupts: it gets the lock if and only if nobody holds it. */
    method EnsureSingleInstance(p: Pid, ghost phase: map<Pid, Phase>) returns (got: bool)
      requires p in phase && phase[p] == Started
      modifies this
      ensures got == old(holder).None?
      ensures var s := Run(State(old(content), old(holder), phase), Program(p));
              content == s.file && holder == s.holder && (got <==> At(s, p, Holding)) && (!got <==> At(s, p, Lost))
    {
      hide ToText, Run;
      ProgramRuns(State(content, holder, phase), p);
      if content.None? {
        content := Some("");
      }
      if holder.Some? {
        return false;
      }
      holder := Some(p);
      content := Some("");
      content := Some(WriteAtStart(content.value, ToText(p)));
      return true;
    }
  }

  lemma ProgramRuns(s: State, p: Pid)
    ensures Run(s, Program(p)) == Step(Step(Step(Step(s, Open(p)), TryLock(p)), Truncate(p)), Flush(p))
  {
    hide Step;
    var a := Program(p);
    var s1 := Step(s, Open(p));
    var s2 := Step(s1, TryLock(p));
    var s3 := Step(s2, Truncate(p));
    assert a[1..] == [TryLock(p), Truncate(p), Flush(p)] && a[1..][1..] == [Truncate(p), Flush(p)];
    assert a[1..][1..][1..] == [Flush(p)] && [Flush(p)][1..] == [];
    assert Run(s3, [Flush(p)]) == Step(s3, Flush(p));
    assert Run(s2, a[1..][1..]) == Run(s3, [Flush(p)]);
    assert Run(s1, a[1..]) == Run(s2, a[1..][1..]);
  }

  // ----- Safety ------------------------------------------------------------------------------

  ghost predicate Inv(s: State)
  {
    forall p :: ProcessInv(s, p)
  }

  /** A process is past `TryLock` exactly when it holds the lock, and the file is what it made it. */
  ghost predicate ProcessInv(s: State, p: Pid)
  {
    && (At(s, p, Locked) || At(s, p, Truncated) || At(s, p, Holding) <==> s.holder == Some(p))
    && (At(s, p, Opened) || At(s, p, Locked) ==> s.file.Some?)
    && (At(s, p, Truncated) ==> s.file == Some(""))
    && (At(s, p, Holding) ==> s.file == Some(ToText(p)))
  }

  lemma StepKeepsInv(s: State, a: Action)
    requires Inv(s)
    ensures Inv(Step(s, a))
  {
    hide ToText;
    assert ToText(a.p) + "" == ToText(a.p);
    forall q
      ensures ProcessInv(Step(s, a), q)
    {
      assert ProcessInv(s, q) && ProcessInv(s, a.p);
    }
  }

  lemma {:induction false} RunKeepsInv(s: State, actions: seq<Action>)
    requires Inv(s)
    ensures Inv(Run(s, actions))
    decreases |actions|
  {
    hide Inv, Step;
    if actions != [] {
      StepKeepsInv(s, actions[0]);
      RunKeepsInv(Step(s, actions[0]), actions[1..]);
    }
  }

  /** Over every interleaving of starters, losers, failures and deaths: at most one process has
      been told it is the instance, and while it lives every read returns its pid. */
  lemma MutualExclusionAndTruth(file: Option<string>, actions: seq<Action>, p: Pid, q: Pid)
    ensures var s := Run(Initial(file), actions);
            && (At(s, p, Holding) && At(s, q, Holding) ==> p == q)
            && (At(s, p, Holding) ==> RunningGuiPid(s) == Some(p))
  {
    hide ToText, FromText;
    RunKeepsInv(Initial(file), actions);
    assert ProcessInv(Run(Initial(file), actions), p) && ProcessInv(Run(Initial(file), actions), q);
    TextRoundTrip(p);
  }

  /** Whoever does not hold the lock never changes an existing file; a process that fails to get
      the lock changes nothing at all. */
  lemma LosersChangeNothing(file: Option<string>, actions: seq<Action>, a: Action)
    ensures var s := Run(Initial(file), actions);
            && (s.holder != Some(a.p) && s.file.Some? ==> Step(s, a).file == s.file)
            && (a.TryLock? && s.holder.Some? ==> Step(s, a).file == s.file && Step(s, a).holder == s.holder)
  {
    RunKeepsInv(Initial(file), actions);
    assert ProcessInv(Run(Initial(file), actions), a.p);
  }

  /** A process is turned away only while another live one holds the lock, so the death of the
      holder always makes room. */
  lemma TurnedAwayOnlyByTheLiving(file: Option<string>, actions: seq<Action>, p: Pid)
    ensures var s := Run(Initial(file), actions);
            At(s, p, Opened) ==>
              (At(Step(s, TryLock(p)), p, Lost) <==> exists q :: q != p && q in s.phase && s.holder == Some(q))
  {
    var s := Run(Initial(file), actions);
    RunKeepsInv(Initial(file), actions);
    assert ProcessInv(s, p) && (s.holder.Some? ==> ProcessInv(s, s.holder.value));
  }

  /** Truncating first matters: without it a longer stale pid would show through. */
  lemma UntruncatedPidIsWrong(p: Pid, stale: string)
    requires p > 0 && |stale| > |ToText(p)| && FromText(stale).Some?
    ensures FromText(WriteAtStart(stale, ToText(p))) != Some(p)
  {
    hide FromText, ToText;
    var n := |ToText(p)|;
    assert stale == stale[..n] + stale[n..];
    TextRoundTrip(p);
    DigitsOfParts(stale[..n], stale[n..]);
    Appended(ToText(p), stale[n..]);
  }

  lemma {:induction false} DigitsOfParts(a: string, b: string)
    requires FromText(a + b).Some?
    ensures forall c :: c in b ==> DigitValue(c).Some?
  {
    if b != "" {
      var s := a + b;
      assert s[..|s| - 1] == a + b[..|b| - 1];
      assert b == b[..|b| - 1] + [b[|b| - 1]];
      if |s| > 1 {
        DigitsOfParts(a, b[..|b| - 1]);
      }
    }
  }

  lemma {:induction false} Appended(a: string, b: string)
    requires FromText(a).Some? && forall c :: c in b ==> DigitValue(c).Some?
    ensures FromText(a + b).Some?
    ensures b != "" ==> FromText(a + b).value >= 10 * FromText(a).value
  {
    if b == "" {
      assert a + b == a;
    } else {
      var s := a + b;
      assert s[..|s| - 1] == a + b[..|b| - 1] && s[|s| - 1] == b[|b| - 1];
      Appended(a, b[..|b| - 1]);
    }
  }
}
