/** Noticing that the daemon was respawned, by its start time, and linking its panels again. */
module PanelRelink {
  import opened Common

  const SAME_INSTANCE_TOLERANCE_S := 2.0

  /** What `get_status` yields: the reply's uptime when there is one, and the clock afterwards. */
  datatype Status = Status(uptime: Option<real>, now: real)

  /** `now - uptime`, None when the daemon could not say. */
  function DaemonStartedAt(st: Status): Option<real>
  {
    if st.uptime.None? then None else Some(st.now - st.uptime.value)
  }

  function Abs(x: real): real
  {
    if x < 0.0 then -x else x
  }

  predicate Respawned(previous: Option<real>, started: Option<real>)
  {
    previous.Some? && started.Some? && Abs(started.value - previous.value) > SAME_INSTANCE_TOLERANCE_S
  }

  /** The held panels the new daemon does not have, in link order. */
  function Missing(held: seq<string>, have: set<string>): seq<string>
  {
    if held == [] then []
    else (if held[0] in have then [] else [held[0]]) + Missing(held[1..], have)
  }

  /** What the host holds: its panels, the daemon's start time as last read, the link requests made. */
  datatype View = View(held: seq<string>, startedAt: Option<real>, links: seq<string>)

  /** The connected panels of a `device_status` answer; a failed query counts as none. */
  function Have(devices: Option<set<string>>): set<string>
  {
    if devices.Some? then devices.value else {}
  }

  /** What the GUI meets: it links a panel, or it ensures a daemon. */
  datatype Event = Linked(address: string) | Ensured(status: Status, devices: Option<set<string>>)

  function Held(held: seq<string>, address: string): seq<string>
  {
    if address in held then held else held + [address]
  }

  predicate StartsRelink(v: View, e: Event)
  {
    e.Ensured? && v.held != [] && Respawned(v.startedAt, DaemonStartedAt(e.status))
  }

  function After(v: View, e: Event): View
  {
    match e
    case Linked(address) => v.(held := Held(v.held, address))
    case Ensured(status, devices) =>
      var started := DaemonStartedAt(status);
      v.(startedAt := if started.Some? then started else v.startedAt,
         links := v.links + if StartsRelink(v, e) then Missing(v.held, Have(devices)) else [])
  }

  /** The GUI host, as far as relinking goes. `links` are the link requests made so far. */
  class Host {
    var heldPanels: seq<string>
    var daemonStartedAt: Option<real>
    var links: seq<string>

    ghost predicate Valid()
      reads this
    {
      forall i, j :: 0 <= i < j < |heldPanels| ==> heldPanels[i] != heldPanels[j]
    }

    ghost function Seen(): View
      reads this
    {
      View(heldPanels, daemonStartedAt, links)
    }

    constructor ()
      ensures Valid() && heldPanels == [] && daemonStartedAt == None && links == []
    {
      heldPanels := [];
      daemonStartedAt := None;
      links := [];
    }

    /** A panel this GUI linked: recorded once, in link order. */
    method Remember(address: string)
      requires Valid()
      modifies `heldPanels
      ensures Valid()
      ensures heldPanels == if address in old(heldPanels) then old(heldPanels) else old(heldPanels) + [address]
      ensures Seen() == After(old(Seen()), Linked(address))
    {
      if address !in heldPanels {
        heldPanels := heldPanels + [address];
      }
    }

    /** `devices` is the new daemon's answer to `device_status`: its connected panels, None when
        the query fails. */
    method Relink(held: seq<string>, devices: Option<set<string>>)
      modifies `links
      ensures links == old(links) + Missing(held, if devices.Some? then devices.value else {})
    {
      var have := Have(devices);
      for i := 0 to |held|
        invariant links + Missing(held[i..], have) == old(links) + Missing(held, have)
      {
        assert held[i..][0] == held[i] && held[i..][1..] == held[i + 1..];
        if held[i] in have {
          continue;
        }
        links := links + [held[i]];
      }
      assert held[|held|..] == [];
    }

    method AfterEnsure(st: Status, devices: Option<set<string>>) returns (relinked: bool)
      requires Valid()
      modifies `daemonStartedAt, `links
      ensures Valid()
      ensures relinked == (heldPanels != [] && Respawned(old(daemonStartedAt), DaemonStartedAt(st)))
      ensures daemonStartedAt == if DaemonStartedAt(st).Some? then DaemonStartedAt(st) else old(daemonStartedAt)
      ensures links == old(links)
                + if relinked then Missing(heldPanels, if devices.Some? then devices.value else {}) else []
      ensures Seen() == After(old(Seen()), Ensured(st, devices)) && relinked == StartsRelink(old(Seen()), Ensured(st, devices))
    {
      var started, previous := DaemonStartedAt(st), daemonStartedAt;
      if started.Some? {
        daemonStartedAt := started;
      }
      var held := heldPanels;
      if started.None? || previous.None? || held == [] {
        return false;
      }
      if Abs(started.value - previous.value) <= SAME_INSTANCE_TOLERANCE_S {
        return false;
      }
      Relink(held, devices);
      return true;
    }
  }

  /** Each held panel the new daemon lacks is linked once, in order, and no other. */
  lemma {:induction false} MissingExactly(held: seq<string>, have: set<string>)
    requires forall i, j :: 0 <= i < j < |held| ==> held[i] != held[j]
    ensures var r := Missing(held, have);
            && (forall p :: p in r <==> p in held && p !in have)
            && (forall i, j :: 0 <= i < j < |r| ==> r[i] != r[j])
    ensures IsSubsequence(Missing(held, have), held)
  {
    if held != [] {
      MissingExactly(held[1..], have);
      assert held == [held[0]] + held[1..];
      var r := Missing(held, have);
      assert r != [] ==> r[0] in r;
      assert held[0] !in have ==> r[1..] == Missing(held[1..], have);
      assert held[0] in have ==> r == Missing(held[1..], have);
    }
  }

  predicate IsSubsequence<T(==)>(a: seq<T>, b: seq<T>)
  {
    a == [] || (b != [] && if a[0] == b[0] then IsSubsequence(a[1..], b[1..]) else IsSubsequence(a, b[1..]))
  }

  // ----- Readings of the clock ---------------------------------------------------------

  /** A reading of a daemon that started at `start`: it was taken at `at`, uptime counts whole
      seconds, and the reply was back at most a second later. */
  ghost predicate IsReading(start: real, st: Status)
  {
    exists at: real :: TakenAt(start, st, at)
  }

  ghost predicate TakenAt(start: real, st: Status, at: real)
  {
    start <= at <= st.now <= at + 1.0 && st.uptime == Some((at - start).Floor as real)
  }

  lemma ReadingWindow(start: real, st: Status)
    requires IsReading(start, st)
    ensures DaemonStartedAt(st).Some? && start <= DaemonStartedAt(st).value < start + 2.0
  {
    var at :| TakenAt(start, st, at);
    var up := at - start;
    assert up.Floor as real <= up < up.Floor as real + 1.0;
  }

  /** Two readings of one instance never look like a respawn. */
  lemma SameInstanceQuiet(start: real, a: Status, b: Status)
    requires IsReading(start, a) && IsReading(start, b)
    ensures !Respawned(DaemonStartedAt(a), DaemonStartedAt(b))
  {
    ReadingWindow(start, a);
    ReadingWindow(start, b);
  }

  /** Every respawn shows in every pair of readings if and only if the new instance started at
      least four seconds after the old one. */
  lemma RespawnDetected(first: real, second: real)
    requires first <= second
    ensures (forall a, b :: IsReading(first, a) && IsReading(second, b) ==> Respawned(DaemonStartedAt(a), DaemonStartedAt(b)))
       <==> second - first >= 4.0
  {
    if second - first >= 4.0 {
      forall a, b | IsReading(first, a) && IsReading(second, b)
        ensures Respawned(DaemonStartedAt(a), DaemonStartedAt(b))
      {
        ReadingWindow(first, a);
        ReadingWindow(second, b);
      }
    } else {
      var a, b := LatestReading(first, second - first);
      assert IsReading(first, a);
      var c := Status(Some(0.0), second);
      assert TakenAt(second, c, second) && IsReading(second, c);
      assert !Respawned(DaemonStartedAt(a), DaemonStartedAt(c));
    }
  }

  /** A reading of the first instance that puts its start late enough to hide the gap. */
  lemma LatestReading(start: real, gap: real) returns (a: Status, at: real)
    requires 0.0 <= gap < 4.0
    ensures TakenAt(start, a, at) && DaemonStartedAt(a) == Some(start + gap / 2.0)
  {
    at := start + gap / 4.0;
    a := Status(Some(0.0), start + gap / 2.0);
  }

  // ----- A whole session -------------------------------------------------------------------

  /** The host after some events, and the answers of the `after_ensure` calls among them. */
  function Session(v: View, es: seq<Event>): (View, seq<bool>)
    decreases |es|
  {
    if es == [] then (v, [])
    else
      var (w, answers) := Session(After(v, es[0]), es[1..]);
      (w, (if es[0].Ensured? then [StartsRelink(v, es[0])] else []) + answers)
  }

  /** What really happens: a panel is linked, a call reaches the instance that started at `start`
      and reads it, or a call reads nothing. */
  datatype Fact = PanelLinked(address: string)
                | Reached(start: real, status: Status, devices: Option<set<string>>)
                | Unread(now: real, devices: Option<set<string>>)

  function EventOf(f: Fact): Event
  {
    match f
    case PanelLinked(address) => Linked(address)
    case Reached(_, status, devices) => Ensured(status, devices)
    case Unread(now, devices) => Ensured(Status(None, now), devices)
  }

  function EventsOf(fs: seq<Fact>): seq<Event>
  {
    if fs == [] then [] else [EventOf(fs[0])] + EventsOf(fs[1..])
  }

  ghost predicate IsFact(f: Fact)
  {
    f.Reached? ==> IsReading(f.start, f.status)
  }

  /** The panels to link over a session: at every reading of another instance than the last one
      read, the panels held by then that the new daemon lacks, in the order they were held. */
  function Due(held: seq<string>, last: Option<real>, fs: seq<Fact>): seq<string>
    decreases |fs|
  {
    if fs == [] then []
    else match fs[0]
      case PanelLinked(address) => Due(Held(held, address), last, fs[1..])
      case Reached(start, _, devices) =>
        (if last.Some? && start != last.value then Missing(held, if devices.Some? then devices.value else {}) else [])
        + Due(held, Some(start), fs[1..])
      case Unread(_, _) => Due(held, last, fs[1..])
  }

  /** Which of the session's calls read another instance than the last one read, with panels held. */
  function Changes(held: seq<string>, last: Option<real>, fs: seq<Fact>): seq<bool>
    decreases |fs|
  {
    if fs == [] then []
    else match fs[0]
      case PanelLinked(address) => Changes(Held(held, address), last, fs[1..])
      case Reached(start, _, _) =>
        [held != [] && last.Some? && start != last.value] + Changes(held, Some(start), fs[1..])
      case Unread(_, _) => [false] + Changes(held, last, fs[1..])
  }

  function HeldAfter(held: seq<string>, fs: seq<Fact>): seq<string>
    decreases |fs|
  {
    if fs == [] then held
    else HeldAfter(if fs[0].PanelLinked? then Held(held, fs[0].address) else held, fs[1..])
  }

  predicate FarApart(a: real, b: real)
  {
    a == b || Abs(a - b) >= 4.0
  }

  ghost predicate WellSpaced(last: Option<real>, fs: seq<Fact>)
  {
    && (forall f, g :: f in fs && g in fs && f.Reached? && g.Reached? ==> FarApart(f.start, g.start))
    && (last.Some? ==> forall f :: f in fs && f.Reached? ==> FarApart(f.start, last.value))
  }

  /** The host's start time is a reading of the last instance read. */
  ghost predicate Remembers(v: View, last: Option<real>)
  {
    if last.None? then v.startedAt.None?
    else exists st :: IsReading(last.value, st) && DaemonStartedAt(st) == v.startedAt
  }

  lemma TwoReadings(first: real, second: real, a: Status, b: Status)
    requires IsReading(first, a) && IsReading(second, b) && FarApart(second, first)
    ensures Respawned(DaemonStartedAt(a), DaemonStartedAt(b)) <==> first != second
  {
    ReadingWindow(first, a);
    ReadingWindow(second, b);
  }

  lemma ReachedNotices(v: View, last: Option<real>, f: Fact)
    requires f.Reached? && IsFact(f) && Remembers(v, last)
    requires last.Some? ==> FarApart(f.start, last.value)
    ensures Remembers(After(v, EventOf(f)), Some(f.start))
    ensures StartsRelink(v, EventOf(f)) <==> v.held != [] && last.Some? && f.start != last.value
  {
    hide IsReading, Abs;
    if last.Some? {
      var st :| IsReading(last.value, st) && DaemonStartedAt(st) == v.startedAt;
      TwoReadings(last.value, f.start, st, f.status);
    }
    ReadingWindow(f.start, f.status);
  }

  lemma NoneMissing(have: set<string>)
    ensures Missing([], have) == []
  {
  }

  /** The session did what was due. */
  ghost predicate DidWhatWasDue(v: View, last: Option<real>, fs: seq<Fact>)
  {
    && Session(v, EventsOf(fs)).1 == Changes(v.held, last, fs)
    && Session(v, EventsOf(fs)).0.links == v.links + Due(v.held, last, fs)
    && Session(v, EventsOf(fs)).0.held == HeldAfter(v.held, fs)
  }

  lemma SessionStep(v: View, fs: seq<Fact>)
    requires fs != []
    ensures var e := EventOf(fs[0]);
            var (w, answers) := Session(After(v, e), EventsOf(fs[1..]));
            Session(v, EventsOf(fs)) == (w, (if e.Ensured? then [StartsRelink(v, e)] else []) + answers)
  {
    hide After, StartsRelink, EventOf;
    assert EventsOf(fs)[0] == EventOf(fs[0]) && EventsOf(fs)[1..] == EventsOf(fs[1..]);
  }

  lemma LinkedStep(v: View, last: Option<real>, fs: seq<Fact>)
    requires fs != [] && fs[0].PanelLinked? && Remembers(v, last)
    ensures var w := After(v, EventOf(fs[0]));
            Remembers(w, last) && (DidWhatWasDue(w, last, fs[1..]) ==> DidWhatWasDue(v, last, fs))
  {
    hide IsReading, Session, EventsOf;
    SessionStep(v, fs);
    var answers := Session(After(v, EventOf(fs[0])), EventsOf(fs[1..])).1;
    assert [] + answers == answers;
  }

  lemma UnreadStep(v: View, last: Option<real>, fs: seq<Fact>)
    requires fs != [] && fs[0].Unread? && Remembers(v, last)
    ensures var w := After(v, EventOf(fs[0]));
            Remembers(w, last) && (DidWhatWasDue(w, last, fs[1..]) ==> DidWhatWasDue(v, last, fs))
  {
    hide IsReading, Session, EventsOf;
    SessionStep(v, fs);
    assert v.links + [] == v.links;
  }

  lemma ReachedStep(v: View, last: Option<real>, fs: seq<Fact>)
    requires fs != [] && fs[0].Reached? && IsFact(fs[0]) && Remembers(v, last)
    requires last.Some? ==> FarApart(fs[0].start, last.value)
    ensures var w := After(v, EventOf(fs[0]));
            && Remembers(w, Some(fs[0].start))
            && (DidWhatWasDue(w, Some(fs[0].start), fs[1..]) ==> DidWhatWasDue(v, last, fs))
  {
    hide Session, EventsOf, Remembers, Missing, StartsRelink, FarApart, IsFact;
    var f := fs[0];
    var now := if last.Some? && f.start != last.value then Missing(v.held, Have(f.devices)) else [];
    var later := Due(v.held, Some(f.start), fs[1..]);
    ReachedNotices(v, last, f);
    NoneMissing(Have(f.devices));
    SessionStep(v, fs);
    assert v.links + (now + later) == (v.links + now) + later;
  }

  lemma NothingHappened(v: View, last: Option<real>)
    ensures DidWhatWasDue(v, last, [])
  {
    assert v.links + [] == v.links;
  }

  lemma SpacedTail(last: Option<real>, fs: seq<Fact>)
    requires fs != [] && WellSpaced(last, fs)
    ensures WellSpaced(if fs[0].Reached? then Some(fs[0].start) else last, fs[1..])
    ensures fs[0].Reached? && last.Some? ==> FarApart(fs[0].start, last.value)
  {
    hide FarApart;
    assert fs[0] in fs && forall f :: f in fs[1..] ==> f in fs;
  }

  lemma {:induction false} SessionFollows(v: View, last: Option<real>, fs: seq<Fact>)
    requires forall f :: f in fs ==> IsFact(f)
    requires WellSpaced(last, fs) && Remembers(v, last)
    ensures DidWhatWasDue(v, last, fs)
    decreases |fs|
  {
    hide FarApart, Remembers, IsFact, After, DidWhatWasDue, WellSpaced;
    if fs == [] {
      NothingHappened(v, last);
    } else {
      var f := fs[0];
      assert f in fs;
      SpacedTail(last, fs);
      match f {
        case PanelLinked(_) => LinkedStep(v, last, fs);
        case Reached(_, _, _) => ReachedStep(v, last, fs);
        case Unread(_, _) => UnreadStep(v, last, fs);
      }
      SessionFollows(After(v, EventOf(f)), if f.Reached? then Some(f.start) else last, fs[1..]);
    }
  }

  /** Over a whole session, panels linked and instances respawned in any order: when instances
      start at least four seconds apart, a relink is started at exactly the calls that read another
      instance than the last one read while panels are held, and the panels linked are those due. */
  lemma RelinksAtEveryChange(v: View, last: Option<real>, fs: seq<Fact>)
    requires forall f :: f in fs ==> IsFact(f)
    requires WellSpaced(last, fs) && Remembers(v, last)
    ensures Session(v, EventsOf(fs)).1 == Changes(v.held, last, fs)
    ensures Session(v, EventsOf(fs)).0.links == v.links + Due(v.held, last, fs)
    ensures Session(v, EventsOf(fs)).0.held == HeldAfter(v.held, fs)
  {
    hide FarApart, Remembers, IsFact, WellSpaced, Session, EventsOf, Changes, Due, HeldAfter;
    SessionFollows(v, last, fs);
  }

  lemma {:induction false} NothingDue(held: seq<string>, start: real, last: Option<real>, fs: seq<Fact>)
    requires last.Some? ==> last.value == start
    requires forall f :: f in fs && f.Reached? ==> f.start == start
    ensures Due(held, last, fs) == [] && forall r :: r in Changes(held, last, fs) ==> !r
    decreases |fs|
  {
    hide Missing;
    if fs != [] {
      assert fs[0] in fs;
      match fs[0]
      case PanelLinked(address) => NothingDue(Held(held, address), start, last, fs[1..]);
      case Reached(_, _, _) => NothingDue(held, start, Some(start), fs[1..]);
      case Unread(_, _) => NothingDue(held, start, last, fs[1..]);
    }
  }

  /** Any number of readings of one instance, failed ones and new panels in between, starts no
      relink and links nothing. */
  lemma OneInstanceNeverRelinks(v: View, start: real, last: Option<real>, fs: seq<Fact>)
    requires forall f :: f in fs ==> IsFact(f) && (f.Reached? ==> f.start == start)
    requires Remembers(v, last) && (last.Some? ==> last.value == start)
    ensures Session(v, EventsOf(fs)).0.links == v.links
    ensures forall r :: r in Session(v, EventsOf(fs)).1 ==> !r
  {
    hide Remembers, IsReading, Session, EventsOf, Changes, Due, HeldAfter;
    RelinksAtEveryChange(v, last, fs);
    NothingDue(v.held, start, last, fs);
    assert v.links + [] == v.links;
  }
}
