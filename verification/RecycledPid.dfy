/** Steering the kernel's sequential pid allocator until the next pid is a chosen one. */
module RecycledPid {
  import opened Common

  const WINDOW := 50

  /** A quiescent allocator: it hands out the pids from `lo` to `hi` in order and round again,
      passing over those other processes hold. */
  datatype Pids = Pids(lo: nat, hi: nat, taken: set<nat>)

  predicate Free(k: Pids, p: nat)
  {
    k.lo <= p <= k.hi && p !in k.taken
  }

  /** The first free pid from `p` up. */
  function Upward(k: Pids, p: nat): (r: Option<nat>)
    ensures r.Some? ==> p <= r.value && Free(k, r.value) && forall q: nat :: p <= q < r.value ==> !Free(k, q)
    ensures r.None? ==> forall q: nat :: p <= q ==> !Free(k, q)
    decreases k.hi + 1 - p
  {
    if p > k.hi then None
    else if Free(k, p) then Some(p)
    else Upward(k, p + 1)
  }

  /** The pid given out after `last`. */
  function Next(k: Pids, last: nat): Option<nat>
  {
    var r := Upward(k, last + 1);
    if r.Some? then r else Upward(k, k.lo)
  }

  predicate IsNear(k: Pids, target: nat, p: nat)
  {
    Free(k, p) && target - WINDOW < p < target
  }

  predicate AllTaken(k: Pids, from: nat, to: nat)
  {
    forall q :: from <= q < to ==> q in k.taken
  }

  /** Spends pids until the next one is `target`; `turns` is how many fit before the deadline.
      Given a whole lap, it succeeds if and only if a free pid lies less than 50 below the target. */
  method AdvanceTo(k: Pids, target: nat, start: nat, turns: nat) returns (r: Option<nat>)
    requires Free(k, target) && k.lo <= start <= k.hi
    ensures r.Some? ==> Next(k, r.value) == Some(target) && IsNear(k, target, r.value)
    ensures turns > k.hi - k.lo ==> (r.Some? <==> exists p :: IsNear(k, target, p))
  {
    hide Upward;
    ghost var near := exists p :: IsNear(k, target, p);
    ghost var goal := target;
    if near {
      ghost var p :| IsNear(k, target, p);
      goal := Nearest(k, target, p);
    }
    var last := start;
    for i := 0 to turns
      invariant k.lo <= last <= k.hi
      invariant near ==> Distance(k, last, goal) + i <= k.hi - k.lo + 1
    {
      NextIs(k, last, target);
      NextIs(k, last, goal);
      last := Next(k, last).value;
      if target - WINDOW < last < target && AllTaken(k, last + 1, target) {
        NextIs(k, last, target);
        return Some(last);
      }
    }
    return None;
  }

  /** How far the counter has to go from `last` to `goal`, round the end if need be. */
  function Distance(k: Pids, last: nat, goal: nat): (d: int)
    requires k.lo <= last <= k.hi && k.lo <= goal <= k.hi
    ensures 1 <= d <= k.hi - k.lo + 1
  {
    if last < goal then goal - last else goal - last + (k.hi - k.lo + 1)
  }

  /** Every pid spent brings the counter closer to any free pid it does not hit. */
  lemma NextIs(k: Pids, last: nat, goal: nat)
    requires k.lo <= last <= k.hi && Free(k, goal)
    ensures var n := Next(k, last);
            && n.Some? && Free(k, n.value)
            && (n.value == goal || Distance(k, n.value, goal) < Distance(k, last, goal))
            && (last < goal && AllTaken(k, last + 1, goal) ==> n.value == goal)
  {
    hide Upward;
  }

  /** The last free pid below the target. */
  lemma Nearest(k: Pids, target: nat, p: nat) returns (q: nat)
    requires IsNear(k, target, p) && target <= k.hi
    ensures IsNear(k, target, q) && AllTaken(k, q + 1, target)
    decreases target - p
  {
    if AllTaken(k, p + 1, target) {
      q := p;
    } else {
      var r: nat :| p + 1 <= r < target && r !in k.taken;
      q := Nearest(k, target, r);
    }
  }
}
