/** The ticket lock as a state machine: any number of threads, one atomic load, store or
    fetch-and-add a step, every interleaving. Counters wrap at a modulus, or are unbounded (modulus 0). */
module TicketLock {
  import opened Powers

  // ---- threads and steps -------------------------------------------------------------------

  /** Where a thread is in the code of the lock. A ticket is held from the fetch-and-add of `lock`
      to the store of `unlock`. */
  datatype Thread =
    | Idle
    | TrySeen(current: nat)                   // try_lock: serving_ticket_ loaded, next_ticket_ not yet
    | TryFree                                 // try_lock: the lock seemed free
    | Waiting(ticket: nat, trying: bool)      // lock: ticket drawn, spinning
    | Holding(ticket: nat, tried: bool)       // lock (or, with `tried`, a true try_lock) has returned
    | UnlockSeen(ticket: nat, current: nat)   // unlock: first load of is_locked done
    | UnlockSure(ticket: nat)                 // unlock: is_locked was true
    | UnlockReady(ticket: nat, current: nat)  // unlock: serving_ticket_ loaded for the store

  datatype State = State(next: nat, serving: nat, threads: seq<Thread>)

  predicate HasTicket(t: Thread) { t.Waiting? || Owns(t) }

  predicate Owns(t: Thread) { t.Holding? || t.UnlockSeen? || t.UnlockSure? || t.UnlockReady? }

  function Inc(m: nat, x: nat): nat { if x + 1 == m then 0 else x + 1 }

  function Initial(n: nat): State { State(0, 0, seq(n, _ => Idle)) }

  function Goes(s: State, i: nat, t: Thread): State
    requires i < |s.threads|
  {
    s.(threads := s.threads[i := t])
  }

  /** A test of `current` against `next_ticket_` made some time after `current` was loaded. With
      unbounded counters it may also be taken for equal: that is what wrapped counters can do. */
  predicate Test(m: nat, current: nat, next: nat, equal: bool)
  {
    if m > 0 then equal == (current == next) else current == next ==> equal
  }

  /** Thread `i` makes one step. `choice` says which call an idle thread makes, and how the test in
      `try_lock` comes out. */
  function After(m: nat, s: State, i: nat, choice: bool): State
    requires i < |s.threads|
  {
    match s.threads[i]
    case Idle =>
      if choice then Goes(s, i, Waiting(s.next, false)).(next := Inc(m, s.next)) else Goes(s, i, TrySeen(s.serving))
    case TrySeen(_) =>
      Goes(s, i, if choice then TryFree else Idle)
    case TryFree =>
      Goes(s, i, Waiting(s.next, true)).(next := Inc(m, s.next))
    case Waiting(ticket, trying) =>
      if s.serving == ticket then Goes(s, i, Holding(ticket, trying)) else s
    case Holding(ticket, _) =>
      Goes(s, i, UnlockSeen(ticket, s.serving))
    case UnlockSeen(ticket, current) =>
      Goes(s, i, if current == s.next then Idle else UnlockSure(ticket))
    case UnlockSure(ticket) =>
      Goes(s, i, UnlockReady(ticket, s.serving))
    case UnlockReady(_, current) =>
      Goes(s, i, Idle).(serving := Inc(m, current))
  }

  predicate Step(m: nat, s: State, s': State, i: nat, choice: bool)
  {
    && i < |s.threads|
    && (s.threads[i].TrySeen? ==> Test(m, s.threads[i].current, s.next, choice))
    && s' == After(m, s, i, choice)
  }

  ghost predicate Stepped(m: nat, s: State, s': State)
  {
    exists i: nat, choice: bool :: Step(m, s, s', i, choice)
  }

  /** A run: any threads stepping in any order, only the owner of the lock calling `unlock`. */
  ghost predicate Run(m: nat, n: nat, trace: seq<State>)
  {
    if |trace| <= 1 then trace == [Initial(n)]
    else Run(m, n, trace[..|trace| - 1]) && Stepped(m, trace[|trace| - 2], trace[|trace| - 1])
  }

  // ---- the invariant -----------------------------------------------------------------------

  /** Number of threads with a ticket. */
  function Outstanding(threads: seq<Thread>): (n: nat)
    ensures n <= |threads|
  {
    if threads == [] then 0 else (if HasTicket(threads[0]) then 1 else 0) + Outstanding(threads[1..])
  }

  ghost predicate TicketsInRange(s: State)
  {
    forall i :: 0 <= i < |s.threads| && HasTicket(s.threads[i]) ==> s.serving <= s.threads[i].ticket < s.next
  }

  ghost predicate TicketsDistinct(s: State)
  {
    forall i, j ::
      (0 <= i < |s.threads| && 0 <= j < |s.threads| && HasTicket(s.threads[i]) && HasTicket(s.threads[j])
       && s.threads[i].ticket == s.threads[j].ticket) ==> i == j
  }

  ghost predicate Drawn(s: State, ticket: nat)
  {
    exists i :: 0 <= i < |s.threads| && HasTicket(s.threads[i]) && s.threads[i].ticket == ticket
  }

  ghost predicate OwnersServed(s: State)
  {
    forall i :: 0 <= i < |s.threads| && Owns(s.threads[i]) ==>
      && s.threads[i].ticket == s.serving
      && (s.threads[i].UnlockSeen? || s.threads[i].UnlockReady? ==> s.threads[i].current == s.serving)
  }

  /** The outstanding tickets are distinct and are exactly those from `serving` up to `next`; who
      owns the lock has the ticket being served. */
  ghost predicate Inv(s: State)
  {
    && s.serving <= s.next && s.next - s.serving == Outstanding(s.threads)
    && TicketsInRange(s) && TicketsDistinct(s) && OwnersServed(s)
    && (forall k :: s.serving <= k < s.next ==> Drawn(s, k))
  }

  lemma {:induction false} NobodyYet(n: nat)
    ensures Outstanding(seq(n, _ => Idle)) == 0
  {
    if n > 0 {
      NobodyYet(n - 1);
      assert seq(n, _ => Idle)[1..] == seq(n - 1, _ => Idle);
    }
  }

  lemma InitialInv(n: nat)
    ensures Inv(Initial(n))
  {
    NobodyYet(n);
  }

  lemma {:induction false} OutstandingUpdate(threads: seq<Thread>, i: nat, t: Thread)
    requires i < |threads|
    ensures Outstanding(threads[i := t])
            == Outstanding(threads) + (if HasTicket(t) then 1 else 0) - (if HasTicket(threads[i]) then 1 else 0)
  {
    if i > 0 {
      OutstandingUpdate(threads[1..], i - 1, t);
      assert threads[i := t][1..] == threads[1..][i - 1 := t];
    } else {
      assert threads[i := t][1..] == threads[1..];
    }
  }

  /** A thread that is unlocking never finds the lock free, so it does not give up its ticket. */
  lemma UnlockGoesOn(s: State, i: nat)
    requires Inv(s) && i < |s.threads| && s.threads[i].UnlockSeen?
    ensures s.threads[i].current != s.next
  {
  }

  /** The tickets that stay outstanding keep their threads, and a drawn one has the drawer. */
  lemma StepKeepsDrawn(s: State, s': State, i: nat, choice: bool, k: nat)
    requires Inv(s) && Step(0, s, s', i, choice) && s'.serving <= k < s'.next
    ensures Drawn(s', k)
  {
    if s.threads[i].UnlockSeen? { UnlockGoesOn(s, i); }
    if k < s.next {
      assert Drawn(s, k);
      var j :| 0 <= j < |s.threads| && HasTicket(s.threads[j]) && s.threads[j].ticket == k;
      assert HasTicket(s'.threads[j]) && s'.threads[j].ticket == k;
    } else {
      assert HasTicket(s'.threads[i]) && s'.threads[i].ticket == k;
    }
  }

  lemma StepKeepsTickets(s: State, s': State, i: nat, choice: bool)
    requires Inv(s) && Step(0, s, s', i, choice)
    ensures TicketsInRange(s') && TicketsDistinct(s') && OwnersServed(s')
  {
    if s.threads[i].UnlockSeen? { UnlockGoesOn(s, i); }
  }

  lemma StepKeepsCount(s: State, s': State, i: nat, choice: bool)
    requires Inv(s) && Step(0, s, s', i, choice)
    ensures s'.serving <= s'.next && s'.next - s'.serving == Outstanding(s'.threads)
  {
    if s.threads[i].UnlockSeen? { UnlockGoesOn(s, i); }
    OutstandingUpdate(s.threads, i, s'.threads[i]);
    assert s'.threads == s.threads[i := s'.threads[i]];
  }

  /** Every step keeps the invariant. */
  lemma StepKeepsInv(s: State, s': State, i: nat, choice: bool)
    requires Inv(s) && Step(0, s, s', i, choice)
    ensures Inv(s') && |s'.threads| == |s.threads|
  {
    StepKeepsCount(s, s', i, choice);
    StepKeepsTickets(s, s', i, choice);
    forall k | s'.serving <= k < s'.next ensures Drawn(s', k) { StepKeepsDrawn(s, s', i, choice, k); }
  }

  // ---- runs --------------------------------------------------------------------------------

  function Last(trace: seq<State>): State
    requires |trace| > 0
  {
    trace[|trace| - 1]
  }

  lemma {:induction false} RunPrefix(m: nat, n: nat, trace: seq<State>, k: nat)
    requires Run(m, n, trace) && k < |trace|
    ensures Run(m, n, trace[..k + 1])
    ensures k + 1 < |trace| ==> Stepped(m, trace[k], trace[k + 1])
  {
    if k + 1 == |trace| {
      assert trace[..k + 1] == trace;
    } else if k + 2 < |trace| {
      RunPrefix(m, n, trace[..|trace| - 1], k);
      assert trace[..|trace| - 1][..k + 1] == trace[..k + 1];
    }
  }

  lemma {:induction false} ThreadCount(m: nat, n: nat, trace: seq<State>)
    requires Run(m, n, trace)
    ensures |trace| > 0 && |Last(trace).threads| == n
  {
    if |trace| > 1 { ThreadCount(m, n, trace[..|trace| - 1]); }
  }

  lemma RunExtend(m: nat, n: nat, trace: seq<State>, s: State)
    requires Run(m, n, trace) && |trace| > 0 && Stepped(m, Last(trace), s)
    ensures Run(m, n, trace + [s])
  {
    assert (trace + [s])[..|trace|] == trace;
  }

  lemma {:induction false} RunInv(n: nat, trace: seq<State>)
    requires Run(0, n, trace)
    ensures |trace| > 0 && Inv(Last(trace)) && |Last(trace).threads| == n
  {
    if |trace| <= 1 {
      InitialInv(n);
    } else {
      var s, s' := trace[|trace| - 2], trace[|trace| - 1];
      RunInv(n, trace[..|trace| - 1]);
      var i: nat, choice: bool :| Step(0, s, s', i, choice);
      StepKeepsInv(s, s', i, choice);
    }
  }

  lemma InvAt(n: nat, trace: seq<State>, k: nat)
    requires Run(0, n, trace) && k < |trace|
    ensures Inv(trace[k]) && |trace[k].threads| == n
  {
    RunPrefix(0, n, trace, k);
    RunInv(n, trace[..k + 1]);
  }

  // ---- wrapping counters -------------------------------------------------------------------

  const COUNTER_LIMIT: nat := 0x1_0000_0000_0000_0000

  /** The counters are unbounded, or there are fewer threads than counter values. */
  predicate Fits(m: nat, n: nat) { m == 0 || (m > 1 && n < m) }

  function Low(m: nat, x: nat): nat { if m == 0 then x else x % m }

  function WrapThread(m: nat, t: Thread): Thread
  {
    match t
    case Idle => Idle
    case TrySeen(current) => TrySeen(Low(m, current))
    case TryFree => TryFree
    case Waiting(ticket, trying) => Waiting(Low(m, ticket), trying)
    case Holding(ticket, tried) => Holding(Low(m, ticket), tried)
    case UnlockSeen(ticket, current) => UnlockSeen(Low(m, ticket), Low(m, current))
    case UnlockSure(ticket) => UnlockSure(Low(m, ticket))
    case UnlockReady(ticket, current) => UnlockReady(Low(m, ticket), Low(m, current))
  }

  /** The state the hardware sees: every counter modulo `m`. */
  function Wrap(m: nat, s: State): State
  {
    State(Low(m, s.next), Low(m, s.serving),
          seq(|s.threads|, i requires 0 <= i < |s.threads| => WrapThread(m, s.threads[i])))
  }

  /** Numbers less than `m` apart are told apart by their remainders. */
  lemma Remainders(m: nat, x: nat, y: nat)
    requires x <= y && (m == 0 || y < x + m)
    ensures Low(m, x) == Low(m, y) <==> x == y
  {
    if m > 0 && x % m == y % m {
      assert x == m * (x / m) + x % m && y == m * (y / m) + y % m;
      Distribute(m, y / m, x / m);
      SmallMultiple(m, y / m - x / m);
    }
  }

  lemma IncWraps(m: nat, x: nat)
    requires m != 1
    ensures Inc(m, Low(m, x)) == Low(m, x + 1)
  {
    if m > 0 {
      var q, r := x / m, x % m;
      assert x == m * q + r;
      if r + 1 == m {
        Distribute(m, q, 1);
        DivUnique(x + 1, m, q + 1, 0);
      } else {
        DivUnique(x + 1, m, q, r + 1);
      }
    }
  }

  /** Both states agree on who has a ticket and who owns the lock. */
  ghost predicate Alike(s: State, a: State)
  {
    && |s.threads| == |a.threads|
    && forall j :: 0 <= j < |s.threads| ==>
                     (HasTicket(s.threads[j]) <==> HasTicket(a.threads[j])) && (Owns(s.threads[j]) <==> Owns(a.threads[j]))
  }

  lemma WrapAlike(m: nat, a: State)
    ensures Alike(Wrap(m, a), a)
  {
  }

  /** Each step of the wrapped lock is a step of the unbounded one. */
  lemma WrappedStep(m: nat, a: State, c': State, i: nat, choice: bool) returns (a': State)
    requires Fits(m, |a.threads|) && Inv(a) && Step(m, Wrap(m, a), c', i, choice)
    ensures Step(0, a, a', i, choice) && c' == Wrap(m, a')
  {
    a' := After(0, a, i, choice);
    var t := a.threads[i];
    IncWraps(m, a.next);
    IncWraps(m, a.serving);
    if t.Waiting? { Remainders(m, a.serving, t.ticket); }
    if t.UnlockSeen? { Remainders(m, a.serving, a.next); }
    assert c'.threads == Wrap(m, a').threads;
  }

  lemma WrappedMore(m: nat, n: nat, front: seq<State>, s': State) returns (a': State)
    requires Fits(m, n) && Run(0, n, front) && |front| > 0 && Stepped(m, Wrap(m, Last(front)), s')
    ensures Run(0, n, front + [a']) && s' == Wrap(m, a')
  {
    RunInv(n, front);
    var i: nat, choice: bool :| Step(m, Wrap(m, Last(front)), s', i, choice);
    a' := WrappedStep(m, Last(front), s', i, choice);
    assert Stepped(0, Last(front), a');
    RunExtend(0, n, front, a');
  }

  /** So a run of any length is, state by state, the image of a run with unbounded counters. */
  lemma {:induction false} WrappedRun(m: nat, n: nat, trace: seq<State>) returns (unbounded: seq<State>)
    requires Fits(m, n) && Run(m, n, trace)
    ensures |unbounded| == |trace| > 0 && Run(0, n, unbounded)
    ensures forall k :: 0 <= k < |trace| ==> trace[k] == Wrap(m, unbounded[k])
  {
    if |trace| <= 1 {
      unbounded := trace;
      assert Wrap(m, Initial(n)).threads == Initial(n).threads;
    } else {
      var front := WrappedRun(m, n, trace[..|trace| - 1]);
      assert trace[..|trace| - 1][|trace| - 2] == trace[|trace| - 2];
      var a' := WrappedMore(m, n, front, Last(trace));
      unbounded := front + [a'];
    }
  }

  /** What a run ends in is the image of a state with the invariant. */
  lemma LastUnwrapped(m: nat, n: nat, trace: seq<State>) returns (a: State)
    requires Fits(m, n) && Run(m, n, trace)
    ensures |trace| > 0 && Inv(a) && Last(trace) == Wrap(m, a) && |a.threads| == n
  {
    var unbounded := WrappedRun(m, n, trace);
    RunInv(n, unbounded);
    a := Last(unbounded);
  }

  // ---- what every run guarantees -----------------------------------------------------------

  /** Mutual exclusion: at most one thread owns the lock. */
  lemma MutualExclusion(m: nat, n: nat, trace: seq<State>)
    requires Fits(m, n) && Run(m, n, trace)
    ensures |trace| > 0
    ensures var threads := Last(trace).threads;
            forall i, j :: 0 <= i < |threads| && 0 <= j < |threads| && Owns(threads[i]) && Owns(threads[j]) ==> i == j
  {
    var a := LastUnwrapped(m, n, trace);
  }

  /** How many times the served ticket must be advanced before it is `ticket`. */
  function Ahead(m: nat, serving: nat, ticket: nat): int
  {
    if serving <= ticket then ticket - serving else ticket + m - serving
  }

  lemma AheadOf(m: nat, a: State, i: nat)
    requires Fits(m, |a.threads|) && Inv(a) && i < |a.threads| && HasTicket(a.threads[i])
    ensures Ahead(m, Low(m, a.serving), Low(m, a.threads[i].ticket)) == a.threads[i].ticket - a.serving
  {
    var x, y := a.serving, a.threads[i].ticket;
    if m > 0 {
      var q, r := x / m, x % m;
      assert x == m * q + r;
      if r + (y - x) < m {
        DivUnique(y, m, q, r + (y - x));
      } else {
        Distribute(m, q, 1);
        DivUnique(y, m, q + 1, r + (y - x) - m);
      }
    }
  }

  /** The outstanding tickets make a queue: each place in it belongs to exactly one thread. */
  ghost predicate Queued(m: nat, s: State)
  {
    && (forall i :: 0 <= i < |s.threads| && HasTicket(s.threads[i]) ==>
          0 <= Ahead(m, s.serving, s.threads[i].ticket) < Outstanding(s.threads))
    && (forall i, j ::
          (0 <= i < |s.threads| && 0 <= j < |s.threads| && HasTicket(s.threads[i]) && HasTicket(s.threads[j])
           && Ahead(m, s.serving, s.threads[i].ticket) == Ahead(m, s.serving, s.threads[j].ticket)) ==> i == j)
    && (forall d: nat :: d < Outstanding(s.threads) ==> HasPlace(m, s, d))
  }

  ghost predicate HasPlace(m: nat, s: State, d: nat)
  {
    exists i :: 0 <= i < |s.threads| && HasTicket(s.threads[i]) && Ahead(m, s.serving, s.threads[i].ticket) == d
  }

  lemma {:induction false} SameOutstanding(m: nat, a: seq<Thread>, b: seq<Thread>)
    requires |a| == |b| && forall i :: 0 <= i < |a| ==> b[i] == WrapThread(m, a[i])
    ensures Outstanding(a) == Outstanding(b)
  {
    if a != [] { SameOutstanding(m, a[1..], b[1..]); }
  }

  lemma PlaceTaken(m: nat, a: State, d: nat)
    requires Fits(m, |a.threads|) && Inv(a) && d < Outstanding(a.threads)
    ensures HasPlace(m, Wrap(m, a), d)
  {
    assert Drawn(a, a.serving + d);
    var i :| 0 <= i < |a.threads| && HasTicket(a.threads[i]) && a.threads[i].ticket == a.serving + d;
    AheadOf(m, a, i);
    assert HasTicket(Wrap(m, a).threads[i]);
  }

  /** In the image the places are the differences of the tickets to the served one. */
  lemma ImageQueued(m: nat, a: State)
    requires Fits(m, |a.threads|) && Inv(a)
    ensures Queued(m, Wrap(m, a))
  {
    var s := Wrap(m, a);
    SameOutstanding(m, a.threads, s.threads);
    forall i: nat | i < |s.threads| && HasTicket(s.threads[i])
      ensures HasTicket(a.threads[i]) && Ahead(m, s.serving, s.threads[i].ticket) == a.threads[i].ticket - a.serving
    {
      AheadOf(m, a, i);
    }
    forall d: nat | d < Outstanding(s.threads) ensures HasPlace(m, s, d) { PlaceTaken(m, a, d); }
  }

  /** First come, first served: the outstanding tickets are a queue without gaps, and the owner is
      its head. */
  lemma FirstComeFirstServed(m: nat, n: nat, trace: seq<State>)
    requires Fits(m, n) && Run(m, n, trace)
    ensures |trace| > 0 && Queued(m, Last(trace))
    ensures var s := Last(trace); forall i :: 0 <= i < |s.threads| && Owns(s.threads[i]) ==> s.threads[i].ticket == s.serving
  {
    var a := LastUnwrapped(m, n, trace);
    ImageQueued(m, a);
  }

  /** Who becomes owner has the served ticket, releasing serves the next one, and no other step
      changes which is served. */
  lemma GrantsInOrder(m: nat, n: nat, trace: seq<State>, s': State, i: nat, choice: bool)
    requires Fits(m, n) && Run(m, n, trace) && |trace| > 0 && Step(m, Last(trace), s', i, choice)
    ensures var s := Last(trace);
            && (Owns(s'.threads[i]) && !Owns(s.threads[i]) ==> s'.threads[i].ticket == s.serving == s'.serving)
            && (Owns(s.threads[i]) && !Owns(s'.threads[i]) ==> s'.serving == Inc(m, s.serving))
            && ((Owns(s.threads[i]) <==> Owns(s'.threads[i])) ==> s'.serving == s.serving)
  {
    var a := LastUnwrapped(m, n, trace);
    if a.threads[i].UnlockSeen? { UnlockGoesOn(a, i); Remainders(m, a.serving, a.next); }
  }

  /** A try_lock that returns true has made its caller the only owner. */
  lemma TrueTryLockOwns(m: nat, n: nat, trace: seq<State>, i: nat)
    requires Fits(m, n) && Run(m, n, trace) && |trace| > 0
    requires var s := Last(trace); i < |s.threads| && s.threads[i].Holding? && s.threads[i].tried
    ensures var s := Last(trace);
            s.threads[i].ticket == s.serving && forall j :: 0 <= j < |s.threads| && Owns(s.threads[j]) ==> j == i
  {
    var a := LastUnwrapped(m, n, trace);
  }

  /** While tickets are outstanding, the thread with the served one can go on: it owns the lock, or
      its next load makes it the owner. */
  lemma SomeoneProceeds(m: nat, n: nat, trace: seq<State>) returns (i: nat)
    requires Fits(m, n) && Run(m, n, trace) && |trace| > 0 && Last(trace).serving != Last(trace).next
    ensures var s := Last(trace);
            i < |s.threads| && (Owns(s.threads[i]) || (s.threads[i].Waiting? && Owns(After(m, s, i, true).threads[i])))
  {
    var a := LastUnwrapped(m, n, trace);
    assert Drawn(a, a.serving);
    i :| 0 <= i < |a.threads| && HasTicket(a.threads[i]) && a.threads[i].ticket == a.serving;
  }

  // ---- who draws first owns first ----------------------------------------------------------

  /** From state `k` to the next, thread `i` draws a ticket. */
  ghost predicate Draws(trace: seq<State>, k: nat, i: nat)
  {
    && k + 1 < |trace| && i < |trace[k].threads| && i < |trace[k + 1].threads|
    && !HasTicket(trace[k].threads[i]) && HasTicket(trace[k + 1].threads[i])
  }

  ghost predicate Keeps(trace: seq<State>, from: nat, to: nat, i: nat)
  {
    forall x :: from <= x <= to && x < |trace| ==> i < |trace[x].threads| && HasTicket(trace[x].threads[i])
  }

  /** What a step does to the ticket of a thread. */
  lemma TicketStep(s: State, s': State, i: nat)
    requires Inv(s) && Stepped(0, s, s') && i < |s.threads|
    ensures s.next <= s'.next && |s'.threads| == |s.threads|
    ensures HasTicket(s.threads[i]) && HasTicket(s'.threads[i]) ==> s'.threads[i].ticket == s.threads[i].ticket
    ensures HasTicket(s.threads[i]) && !HasTicket(s'.threads[i]) ==> Owns(s.threads[i])
    ensures !HasTicket(s.threads[i]) && HasTicket(s'.threads[i]) ==> s'.threads[i].ticket == s.next < s'.next
  {
    var k: nat, choice: bool :| Step(0, s, s', k, choice);
  }

  lemma TicketStepAt(n: nat, trace: seq<State>, k: nat, i: nat)
    requires Run(0, n, trace) && k + 1 < |trace| && i < n
    ensures |trace[k].threads| == |trace[k + 1].threads| == n && trace[k].next <= trace[k + 1].next
    ensures var t, t' := trace[k].threads[i], trace[k + 1].threads[i];
            && (HasTicket(t) && HasTicket(t') ==> t'.ticket == t.ticket)
            && (HasTicket(t) && !HasTicket(t') ==> Owns(t))
            && (!HasTicket(t) && HasTicket(t') ==> t'.ticket == trace[k].next < trace[k + 1].next)
  {
    InvAt(n, trace, k);
    RunPrefix(0, n, trace, k);
    TicketStep(trace[k], trace[k + 1], i);
  }

  lemma {:induction false} NextGrows(n: nat, trace: seq<State>, k: nat, l: nat)
    requires Run(0, n, trace) && n > 0 && k <= l < |trace|
    ensures trace[k].next <= trace[l].next
    decreases l - k
  {
    if k < l {
      NextGrows(n, trace, k, l - 1);
      TicketStepAt(n, trace, l - 1, 0);
    }
  }

  lemma {:induction false} KeptTicket(n: nat, trace: seq<State>, k: nat, l: nat, i: nat)
    requires Run(0, n, trace) && k <= l < |trace| && i < n && Keeps(trace, k, l, i)
    ensures trace[l].threads[i].ticket == trace[k].threads[i].ticket
    decreases l - k
  {
    if k < l {
      KeptTicket(n, trace, k, l - 1, i);
      TicketStepAt(n, trace, l - 1, i);
    }
  }

  /** A ticket is given up by its owner. */
  lemma {:induction false} Released(n: nat, trace: seq<State>, k: nat, l: nat, i: nat) returns (x: nat)
    requires Run(0, n, trace) && k < l < |trace| && i < n && |trace[k].threads| == |trace[l].threads| == n
    requires HasTicket(trace[k].threads[i]) && !HasTicket(trace[l].threads[i])
    ensures k <= x < l && Keeps(trace, k, x, i) && |trace[x].threads| == |trace[x + 1].threads| == n
    ensures Owns(trace[x].threads[i]) && !HasTicket(trace[x + 1].threads[i])
    decreases l - k
  {
    TicketStepAt(n, trace, k, i);
    if HasTicket(trace[k + 1].threads[i]) {
      x := Released(n, trace, k + 1, l, i);
    } else {
      x := k;
    }
  }

  /** As long as an earlier ticket is held, a later one does not make an owner. */
  lemma LaterWaits(n: nat, trace: seq<State>, k: nat, l: nat, i: nat, j: nat)
    requires Run(0, n, trace) && |trace| > 0 && i < n && j < n && k < l && Draws(trace, k, i) && Draws(trace, l, j)
    requires Keeps(trace, k + 1, |trace| - 1, i) && Keeps(trace, l + 1, |trace| - 1, j)
    ensures !Owns(Last(trace).threads[j])
  {
    TicketStepAt(n, trace, k, i);
    TicketStepAt(n, trace, l, j);
    NextGrows(n, trace, k + 1, l);
    KeptTicket(n, trace, k + 1, |trace| - 1, i);
    KeptTicket(n, trace, l + 1, |trace| - 1, j);
    RunInv(n, trace);
  }

  lemma EarlierReleased(n: nat, trace: seq<State>, k: nat, l: nat, i: nat, j: nat) returns (x: nat)
    requires Run(0, n, trace) && |trace| > 0 && i < n && j < n && k < l && Draws(trace, k, i) && Draws(trace, l, j)
    requires Keeps(trace, l + 1, |trace| - 1, j) && |Last(trace).threads| == n && Owns(Last(trace).threads[j])
    ensures k < x < |trace| - 1 && Keeps(trace, k + 1, x, i) && |trace[x].threads| == |trace[x + 1].threads| == n
    ensures Owns(trace[x].threads[i]) && !HasTicket(trace[x + 1].threads[i])
  {
    forall y: nat | y < |trace| ensures |trace[y].threads| == n { InvAt(n, trace, y); }
    if Keeps(trace, k + 1, |trace| - 1, i) {
      LaterWaits(n, trace, k, l, i, j);
      assert false;
    } else {
      var y :| k + 1 <= y < |trace| && !HasTicket(trace[y].threads[i]);
      x := Released(n, trace, k + 1, y, i);
    }
  }

  /** A thread that owns the lock with a ticket drawn later finds every earlier one used: whoever
      drew earlier has owned the lock with that ticket and released it. */
  lemma EarlierOwnsFirst(m: nat, n: nat, trace: seq<State>, k: nat, l: nat, i: nat, j: nat) returns (x: nat)
    requires Fits(m, n) && Run(m, n, trace) && |trace| > 0 && i < n && j < n && k < l
    requires Draws(trace, k, i) && Draws(trace, l, j) && Keeps(trace, l + 1, |trace| - 1, j)
    requires |Last(trace).threads| == n && Owns(Last(trace).threads[j])
    ensures k < x < |trace| - 1 && Keeps(trace, k + 1, x, i) && |trace[x].threads| == |trace[x + 1].threads| == n
    ensures Owns(trace[x].threads[i]) && !HasTicket(trace[x + 1].threads[i])
  {
    var a := WrappedRun(m, n, trace);
    forall y: nat | y < |trace| ensures Alike(trace[y], a[y]) { WrapAlike(m, a[y]); }
    x := EarlierReleased(n, a, k, l, i, j);
  }

  // ---- when try_lock waits -----------------------------------------------------------------

  ghost predicate NoTickets(s: State)
  {
    forall j :: 0 <= j < |s.threads| ==> !HasTicket(s.threads[j])
  }

  lemma {:induction false} NoneOutstanding(threads: seq<Thread>)
    ensures Outstanding(threads) == 0 <==> forall j :: 0 <= j < |threads| ==> !HasTicket(threads[j])
  {
    if threads != [] {
      NoneOutstanding(threads[1..]);
      assert forall j :: 0 < j < |threads| ==> threads[j] == threads[1..][j - 1];
    }
  }

  /** Once `try_lock` has seen the lock free it draws a ticket. Its next load makes it the owner
      exactly when no ticket was outstanding as it drew; otherwise it waits. */
  lemma TryLockWaits(m: nat, n: nat, trace: seq<State>, i: nat)
    requires Fits(m, n) && Run(m, n, trace) && |trace| > 0
    requires i < |Last(trace).threads| && Last(trace).threads[i].TryFree?
    ensures var s := Last(trace);
            Owns(After(m, After(m, s, i, true), i, true).threads[i]) <==> NoTickets(s)
  {
    var a := LastUnwrapped(m, n, trace);
    NoneOutstanding(a.threads);
    Remainders(m, a.serving, a.next);
    WrapAlike(m, a);
  }

  /** No thread but `i` draws a ticket after state `from`. */
  ghost predicate Undisturbed(trace: seq<State>, from: nat, i: nat)
  {
    forall x: nat, j: nat :: from <= x && j != i && x + 1 < |trace| ==> !Draws(trace, x, j)
  }

  /** From state `from` on thread `i` is in one call of `try_lock`, which has loaded
      `serving_ticket_` there. */
  ghost predicate Trying(trace: seq<State>, from: nat, i: nat)
  {
    && from + 1 < |trace| && i < |trace[from].threads| && trace[from].threads[i].Idle?
    && forall x :: from < x < |trace| ==>
                     i < |trace[x].threads| && (trace[x].threads[i].TrySeen? || trace[x].threads[i].TryFree?)
  }

  /** What such a call knows: `next_ticket_` stays, and passing the test means that the two loaded
      values agree. */
  lemma {:induction false} TryingSees(m: nat, n: nat, trace: seq<State>, from: nat, i: nat, x: nat)
    requires m > 1 && Run(m, n, trace) && Trying(trace, from, i) && Undisturbed(trace, from, i) && from < x < |trace|
    ensures trace[x].next == trace[from].next
    ensures trace[x].threads[i] == TrySeen(trace[from].serving)
            || (trace[x].threads[i].TryFree? && trace[from].serving == trace[from].next)
    decreases x
  {
    if from + 1 < x { TryingSees(m, n, trace, from, i, x - 1); }
    RunPrefix(m, n, trace, x - 1);
    var k: nat, choice: bool :| Step(m, trace[x - 1], trace[x], k, choice);
    assert k != i ==> !Draws(trace, x - 1, k);
  }

  lemma {:induction false} StillNone(m: nat, n: nat, trace: seq<State>, from: nat, i: nat, x: nat)
    requires Run(m, n, trace) && Trying(trace, from, i) && Undisturbed(trace, from, i) && from <= x < |trace|
    requires NoTickets(trace[from])
    ensures NoTickets(trace[x])
    decreases x
  {
    if from < x {
      StillNone(m, n, trace, from, i, x - 1);
      RunPrefix(m, n, trace, x - 1);
      NoneDrawn(m, trace[x - 1], trace[x], i, trace, x - 1);
    }
  }

  lemma NoneDrawn(m: nat, s: State, s': State, i: nat, trace: seq<State>, x: nat)
    requires x + 1 < |trace| && s == trace[x] && s' == trace[x + 1] && Stepped(m, s, s') && NoTickets(s)
    requires i < |s'.threads| && !HasTicket(s'.threads[i]) && forall j: nat :: j != i ==> !Draws(trace, x, j)
    ensures NoTickets(s')
  {
    var k: nat, choice: bool :| Step(m, s, s', k, choice);
    assert k != i ==> !Draws(trace, x, k);
  }

  lemma CountersAgree(m: nat, a: State)
    requires Fits(m, |a.threads|) && Inv(a)
    ensures Wrap(m, a).serving == Wrap(m, a).next <==> NoTickets(Wrap(m, a))
  {
    NoneOutstanding(a.threads);
    Remainders(m, a.serving, a.next);
    WrapAlike(m, a);
  }

  /** If such a call passes the test, no ticket was outstanding at its first load. */
  lemma SeenFree(m: nat, n: nat, trace: seq<State>, from: nat, i: nat)
    requires Fits(m, n) && m > 0 && Run(m, n, trace) && Trying(trace, from, i) && Undisturbed(trace, from, i)
    requires Last(trace).threads[i].TryFree?
    ensures NoTickets(trace[from])
  {
    RunPrefix(m, n, trace, from);
    var a := LastUnwrapped(m, n, trace[..from + 1]);
    CountersAgree(m, a);
    TryingSees(m, n, trace, from, i, |trace| - 1);
  }

  /** The test of an undisturbed call: its load of `next_ticket_` finds the lock free exactly when no
      ticket was outstanding at its load of `serving_ticket_`. */
  lemma TryLockPasses(m: nat, n: nat, trace: seq<State>, from: nat, i: nat, s': State, choice: bool)
    requires Fits(m, n) && m > 0 && Run(m, n, trace) && Trying(trace, from, i) && Undisturbed(trace, from, i)
    requires Last(trace).threads[i].TrySeen? && Step(m, Last(trace), s', i, choice)
    ensures s'.threads[i].TryFree? <==> NoTickets(trace[from])
    ensures s'.threads[i].Idle? <==> !NoTickets(trace[from])
  {
    RunPrefix(m, n, trace, from);
    var a := LastUnwrapped(m, n, trace[..from + 1]);
    CountersAgree(m, a);
    TryingSees(m, n, trace, from, i, |trace| - 1);
  }

  /** So a `try_lock` that passes its test does not wait unless another thread draws a ticket
      between its load of `serving_ticket_` and its own draw. */
  lemma TryLockUndisturbed(m: nat, n: nat, trace: seq<State>, from: nat, i: nat)
    requires Fits(m, n) && m > 0 && Run(m, n, trace) && Trying(trace, from, i) && Undisturbed(trace, from, i)
    requires Last(trace).threads[i].TryFree?
    ensures NoTickets(trace[from]) && NoTickets(Last(trace))
    ensures Owns(After(m, After(m, Last(trace), i, true), i, true).threads[i])
  {
    SeenFree(m, n, trace, from, i);
    StillNone(m, n, trace, from, i, |trace| - 1);
    TryLockWaits(m, n, trace, i);
  }

  /** And it can wait: between its test and its ticket another thread takes the lock. */
  lemma TryLockCanWait() returns (trace: seq<State>)
    ensures Run(COUNTER_LIMIT, 2, trace) && |trace| > 0 && |Last(trace).threads| == 2
    ensures Last(trace).threads[0] == Waiting(1, true) && Owns(Last(trace).threads[1])
  {
    trace := [Initial(2)];
    trace := StepOnce(trace, 0, false);
    trace := StepOnce(trace, 0, true);
    trace := StepOnce(trace, 1, true);
    trace := StepOnce(trace, 1, true);
    trace := StepOnce(trace, 0, true);
  }

  lemma StepOnce(trace: seq<State>, i: nat, choice: bool) returns (longer: seq<State>)
    requires Run(COUNTER_LIMIT, 2, trace) && |trace| > 0 && i < |Last(trace).threads|
    requires Last(trace).threads[i].TrySeen? ==> choice == (Last(trace).threads[i].current == Last(trace).next)
    ensures Run(COUNTER_LIMIT, 2, longer) && |longer| > 0 && Last(longer) == After(COUNTER_LIMIT, Last(trace), i, choice)
  {
    var s := Last(trace);
    var s' := After(COUNTER_LIMIT, s, i, choice);
    assert Step(COUNTER_LIMIT, s, s', i, choice);
    RunExtend(COUNTER_LIMIT, 2, trace, s');
    longer := trace + [s'];
  }
}
