/** The atomic once() of crc32.c: any number of threads, every interleaving of their atomic steps. */
module Once {

  /** Where a thread stands in once(). Returned threads may call once() again. */
  datatype Place =
    | Loading     // about to load done
    | Testing     // found done clear: about to test and set begun
    | Spinning    // found begun set: loading done until it is set
    | Starting    // set begun itself: about to call init()
    | Running     // inside init()
    | Storing     // init() has returned: about to store done
    | Returned

  /** The two atomics, how often init() has been entered and left, and where every thread stands. */
  datatype State = State(begun: bool, done: bool, entered: nat, left: nat, threads: seq<Place>)

  /** ONCE_INIT, with any number of threads entering once(). */
  predicate Initial(s: State)
  {
    !s.begun && !s.done && s.entered == 0 && s.left == 0 && forall i :: 0 <= i < |s.threads| ==> s.threads[i] == Loading
  }

  /** The next atomic step of thread i. */
  function Step(s: State, i: nat): (r: State)
    requires i < |s.threads|
    ensures |r.threads| == |s.threads|
  {
    match s.threads[i]
    case Loading => s.(threads := s.threads[i := if s.done then Returned else Testing])
    case Testing => s.(begun := true, threads := s.threads[i := if s.begun then Spinning else Starting])
    case Spinning => s.(threads := s.threads[i := if s.done then Returned else Spinning])
    case Starting => s.(entered := s.entered + 1, threads := s.threads[i := Running])
    case Running => s.(left := s.left + 1, threads := s.threads[i := Storing])
    case Storing => s.(done := true, threads := s.threads[i := Returned])
    case Returned => s.(threads := s.threads[i := Loading])
  }

  /** The state after the threads in the schedule have taken one step each, in that order. */
  function Run(s: State, schedule: seq<nat>): (r: State)
    requires forall k :: 0 <= k < |schedule| ==> schedule[k] < |s.threads|
    ensures |r.threads| == |s.threads|
    decreases |schedule|
  {
    if |schedule| == 0 then s else Run(Step(s, schedule[0]), schedule[1..])
  }

  /** The thread is the one that runs init(). */
  predicate Owns(p: Place)
  {
    p.Starting? || p.Running? || p.Storing?
  }

  predicate Owned(s: State)
  {
    exists i :: 0 <= i < |s.threads| && Owns(s.threads[i])
  }

  predicate Invariant(s: State)
  {
    && (s.begun && !s.done <==> Owned(s))
    && (s.done ==> s.begun)
    && (forall i, j | 0 <= i < |s.threads| && 0 <= j < |s.threads| ::
         Owns(s.threads[i]) && Owns(s.threads[j]) ==> i == j)
    && (forall i :: 0 <= i < |s.threads| ==> Fits(s, s.threads[i]))
    && (!s.begun ==> s.entered == 0 && s.left == 0)
    && (s.done ==> s.entered == 1 && s.left == 1)
  }

  /** What the shared state must be for a thread to stand at p. */
  predicate Fits(s: State, p: Place)
  {
    match p
    case Loading => true
    case Testing => true
    case Spinning => s.begun
    case Starting => s.begun && s.entered == 0 && s.left == 0
    case Running => s.begun && s.entered == 1 && s.left == 0
    case Storing => s.begun && s.entered == 1 && s.left == 1
    case Returned => s.done
  }

  lemma Kept(s: State, i: nat)
    requires i < |s.threads| && Invariant(s)
    ensures Invariant(Step(s, i))
  {
    var t := Step(s, i);
    assert t.threads[i] == t.threads[i];
    if Owns(s.threads[i]) && !s.threads[i].Storing? {
      assert Owns(t.threads[i]);
    } else if Owned(s) && !s.threads[i].Storing? {
      var j :| 0 <= j < |s.threads| && Owns(s.threads[j]);
      assert Owns(t.threads[j]);
    }
  }

  lemma {:induction false} Reached(s: State, schedule: seq<nat>)
    requires forall k :: 0 <= k < |schedule| ==> schedule[k] < |s.threads|
    requires Invariant(s)
    ensures Invariant(Run(s, schedule))
    decreases |schedule|
  {
    hide Invariant;
    if |schedule| == 0 {
    } else {
      Kept(s, schedule[0]);
      Reached(Step(s, schedule[0]), schedule[1..]);
    }
  }

  /**
   * In every interleaving, init() is entered at most once, done is set only after it has been left, no thread
   * returns before that, and while threads wait with done clear there is exactly one thread running init().
   */
  lemma Safe(s: State, schedule: seq<nat>)
    requires Initial(s) && forall k :: 0 <= k < |schedule| ==> schedule[k] < |s.threads|
    ensures var r := Run(s, schedule);
            && r.left <= r.entered <= 1
            && (r.done ==> r.left == 1)
            && (forall i :: 0 <= i < |r.threads| && r.threads[i].Returned? ==> r.left == 1)
            && (forall i :: 0 <= i < |r.threads| && r.threads[i].Spinning? && !r.done ==>
                  exists j :: 0 <= j < |r.threads| && Owns(r.threads[j])
                              && forall k :: 0 <= k < |r.threads| && Owns(r.threads[k]) ==> k == j)
  {
    Reached(s, schedule);
    var r := Run(s, schedule);
    if r.begun && !r.done {
      assert Owned(r);
      var j :| 0 <= j < |r.threads| && Owns(r.threads[j]);
      assert Fits(r, r.threads[j]);
    }
    assert forall i :: 0 <= i < |r.threads| ==> Fits(r, r.threads[i]);
  }

  // ---- Progress ----

  /** How many steps a thread may still have to take in its call, not counting turns of the spin loop. */
  function Rank(p: Place): nat
  {
    match p
    case Loading => 5
    case Testing => 4
    case Starting => 3
    case Running => 2
    case Storing => 1
    case Spinning => 1
    case Returned => 0
  }

  function Remaining(t: seq<Place>): nat
  {
    if |t| == 0 then 0 else Rank(t[0]) + Remaining(t[1..])
  }

  lemma {:induction false} RemainingUpdate(t: seq<Place>, i: nat, p: Place)
    requires i < |t|
    ensures Remaining(t[i := p]) == Remaining(t) - Rank(t[i]) + Rank(p)
    decreases |t|
  {
    if i == 0 {
      assert t[i := p][1..] == t[1..];
    } else {
      assert t[i := p][1..] == t[1..][i - 1 := p];
      RemainingUpdate(t[1..], i - 1, p);
    }
  }

  /** A step that is not a turn of the spin loop, nor a new call, brings the end nearer. */
  lemma Advances(s: State, i: nat)
    requires i < |s.threads| && !s.threads[i].Returned? && !(s.threads[i].Spinning? && !s.done)
    ensures Remaining(Step(s, i).threads) < Remaining(s.threads)
  {
    RemainingUpdate(s.threads, i, Step(s, i).threads[i]);
  }

  /** No deadlock: as long as some thread has not returned, some thread can bring the end nearer. */
  lemma Live(s: State, schedule: seq<nat>, i: nat) returns (j: nat)
    requires Initial(s) && forall k :: 0 <= k < |schedule| ==> schedule[k] < |s.threads|
    requires i < |s.threads| && !Run(s, schedule).threads[i].Returned?
    ensures j < |s.threads| && Remaining(Step(Run(s, schedule), j).threads) < Remaining(Run(s, schedule).threads)
  {
    Reached(s, schedule);
    var r := Run(s, schedule);
    j := i;
    if r.threads[i].Spinning? && !r.done {
      assert Fits(r, r.threads[i]);
      assert Owned(r);
      j :| 0 <= j < |r.threads| && Owns(r.threads[j]);
    }
    Advances(r, j);
  }

  // ---- Termination ----

  /** A turn of the spin loop. */
  predicate Turns(s: State, i: nat)
    requires i < |s.threads|
  {
    s.threads[i].Spinning? && !s.done
  }

  /** The schedule makes no new call: it gives no step to a thread that has returned. */
  predicate NoCalls(s: State, schedule: seq<nat>)
    requires forall k :: 0 <= k < |schedule| ==> schedule[k] < |s.threads|
    decreases |schedule|
  {
    |schedule| == 0 || (!s.threads[schedule[0]].Returned? && NoCalls(Step(s, schedule[0]), schedule[1..]))
  }

  /** How many steps of the schedule are no turns of the spin loop. */
  function Useful(s: State, schedule: seq<nat>): nat
    requires forall k :: 0 <= k < |schedule| ==> schedule[k] < |s.threads|
    decreases |schedule|
  {
    if |schedule| == 0 then 0
    else (if Turns(s, schedule[0]) then 0 else 1) + Useful(Step(s, schedule[0]), schedule[1..])
  }

  /** A turn of the spin loop changes nothing. */
  lemma TurnKeeps(s: State, i: nat)
    requires i < |s.threads| && Turns(s, i)
    ensures Step(s, i) == s
  {
    assert s.threads[i := Spinning] == s.threads;
  }

  /** Without new calls, what remains pays for every step that is no turn of the spin loop. */
  lemma {:induction false} Bounded(s: State, schedule: seq<nat>)
    requires forall k :: 0 <= k < |schedule| ==> schedule[k] < |s.threads|
    requires NoCalls(s, schedule)
    ensures Useful(s, schedule) + Remaining(Run(s, schedule).threads) <= Remaining(s.threads)
    decreases |schedule|
  {
    hide Remaining, Step;
    if |schedule| == 0 {
    } else {
      Bounded(Step(s, schedule[0]), schedule[1..]);
      if Turns(s, schedule[0]) {
        TurnKeeps(s, schedule[0]);
      } else {
        Advances(s, schedule[0]);
      }
    }
  }

  /** A schedule that gives every thread in the order a step in its turn, passing over those that have returned. */
  function Round(s: State, order: seq<nat>): (r: State)
    requires forall k :: 0 <= k < |order| ==> order[k] < |s.threads|
    ensures |r.threads| == |s.threads|
    decreases |order|
  {
    if |order| == 0 then s
    else Round(if s.threads[order[0]].Returned? then s else Step(s, order[0]), order[1..])
  }

  function Rounds(s: State, orders: seq<seq<nat>>): (r: State)
    requires forall k, l :: 0 <= k < |orders| && 0 <= l < |orders[k]| ==> orders[k][l] < |s.threads|
    ensures |r.threads| == |s.threads|
    decreases |orders|
  {
    if |orders| == 0 then s else Rounds(Round(s, orders[0]), orders[1..])
  }

  /** There are n rounds or more, and each of them gives a step to every one of the threads. */
  predicate Fair(orders: seq<seq<nat>>, threads: nat, n: nat)
  {
    |orders| >= n && forall k, i: nat :: 0 <= k < |orders| && i < threads ==> i in orders[k]
  }

  predicate AllReturned(s: State)
  {
    forall i :: 0 <= i < |s.threads| ==> s.threads[i].Returned?
  }

  /** A round keeps the invariant, and brings the end nearer if it gives a step to a thread that is not spinning. */
  lemma {:induction false} RoundAdvances(s: State, order: seq<nat>, j: nat)
    requires Invariant(s) && forall k :: 0 <= k < |order| ==> order[k] < |s.threads|
    requires j < |s.threads| && !s.threads[j].Returned? && !Turns(s, j)
    ensures var r := Round(s, order);
            Invariant(r) && Remaining(r.threads) <= Remaining(s.threads)
            && (j in order ==> Remaining(r.threads) < Remaining(s.threads))
    decreases |order|
  {
    hide Invariant, Remaining, Step;
    if |order| == 0 {
    } else {
      var i := order[0];
      if s.threads[i].Returned? {
        RoundAdvances(s, order[1..], j);
      } else if Turns(s, i) {
        TurnKeeps(s, i);
        RoundAdvances(s, order[1..], j);
      } else {
        Kept(s, i);
        Advances(s, i);
        RoundKeeps(Step(s, i), order[1..]);
      }
    }
  }

  lemma {:induction false} RoundKeeps(s: State, order: seq<nat>)
    requires Invariant(s) && forall k :: 0 <= k < |order| ==> order[k] < |s.threads|
    ensures Invariant(Round(s, order)) && Remaining(Round(s, order).threads) <= Remaining(s.threads)
    decreases |order|
  {
    hide Invariant, Remaining, Step;
    if |order| == 0 {
    } else if s.threads[order[0]].Returned? {
      RoundKeeps(s, order[1..]);
    } else {
      Kept(s, order[0]);
      if Turns(s, order[0]) {
        TurnKeeps(s, order[0]);
      } else {
        Advances(s, order[0]);
      }
      RoundKeeps(Step(s, order[0]), order[1..]);
    }
  }

  /** Some thread is not spinning, as long as some thread has not returned. */
  lemma CanAdvance(s: State, i: nat) returns (j: nat)
    requires Invariant(s) && i < |s.threads| && !s.threads[i].Returned?
    ensures j < |s.threads| && !s.threads[j].Returned? && !Turns(s, j)
  {
    j := i;
    if Turns(s, i) {
      assert Fits(s, s.threads[i]);
      assert Owned(s);
      j :| 0 <= j < |s.threads| && Owns(s.threads[j]);
    }
  }

  lemma {:induction false} AllReturnedIffNone(s: State)
    ensures AllReturned(s) <==> Remaining(s.threads) == 0
  {
    NoneRemaining(s.threads);
  }

  lemma {:induction false} NoneRemaining(t: seq<Place>)
    ensures Remaining(t) == 0 <==> forall i :: 0 <= i < |t| ==> t[i].Returned?
    decreases |t|
  {
    if |t| == 0 {
    } else {
      NoneRemaining(t[1..]);
      assert forall i :: 0 < i < |t| ==> t[i] == t[1..][i - 1];
    }
  }

  /** Rounds that each give every thread a step end all calls, once there are as many rounds as steps remain. */
  lemma {:induction false} Ends(s: State, orders: seq<seq<nat>>)
    requires Invariant(s) && Fair(orders, |s.threads|, Remaining(s.threads))
    requires forall k, l :: 0 <= k < |orders| && 0 <= l < |orders[k]| ==> orders[k][l] < |s.threads|
    ensures AllReturned(Rounds(s, orders))
    decreases |orders|
  {
    hide Invariant, Remaining, Step, Round, AllReturned;
    AllReturnedIffNone(s);
    if |orders| == 0 {
    } else {
      if AllReturned(s) {
        RoundKeeps(s, orders[0]);
      } else {
        var i := NotReturned(s);
        var j := CanAdvance(s, i);
        RoundAdvances(s, orders[0], j);
      }
      Ends(Round(s, orders[0]), orders[1..]);
    }
  }

  lemma NotReturned(s: State) returns (i: nat)
    requires !AllReturned(s)
    ensures i < |s.threads| && !s.threads[i].Returned?
  {
    i :| i < |s.threads| && !s.threads[i].Returned?;
  }

  lemma {:induction false} RemainingAtMost(t: seq<Place>)
    ensures Remaining(t) <= 5 * |t|
    decreases |t|
  {
    if |t| == 0 {
    } else {
      RemainingAtMost(t[1..]);
    }
  }

  lemma {:induction false} RoundsKeep(s: State, orders: seq<seq<nat>>)
    requires Invariant(s)
    requires forall k, l :: 0 <= k < |orders| && 0 <= l < |orders[k]| ==> orders[k][l] < |s.threads|
    ensures Invariant(Rounds(s, orders))
    decreases |orders|
  {
    hide Invariant, Remaining, Round;
    if |orders| == 0 {
    } else {
      RoundKeeps(s, orders[0]);
      RoundsKeep(Round(s, orders[0]), orders[1..]);
    }
  }

  /**
   * Termination, from every state that can be reached. As long as no new calls are made, at most five steps a thread
   * are no turns of the spin loop, however the threads are scheduled. After five rounds a thread, in each of which
   * every thread gets a step, all threads have returned, and init() has been run.
   */
  lemma Terminates(s: State, past: seq<nat>, schedule: seq<nat>, orders: seq<seq<nat>>)
    requires Initial(s) && forall k :: 0 <= k < |past| ==> past[k] < |s.threads|
    requires forall k :: 0 <= k < |schedule| ==> schedule[k] < |s.threads|
    requires forall k, l :: 0 <= k < |orders| && 0 <= l < |orders[k]| ==> orders[k][l] < |s.threads|
    ensures NoCalls(Run(s, past), schedule) ==> Useful(Run(s, past), schedule) <= 5 * |s.threads|
    ensures Fair(orders, |s.threads|, 5 * |s.threads|) ==>
              var r := Rounds(Run(s, past), orders);
              AllReturned(r) && (|s.threads| > 0 ==> r.left == 1)
  {
    hide Rounds, Useful, NoCalls;
    Reached(s, past);
    var r := Run(s, past);
    RemainingAtMost(r.threads);
    if NoCalls(r, schedule) {
      Bounded(r, schedule);
    }
    if Fair(orders, |s.threads|, 5 * |s.threads|) {
      Ends(r, orders);
      RoundsKeep(r, orders);
      var e := Rounds(r, orders);
      if |s.threads| > 0 {
        assert Fits(e, e.threads[0]);
      }
    }
  }
}
