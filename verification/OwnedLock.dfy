/**
  The owner-based critical section of ownedcs.cpp: threads that name the same owner
  share the section, threads with another owner queue on an auto-reset event.

  `OwnedCriticalSection` is the object itself, one method for each stretch of code that
  counts as one step. The publication at ownedcs.cpp:41-42 happens outside `threadLock`, so
  it is two methods, not one. `System` puts any number of threads on top of it and
  interleaves those stretches freely. A publication exchange can also fall inside another
  thread's locked stretch, between its test and its count; `ExchangeInsideEnter` and
  `NoExchangeInsideLeave` show that this gives nothing the free interleaving does not.
 */
module OwnedLock {

  const NO_OWNER: int := -1

  // A WORD, so never equal to NO_OWNER.
  type Owner = o: int | 0 <= o < 0x1_0000

  datatype Lock = Lock(nOwner: int, nRequests: int, nRecursiveCount: int, signalled: bool)

  // What the locked part of Enter decided: the caller is already inside, it has to wait
  // for the event, or it owns the section and has to publish itself.
  datatype Admission = Inside | MustWait | Admitted

  const UNLOCKED: Lock := Lock(NO_OWNER, -1, 0, false)

  function Admit(l: Lock, owner: Owner): (Lock, Admission) {
    if l.nOwner == owner then
      (l.(nRecursiveCount := l.nRecursiveCount + 1), Inside)
    else
      (l.(nRequests := l.nRequests + 1), if l.nRequests + 1 > 0 then MustWait else Admitted)
  }

  function Release(l: Lock, owner: Owner): Lock {
    if l.nOwner != owner then
      l.(nRecursiveCount := l.nRecursiveCount - 1)
    else if l.nRecursiveCount - 1 > 0 then
      l.(nRecursiveCount := l.nRecursiveCount - 1)
    else
      Lock(NO_OWNER, l.nRequests - 1, l.nRecursiveCount - 1, l.signalled || l.nRequests - 1 >= 0)
  }

  class OwnedCriticalSection {
    var nOwner: int
    var nRequests: int
    var nRecursiveCount: int
    var eventSet: bool

    function View(): Lock
      reads this
    {
      Lock(nOwner, nRequests, nRecursiveCount, eventSet)
    }

    constructor ()
      ensures View() == UNLOCKED
    {
      nOwner, nRequests, nRecursiveCount, eventSet := NO_OWNER, -1, 0, false;
    }

    // Enter, up to the point where threadLock is given back.
    method EnterLocked(owner: Owner) returns (admission: Admission)
      modifies this
      ensures (View(), admission) == Admit(old(View()), owner)
    {
      if nOwner == owner {
        nRecursiveCount := nRecursiveCount + 1;
        admission := Inside;
      } else {
        nRequests := nRequests + 1;
        if nRequests > 0 {
          admission := MustWait;
        } else {
          admission := Admitted;
        }
      }
    }

    // WaitForSingleObject returns: an auto-reset event clears itself.
    method EndWait()
      requires eventSet
      modifies this`eventSet
      ensures View() == old(View()).(signalled := false)
    {
      eventSet := false;
    }

    method PublishOwner(owner: Owner)
      modifies this`nOwner
      ensures View() == old(View()).(nOwner := owner)
    {
      nOwner := owner;
    }

    method PublishCount()
      modifies this`nRecursiveCount
      ensures View() == old(View()).(nRecursiveCount := 1)
    {
      nRecursiveCount := 1;
    }

    method Leave(owner: Owner)
      modifies this
      ensures View() == Release(old(View()), owner)
    {
      if nOwner == owner {
        nRecursiveCount := nRecursiveCount - 1;
        if nRecursiveCount <= 0 {
          nOwner := NO_OWNER;
          nRequests := nRequests - 1;
          if nRequests >= 0 {
            eventSet := true;
          }
        }
      } else {
        nRecursiveCount := nRecursiveCount - 1;
      }
    }
  }

  // ---------------------------------------------------------------- threads

  datatype Phase = Running | Waiting(owner: Owner) | Granted(owner: Owner) | Publishing(owner: Owner)

  // `held` is the stack of RAII locks the thread is inside (common.h:272-294).
  datatype Thread = Thread(phase: Phase, held: seq<Owner>)

  datatype System = System(lock: Lock, threads: seq<Thread>)

  datatype Step =
    | Enter(t: nat, owner: Owner)
    | Wake(t: nat)
    | SetOwner(t: nat)
    | SetCount(t: nat)
    | Leave(t: nat)

  predicate Enabled(s: System, step: Step) {
    step.t < |s.threads| &&
    var th := s.threads[step.t];
    match step
    case Enter(_, _) => th.phase.Running?
    case Wake(_) => th.phase.Waiting? && s.lock.signalled
    case SetOwner(_) => th.phase.Granted?
    case SetCount(_) => th.phase.Publishing?
    case Leave(_) => th.phase.Running? && th.held != []
  }

  function Next(s: System, step: Step): System
    requires Enabled(s, step)
  {
    var th := s.threads[step.t];
    match step
    case Enter(_, owner) =>
      var (lock, admission) := Admit(s.lock, owner);
      Put(lock, s.threads, step.t,
          match admission
          case Inside => th.(held := th.held + [owner])
          case MustWait => th.(phase := Waiting(owner))
          case Admitted => th.(phase := Granted(owner)))
    case Wake(_) => Put(s.lock.(signalled := false), s.threads, step.t, th.(phase := Granted(th.phase.owner)))
    case SetOwner(_) =>
      Put(s.lock.(nOwner := th.phase.owner), s.threads, step.t, th.(phase := Publishing(th.phase.owner)))
    case SetCount(_) =>
      Put(s.lock.(nRecursiveCount := 1), s.threads, step.t, Thread(Running, th.held + [th.phase.owner]))
    case Leave(_) =>
      Put(Release(s.lock, th.held[|th.held| - 1]), s.threads, step.t, th.(held := th.held[..|th.held| - 1]))
  }

  function Put(lock: Lock, threads: seq<Thread>, t: nat, th: Thread): System
    requires t < |threads|
  {
    System(lock, threads[t := th])
  }

  ghost predicate CanRun(s: System, steps: seq<Step>)
    decreases |steps|
  {
    steps == [] || (Enabled(s, steps[0]) && CanRun(Next(s, steps[0]), steps[1..]))
  }

  ghost function After(s: System, steps: seq<Step>): System
    requires CanRun(s, steps)
    decreases |steps|
  {
    if steps == [] then s else After(Next(s, steps[0]), steps[1..])
  }

  ghost function Start(n: nat): System {
    System(UNLOCKED, seq(n, _ => Thread(Running, [])))
  }

  // ---------------------------------------------------------------- counting threads

  datatype Tally = Waits | IsGranted | Publishes | Holds

  ghost function Count(th: Thread, what: Tally): nat {
    match what
    case Waits => One(th.phase.Waiting?)
    case IsGranted => One(th.phase.Granted?)
    case Publishes => One(th.phase.Publishing?)
    case Holds => |th.held|
  }

  ghost function One(b: bool): nat { if b then 1 else 0 }

  ghost function Total(threads: seq<Thread>, what: Tally): nat {
    if threads == [] then 0 else Count(threads[0], what) + Total(threads[1..], what)
  }

  lemma {:induction false} TotalAfterUpdate(threads: seq<Thread>, t: nat, th: Thread, what: Tally)
    requires t < |threads|
    ensures Total(threads[t := th], what) + Count(threads[t], what) == Total(threads, what) + Count(th, what)
  {
    if t > 0 {
      TotalAfterUpdate(threads[1..], t - 1, th, what);
      assert threads[t := th][1..] == threads[1..][t - 1 := th];
    } else {
      assert threads[t := th][1..] == threads[1..];
    }
  }

  lemma {:induction false} TotalBounds(threads: seq<Thread>, t: nat, what: Tally)
    requires t < |threads|
    ensures Count(threads[t], what) <= Total(threads, what)
  {
    if t > 0 {
      TotalBounds(threads[1..], t - 1, what);
    }
  }

  lemma {:induction false} TotalWitness(threads: seq<Thread>, what: Tally) returns (t: nat)
    requires Total(threads, what) > 0
    ensures t < |threads| && Count(threads[t], what) > 0
  {
    if Count(threads[0], what) > 0 {
      t := 0;
    } else {
      t := TotalWitness(threads[1..], what);
      t := t + 1;
    }
  }

  lemma NoneCounted(threads: seq<Thread>, what: Tally)
    requires Total(threads, what) == 0
    ensures forall t :: 0 <= t < |threads| ==> Count(threads[t], what) == 0
  {
    forall t | 0 <= t < |threads| ensures Count(threads[t], what) == 0 {
      TotalBounds(threads, t, what);
    }
  }

  ghost function Waiters(s: System): nat { Total(s.threads, Waits) }
  ghost function Grants(s: System): nat { Total(s.threads, IsGranted) }
  ghost function Publishers(s: System): nat { Total(s.threads, Publishes) }
  ghost function EntriesInside(s: System): nat { Total(s.threads, Holds) }

  lemma TotalsAfterPut(s: System, lock: Lock, t: nat, th: Thread)
    requires t < |s.threads|
    ensures var s' := Put(lock, s.threads, t, th);
            && Waiters(s') + One(s.threads[t].phase.Waiting?) == Waiters(s) + One(th.phase.Waiting?)
            && Grants(s') + One(s.threads[t].phase.Granted?) == Grants(s) + One(th.phase.Granted?)
            && Publishers(s') + One(s.threads[t].phase.Publishing?) == Publishers(s) + One(th.phase.Publishing?)
            && EntriesInside(s') + |s.threads[t].held| == EntriesInside(s) + |th.held|
    ensures One(s.threads[t].phase.Granted?) <= Grants(s) && One(s.threads[t].phase.Publishing?) <= Publishers(s)
    ensures |s.threads[t].held| <= EntriesInside(s)
  {
    TotalAfterUpdate(s.threads, t, th, Waits);
    TotalAfterUpdate(s.threads, t, th, IsGranted);
    TotalAfterUpdate(s.threads, t, th, Publishes);
    TotalAfterUpdate(s.threads, t, th, Holds);
    TotalBounds(s.threads, t, IsGranted);
    TotalBounds(s.threads, t, Publishes);
    TotalBounds(s.threads, t, Holds);
  }

  // ---------------------------------------------------------------- the invariant

  // Every entry inside, and every entry being published, belongs to the published owner.
  ghost predicate OneOwner(s: System) {
    EntriesOwned(s) && PublishersOwned(s)
  }

  ghost predicate EntriesOwned(s: System) {
    forall t, k :: 0 <= t < |s.threads| && 0 <= k < |s.threads[t].held| ==>
      s.threads[t].held[k] == s.lock.nOwner
  }

  ghost predicate PublishersOwned(s: System) {
    forall t :: 0 <= t < |s.threads| && s.threads[t].phase.Publishing? ==>
      s.threads[t].phase.owner == s.lock.nOwner
  }

  // nRequests + 1 tickets are out; while any is, exactly one of the event, a granted or
  // publishing thread, and the entries inside holds the token.
  ghost predicate Tickets(s: System) {
    var passed := Grants(s) + Publishers(s) + One(EntriesInside(s) > 0);
    && s.lock.nRequests + 1 == Waiters(s) + passed
    && One(s.lock.signalled) + passed == One(s.lock.nRequests + 1 > 0)
  }

  ghost predicate Inv(s: System) {
    && OneOwner(s)
    && Tickets(s)
    && s.lock.nRecursiveCount == EntriesInside(s)
    && (s.lock.nOwner == NO_OWNER <==> EntriesInside(s) + Publishers(s) == 0)
  }

  // A thread enters between another thread's two publication exchanges, with the owner
  // that has just been stored.
  ghost predicate EntersMidPublication(s: System, step: Step) {
    step.Enter? && exists p :: 0 <= p < |s.threads| && s.threads[p].phase == Publishing(step.owner)
  }

  lemma StartInv(n: nat)
    ensures Inv(Start(n))
  {
    var s := Start(n);
    if Waiters(s) > 0 { var t := TotalWitness(s.threads, Waits); }
    if Grants(s) > 0 { var t := TotalWitness(s.threads, IsGranted); }
    if Publishers(s) > 0 { var t := TotalWitness(s.threads, Publishes); }
    if EntriesInside(s) > 0 { var t := TotalWitness(s.threads, Holds); }
  }

  lemma StepTickets(s: System, step: Step)
    requires Inv(s) && Enabled(s, step) && !EntersMidPublication(s, step)
    ensures var s' := Next(s, step);
            && Tickets(s')
            && s'.lock.nRecursiveCount == EntriesInside(s')
            && (s'.lock.nOwner == NO_OWNER <==> EntriesInside(s') + Publishers(s') == 0)
            && (s'.lock.nOwner == s.lock.nOwner || EntriesInside(s') == 0)
            && (s'.lock.nOwner == s.lock.nOwner || EntriesInside(s) + Publishers(s) == 0 || s'.lock.nOwner == NO_OWNER)
  {
    var s' := Next(s, step);
    TotalsAfterPut(s, s'.lock, step.t, s'.threads[step.t]);
    if step.Enter? && s.lock.nOwner == step.owner && Publishers(s) > 0 {
      var p := TotalWitness(s.threads, Publishes);
    }
  }

  // The owner changes only while nobody is inside or publishing.
  lemma StepEntriesOwned(s: System, step: Step)
    requires EntriesOwned(s) && PublishersOwned(s) && Enabled(s, step)
    requires Next(s, step).lock.nOwner == s.lock.nOwner || EntriesInside(Next(s, step)) == 0
    ensures EntriesOwned(Next(s, step))
  {
    var s' := Next(s, step);
    if EntriesInside(s') == 0 {
      NoneCounted(s'.threads, Holds);
    }
  }

  lemma StepPublishersOwned(s: System, step: Step)
    requires PublishersOwned(s) && Enabled(s, step)
    requires Next(s, step).lock.nOwner == s.lock.nOwner || Publishers(s) == 0 || Publishers(Next(s, step)) == 0
    ensures PublishersOwned(Next(s, step))
  {
    var s' := Next(s, step);
    if Publishers(s) == 0 {
      NoneCounted(s.threads, Publishes);
    }
    if Publishers(s') == 0 {
      NoneCounted(s'.threads, Publishes);
    }
  }

  // An entry between two exchanges counts as an owner inside while its thread's publisher
  // still holds the token.
  lemma MidPublicationBreaks(s: System, step: Step)
    requires Inv(s) && Enabled(s, step) && EntersMidPublication(s, step)
    ensures !Tickets(Next(s, step))
  {
    var s' := Next(s, step);
    var p :| 0 <= p < |s.threads| && s.threads[p].phase == Publishing(step.owner);
    TotalBounds(s.threads, p, Publishes);
    TotalsAfterPut(s, s'.lock, step.t, s'.threads[step.t]);
  }

  /** A step from the invariant keeps the invariant, and the ticket equations in particular,
      exactly when it does not enter mid-publication. */
  lemma StepInv(s: System, step: Step)
    requires Inv(s) && Enabled(s, step)
    ensures Inv(Next(s, step)) <==> !EntersMidPublication(s, step)
    ensures Tickets(Next(s, step)) <==> !EntersMidPublication(s, step)
  {
    hide Tickets, EntriesOwned, PublishersOwned;
    if EntersMidPublication(s, step) {
      MidPublicationBreaks(s, step);
    } else {
      StepTickets(s, step);
      StepEntriesOwned(s, step);
      StepPublishersOwned(s, step);
    }
  }

  ghost predicate Undisturbed(s: System, steps: seq<Step>)
    requires CanRun(s, steps)
    decreases |steps|
  {
    steps == [] || (!EntersMidPublication(s, steps[0]) && Undisturbed(Next(s, steps[0]), steps[1..]))
  }

  // The invariant, or the ticket equations alone, in every state of a run.
  ghost predicate InvThroughout(s: System, steps: seq<Step>)
    requires CanRun(s, steps)
    decreases |steps|
  {
    Inv(s) && (steps == [] || InvThroughout(Next(s, steps[0]), steps[1..]))
  }

  ghost predicate TicketsThroughout(s: System, steps: seq<Step>)
    requires CanRun(s, steps)
    decreases |steps|
  {
    Tickets(s) && (steps == [] || TicketsThroughout(Next(s, steps[0]), steps[1..]))
  }

  /** Safety over whole runs, for any number of threads and any owners: the invariant holds in
      every state of a run, and tickets are conserved in every state of it, exactly when no
      thread enters mid-publication. */
  lemma {:induction false} RunInv(s: System, steps: seq<Step>)
    requires Inv(s) && CanRun(s, steps)
    ensures InvThroughout(s, steps) <==> Undisturbed(s, steps)
    ensures TicketsThroughout(s, steps) <==> Undisturbed(s, steps)
    ensures Undisturbed(s, steps) ==> Inv(After(s, steps))
    decreases |steps|
  {
    hide EntriesOwned, PublishersOwned, EntersMidPublication;
    if steps != [] {
      var s' := Next(s, steps[0]);
      StepInv(s, steps[0]);
      if Inv(s') {
        RunInv(s', steps[1..]);
      } else {
        FirstState(s', steps[1..]);
      }
    }
  }

  lemma FirstState(s: System, steps: seq<Step>)
    requires CanRun(s, steps)
    ensures InvThroughout(s, steps) ==> Inv(s)
    ensures TicketsThroughout(s, steps) ==> Tickets(s)
  {}

  /** What the section promises: one owner inside, counted exactly. The invariant behind it
      holds in every state of a run exactly when no thread enters mid-publication. */
  lemma MutualExclusion(n: nat, steps: seq<Step>)
    requires CanRun(Start(n), steps)
    ensures InvThroughout(Start(n), steps) <==> Undisturbed(Start(n), steps)
    ensures Undisturbed(Start(n), steps) ==>
              var s := After(Start(n), steps);
              && (forall t, u, k, j |
                    && 0 <= t < |s.threads| && 0 <= k < |s.threads[t].held|
                    && 0 <= u < |s.threads| && 0 <= j < |s.threads[u].held| ::
                    s.threads[t].held[k] == s.threads[u].held[j] == s.lock.nOwner)
              && s.lock.nRecursiveCount == EntriesInside(s)
              && (s.lock.nOwner == NO_OWNER <==> EntriesInside(s) + Publishers(s) == 0)
  {
    StartInv(n);
    RunInv(Start(n), steps);
  }

  /** Tickets are conserved and no wakeup is lost: while anybody waits, the token is somewhere.
      This too holds in every state of a run exactly when no thread enters mid-publication. */
  lemma NoLostWakeup(n: nat, steps: seq<Step>)
    requires CanRun(Start(n), steps)
    ensures TicketsThroughout(Start(n), steps) <==> Undisturbed(Start(n), steps)
    ensures Undisturbed(Start(n), steps) ==>
              var s := After(Start(n), steps);
              && s.lock.nRequests + 1 ==
                 Waiters(s) + Grants(s) + Publishers(s) + One(EntriesInside(s) > 0)
              && (s.lock.nRequests >= 0 ==>
                    One(s.lock.signalled) + Grants(s) + Publishers(s) + One(EntriesInside(s) > 0) == 1)
  {
    StartInv(n);
    RunInv(Start(n), steps);
  }

  /** A leaving thread never takes the mismatched-owner branch (ownedcs.cpp:58-59), and
      SetEvent is only called on an event that is not set. */
  lemma LeaveMatchesOwner(s: System, t: nat)
    requires Inv(s) && Enabled(s, Leave(t))
    ensures var held := s.threads[t].held; held[|held| - 1] == s.lock.nOwner
    ensures Next(s, Leave(t)).lock.signalled ==> !s.lock.signalled
  {
    TotalBounds(s.threads, t, Holds);
  }

  // ---------------------------------------------------------------- exchanges inside a locked stretch

  // The two halves of the locked part of Enter: the test, and the count it leads to.
  function Test(l: Lock, owner: Owner): bool {
    l.nOwner == owner
  }

  function CountAfter(l: Lock, inside: bool): (Lock, Admission) {
    if inside then (l.(nRecursiveCount := l.nRecursiveCount + 1), Inside)
    else (l.(nRequests := l.nRequests + 1), if l.nRequests + 1 > 0 then MustWait else Admitted)
  }

  /** An exchange that falls between the test and the count of an entering thread has the effect
      of one before or after the whole entry: after it, if the test failed; before it, if the
      test succeeded and the count is stored. The owner cannot be stored after a test that
      succeeded, because nobody owns the section while a thread is about to own it. */
  lemma ExchangeInsideEnter(s: System, owner: Owner, stored: Owner)
    requires Inv(s)
    ensures var l := s.lock;
            && Admit(l, owner) == CountAfter(l, Test(l, owner))
            && (!Test(l, owner) ==>
                  CountAfter(l.(nOwner := stored), false) ==
                  (Admit(l, owner).0.(nOwner := stored), Admit(l, owner).1))
            && (!Test(l, owner) ==>
                  CountAfter(l.(nRecursiveCount := 1), false) ==
                  (Admit(l, owner).0.(nRecursiveCount := 1), Admit(l, owner).1))
            && (Test(l, owner) ==>
                  CountAfter(l.(nRecursiveCount := 1), true) == Admit(l.(nRecursiveCount := 1), owner))
            && (Test(l, owner) ==> Grants(s) == 0)
  {}

  /** No exchange falls into the locked part of Leave: while an entry is inside, no thread is
      about to publish itself. */
  lemma NoExchangeInsideLeave(s: System, t: nat)
    requires Inv(s) && Enabled(s, Leave(t))
    ensures Grants(s) == 0 && Publishers(s) == 0
  {
    TotalBounds(s.threads, t, Holds);
  }

  // ---------------------------------------------------------------- the owners a thread names

  // The owners a thread has named and not yet left, innermost last; from the steps alone.
  function Named(steps: seq<Step>, t: nat): seq<Owner>
    decreases |steps|
  {
    if steps == [] then []
    else
      var before := Named(steps[..|steps| - 1], t);
      match steps[|steps| - 1]
      case Enter(u, owner) => if u == t then before + [owner] else before
      case Leave(u) => if u == t && before != [] then before[..|before| - 1] else before
      case _ => before
  }

  // The owners a thread is inside for, and the one it is on its way in for.
  function Claims(th: Thread): seq<Owner> {
    th.held + if th.phase.Running? then [] else [th.phase.owner]
  }

  lemma {:induction false} AfterLast(s: System, steps: seq<Step>)
    requires CanRun(s, steps) && steps != []
    ensures var front, last := steps[..|steps| - 1], steps[|steps| - 1];
            && CanRun(s, front) && Enabled(After(s, front), last)
            && After(s, steps) == Next(After(s, front), last)
    decreases |steps|
  {
    if |steps| > 1 {
      AfterLast(Next(s, steps[0]), steps[1..]);
      assert steps[..|steps| - 1][1..] == steps[1..][..|steps| - 2];
    }
  }

  lemma NextClaims(s: System, step: Step)
    requires Enabled(s, step)
    ensures var s' := Next(s, step);
            && |s'.threads| == |s.threads|
            && forall t :: 0 <= t < |s.threads| ==>
                 Claims(s'.threads[t]) ==
                 if step.t != t then Claims(s.threads[t])
                 else match step
                   case Enter(_, owner) => Claims(s.threads[t]) + [owner]
                   case Leave(_) => Claims(s.threads[t])[..|Claims(s.threads[t])| - 1]
                   case _ => Claims(s.threads[t])
  {}

  /** In every run every thread is inside, or on its way in, for exactly the owners it has named
      and not yet left, in that order; whatever the others do. */
  lemma {:induction false} ClaimsAreNamed(n: nat, steps: seq<Step>, t: nat)
    requires CanRun(Start(n), steps) && t < n
    ensures |After(Start(n), steps).threads| == n
    ensures Claims(After(Start(n), steps).threads[t]) == Named(steps, t)
    decreases |steps|
  {
    hide Next, Enabled, Claims;
    if steps == [] {
      StartClaims(n, t);
    } else {
      var front, last := steps[..|steps| - 1], steps[|steps| - 1];
      AfterLast(Start(n), steps);
      ClaimsAreNamed(n, front, t);
      NextClaims(After(Start(n), front), last);
      if last.Leave? && last.t == t {
        LeaverClaims(After(Start(n), front), t);
      }
    }
  }

  lemma StartClaims(n: nat, t: nat)
    requires t < n
    ensures |Start(n).threads| == n && Claims(Start(n).threads[t]) == []
  {}

  lemma LeaverClaims(s: System, t: nat)
    requires Enabled(s, Leave(t))
    ensures Claims(s.threads[t]) != []
  {}

  /** So the owner that is published is the one that the publishing thread has named last. */
  lemma PublishesWhatItNamed(n: nat, steps: seq<Step>, t: nat)
    requires CanRun(Start(n), steps) && t < n && Enabled(After(Start(n), steps), SetOwner(t))
    ensures var named := Named(steps, t);
            named != [] && Next(After(Start(n), steps), SetOwner(t)).lock.nOwner == named[|named| - 1]
  {
    hide Named;
    ClaimsAreNamed(n, steps, t);
  }

  // ---------------------------------------------------------------- the publication window

  /** The two publication exchanges are not one step. When a thread enters between them, the
      count that is then stored misses it exactly when it names the owner just published. */
  lemma EntryMidPublication(s: System, p: nat, t: nat, owner: Owner)
    requires Inv(s) && p < |s.threads| && s.threads[p].phase.Publishing?
    requires Enabled(s, Enter(t, owner))
    ensures Enabled(Next(s, Enter(t, owner)), SetCount(p))
    ensures var s2 := Next(Next(s, Enter(t, owner)), SetCount(p));
            s2.lock.nRecursiveCount == EntriesInside(s2) <==> owner != s.threads[p].phase.owner
  {
    var s1 := Next(s, Enter(t, owner));
    var s2 := Next(s1, SetCount(p));
    TotalsAfterPut(s, s1.lock, t, s1.threads[t]);
    TotalsAfterPut(s1, s2.lock, p, s2.threads[p]);
  }

  // A run in which thread 1 slips into thread 0's publication and leaves again.
  const OVERTAKEN: seq<Step> := [
    Enter(0, 1), SetOwner(0), Enter(1, 1), SetCount(0), Leave(1),
    Enter(2, 2), SetOwner(2), SetCount(2)]

  ghost function Trio(lock: Lock, a: Thread, b: Thread, c: Thread): System {
    System(lock, [a, b, c])
  }

  const IDLE: Thread := Thread(Running, [])

  lemma Overtake()
    ensures CanRun(Start(3), OVERTAKEN[..5]) && !Undisturbed(Start(3), OVERTAKEN[..5])
    ensures After(Start(3), OVERTAKEN[..5]) == Trio(Lock(-1, -1, 0, false), Thread(Running, [1]), IDLE, IDLE)
  {
    var steps := OVERTAKEN[..5];
    var none: seq<Owner> := [];
    assert none + [1] == [1];
    assert Start(3).threads == [IDLE, IDLE, IDLE];
    var s1 := Trio(Lock(-1, 0, 0, false), Thread(Granted(1), none), IDLE, IDLE);
    var s2 := Trio(Lock(1, 0, 0, false), Thread(Publishing(1), none), IDLE, IDLE);
    var s3 := Trio(Lock(1, 0, 1, false), Thread(Publishing(1), none), Thread(Running, [1]), IDLE);
    var s4 := Trio(Lock(1, 0, 1, false), Thread(Running, [1]), Thread(Running, [1]), IDLE);
    var s5 := Trio(Lock(-1, -1, 0, false), Thread(Running, [1]), IDLE, IDLE);
    RunStep(s4, s5, steps, 4);
    RunStep(s3, s4, steps, 3);
    RunStep(s2, s3, steps, 2);
    assert s2.threads[0].phase == Publishing(1);
    RunStep(s1, s2, steps, 1);
    RunStep(Start(3), s1, steps, 0);
    assert steps[0..] == steps;
  }

  lemma EnterSecond()
    ensures var s := Trio(Lock(-1, -1, 0, false), Thread(Running, [1]), IDLE, IDLE);
            CanRun(s, OVERTAKEN[5..]) &&
            After(s, OVERTAKEN[5..]).threads == [Thread(Running, [1]), IDLE, Thread(Running, [2])]
  {
    var none: seq<Owner> := [];
    assert none + [2] == [2];
    var s5 := Trio(Lock(-1, -1, 0, false), Thread(Running, [1]), IDLE, IDLE);
    var s6 := Trio(Lock(-1, 0, 0, false), Thread(Running, [1]), IDLE, Thread(Granted(2), none));
    var s7 := Trio(Lock(2, 0, 0, false), Thread(Running, [1]), IDLE, Thread(Publishing(2), none));
    var s8 := Trio(Lock(2, 0, 1, false), Thread(Running, [1]), IDLE, Thread(Running, [2]));
    RunStep(s7, s8, OVERTAKEN, 7);
    RunStep(s6, s7, OVERTAKEN, 6);
    RunStep(s5, s6, OVERTAKEN, 5);
  }

  /** That run ends with owners 1 and 2 inside at the same time. */
  lemma OvertakenBreaksExclusion()
    ensures CanRun(Start(3), OVERTAKEN) && !Undisturbed(Start(3), OVERTAKEN)
    ensures After(Start(3), OVERTAKEN).threads ==
            [Thread(Running, [1]), Thread(Running, []), Thread(Running, [2])]
  {
    Overtake();
    EnterSecond();
    assert OVERTAKEN == OVERTAKEN[..5] + OVERTAKEN[5..];
    RunConcat(Start(3), OVERTAKEN[..5], OVERTAKEN[5..]);
  }

  lemma {:induction false} RunConcat(s: System, a: seq<Step>, b: seq<Step>)
    requires CanRun(s, a) && CanRun(After(s, a), b)
    ensures CanRun(s, a + b) && After(s, a + b) == After(After(s, a), b)
    ensures Undisturbed(s, a + b) ==> Undisturbed(s, a)
    decreases |a|
  {
    if a == [] {
      assert a + b == b;
    } else {
      assert (a + b)[1..] == a[1..] + b;
      RunConcat(Next(s, a[0]), a[1..], b);
    }
  }

  lemma RunStep(s: System, s': System, steps: seq<Step>, i: nat)
    requires i < |steps| && Enabled(s, steps[i]) && Next(s, steps[i]) == s'
    requires CanRun(s', steps[i + 1..])
    ensures CanRun(s, steps[i..]) && After(s, steps[i..]) == After(s', steps[i + 1..])
    ensures Undisturbed(s, steps[i..]) <==>
            !EntersMidPublication(s, steps[i]) && Undisturbed(s', steps[i + 1..])
  {
    assert steps[i..][0] == steps[i] && steps[i..][1..] == steps[i + 1..];
  }

  // ---------------------------------------------------------------- what an entry in the window leads to

  ghost predicate TwoOwners(s: System) {
    exists t, u, k, j ::
      && 0 <= t < |s.threads| && 0 <= k < |s.threads[t].held|
      && 0 <= u < |s.threads| && 0 <= j < |s.threads[u].held|
      && s.threads[t].held[k] != s.threads[u].held[j]
  }

  // Thread p is inside for `owner`, but the section takes itself for free.
  ghost predicate Orphan(s: System, p: nat, t: nat, owner: Owner) {
    && p < |s.threads| && t < |s.threads| && p != t
    && s.threads[p].phase.Running? && s.threads[p].held != [] && s.threads[p].held[0] == owner
    && s.threads[t].phase.Running?
    && s.lock.nOwner == NO_OWNER && s.lock.nRecursiveCount == 0
    && s.lock.nRequests + 1 == Waiters(s)
    && (s.lock.signalled <==> Waiters(s) > 0)
  }

  lemma Then(s: System, step: Step, rest: seq<Step>)
    requires Enabled(s, step) && CanRun(Next(s, step), rest)
    ensures CanRun(s, [step] + rest) && After(s, [step] + rest) == After(Next(s, step), rest)
  {
    assert ([step] + rest)[1..] == rest;
  }

  // A thread comes in as if nobody were inside.
  lemma ComesIn(s: System, t: nat, owner: Owner)
    requires t < |s.threads| && s.threads[t].phase == Granted(owner)
    ensures var s' := System(s.lock.(nOwner := owner, nRecursiveCount := 1),
                             s.threads[t := Thread(Running, s.threads[t].held + [owner])]);
            && CanRun(s, [SetOwner(t), SetCount(t)])
            && After(s, [SetOwner(t), SetCount(t)]) == s'
  {
    var s1 := Next(s, SetOwner(t));
    var s2 := Next(s1, SetCount(t));
    Then(s1, SetCount(t), []);
    Then(s, SetOwner(t), [SetCount(t)]);
    assert [SetOwner(t)] + [SetCount(t)] == [SetOwner(t), SetCount(t)];
    assert [SetCount(t)] + [] == [SetCount(t)];
    assert s2.threads == s.threads[t := Thread(Running, s.threads[t].held + [owner])];
  }

  lemma Differ(s: System, p: nat, t: nat)
    requires p < |s.threads| && t < |s.threads| && s.threads[p].held != [] && s.threads[t].held != []
    requires s.threads[p].held[0] != s.threads[t].held[|s.threads[t].held| - 1]
    ensures TwoOwners(s)
  {}

  /** From there the waiters come in one by one, and then any other thread, until one of them
      has another owner than p. */
  lemma {:induction false} OrphanLeadsToTwo(s: System, p: nat, t: nat, owner: Owner) returns (steps: seq<Step>)
    requires Orphan(s, p, t, owner)
    ensures CanRun(s, steps) && TwoOwners(After(s, steps))
    decreases Waiters(s)
  {
    hide TwoOwners;
    if Waiters(s) == 0 {
      var other: Owner := if owner == 0 then 1 else 0;
      var s1 := Next(s, Enter(t, other));
      ComesIn(s1, t, other);
      steps := [Enter(t, other)] + [SetOwner(t), SetCount(t)];
      Then(s, Enter(t, other), [SetOwner(t), SetCount(t)]);
      Differ(After(s, steps), p, t);
    } else {
      var w := TotalWitness(s.threads, Waits);
      var o := s.threads[w].phase.owner;
      var s1 := Next(s, Wake(w));
      ComesIn(s1, w, o);
      var three := [Wake(w)] + [SetOwner(w), SetCount(w)];
      Then(s, Wake(w), [SetOwner(w), SetCount(w)]);
      var s3 := After(s, three);
      if o != owner {
        steps := three;
        Differ(s3, p, w);
      } else {
        var s4 := Next(s3, Leave(w));
        AfterOneWaiter(s, s4, w, owner);
        var rest := OrphanLeadsToTwo(s4, p, t, owner);
        Then(s3, Leave(w), rest);
        steps := three + ([Leave(w)] + rest);
        RunConcat(s, three, [Leave(w)] + rest);
      }
    }
  }

  // A waiter of the same owner that comes in and leaves takes one ticket with it.
  lemma AfterOneWaiter(s: System, s4: System, w: nat, owner: Owner)
    requires w < |s.threads| && s.threads[w].phase == Waiting(owner)
    requires s.lock.nRequests + 1 == Waiters(s)
    requires s4.lock == Lock(NO_OWNER, s.lock.nRequests - 1, 0, s.lock.nRequests - 1 >= 0)
    requires s4.threads == s.threads[w := Thread(Running, s.threads[w].held)]
    ensures s4.lock.nRequests + 1 == Waiters(s4)
    ensures s4.lock.signalled <==> Waiters(s4) > 0
  {
    TotalAfterUpdate(s.threads, w, s4.threads[w], Waits);
  }

  /** Every entry mid-publication can be followed by steps that bring two owners inside: the
      count is stored, the thread leaves again, and the section is free with p still inside. */
  lemma MidPublicationLeadsToTwo(s: System, t: nat, p: nat, owner: Owner) returns (more: seq<Step>)
    requires Inv(s) && Enabled(s, Enter(t, owner))
    requires p < |s.threads| && s.threads[p].phase == Publishing(owner)
    ensures CanRun(Next(s, Enter(t, owner)), more) && TwoOwners(After(Next(s, Enter(t, owner)), more))
  {
    hide TwoOwners;
    var s1 := Next(s, Enter(t, owner));
    var s2 := Next(s1, SetCount(p));
    var s3 := Next(s2, Leave(t));
    WindowToOrphan(s, t, p, owner);
    var rest := OrphanLeadsToTwo(s3, p, t, owner);
    Then(s2, Leave(t), rest);
    Then(s1, SetCount(p), [Leave(t)] + rest);
    more := [SetCount(p)] + ([Leave(t)] + rest);
  }

  lemma WindowToOrphan(s: System, t: nat, p: nat, owner: Owner)
    requires Inv(s) && Enabled(s, Enter(t, owner))
    requires p < |s.threads| && s.threads[p].phase == Publishing(owner)
    ensures var s1 := Next(s, Enter(t, owner));
            && Enabled(s1, SetCount(p))
            && Enabled(Next(s1, SetCount(p)), Leave(t))
            && Orphan(Next(Next(s1, SetCount(p)), Leave(t)), p, t, owner)
  {
    TotalBounds(s.threads, p, Publishes);
    TotalBounds(s.threads, p, Holds);
    TotalBounds(s.threads, t, Holds);
    var s1 := Next(s, Enter(t, owner));
    var s2 := Next(s1, SetCount(p));
    var s3 := Next(s2, Leave(t));
    TotalAfterUpdate(s.threads, t, s1.threads[t], Waits);
    TotalAfterUpdate(s1.threads, p, s2.threads[p], Waits);
    TotalAfterUpdate(s2.threads, t, s3.threads[t], Waits);
  }

  /** So exclusion is not only unproved but lost: a run that has an entry mid-publication can be
      continued from there to two owners inside. */
  lemma {:induction false} DisturbedRunBreaks(s: System, steps: seq<Step>) returns (n: nat, more: seq<Step>)
    requires Inv(s) && CanRun(s, steps) && !Undisturbed(s, steps)
    ensures 0 < n <= |steps| && CanRun(s, steps[..n] + more) && TwoOwners(After(s, steps[..n] + more))
    decreases |steps|
  {
    hide TwoOwners, Inv;
    var s' := Next(s, steps[0]);
    if EntersMidPublication(s, steps[0]) {
      var p :| 0 <= p < |s.threads| && s.threads[p].phase == Publishing(steps[0].owner);
      more := MidPublicationLeadsToTwo(s, steps[0].t, p, steps[0].owner);
      n := 1;
      Then(s, steps[0], more);
      assert steps[..1] == [steps[0]];
    } else {
      StepInv(s, steps[0]);
      var k;
      k, more := DisturbedRunBreaks(s', steps[1..]);
      n := k + 1;
      Then(s, steps[0], steps[1..][..k] + more);
      assert steps[..n] + more == [steps[0]] + (steps[1..][..k] + more);
    }
  }

  // ---------------------------------------------------------------- progress

  ghost predicate Blocked(s: System) {
    forall step :: Enabled(s, step) ==> step.Enter?
  }

  /** Once somebody waits, the section can only stall in one way: every thread that is
      inside is itself waiting for the section under another owner. */
  lemma StallsOnlyOnItself(s: System)
    requires Inv(s) && Waiters(s) > 0
    ensures Blocked(s) <==>
            EntriesInside(s) > 0 &&
            forall t :: 0 <= t < |s.threads| && s.threads[t].held != [] ==> s.threads[t].phase.Waiting?
  {
    if Grants(s) > 0 {
      var t := TotalWitness(s.threads, IsGranted);
      assert Enabled(s, SetOwner(t));
    } else if Publishers(s) > 0 {
      var t := TotalWitness(s.threads, Publishes);
      assert Enabled(s, SetCount(t));
    } else if s.lock.signalled {
      var t := TotalWitness(s.threads, Waits);
      assert Enabled(s, Wake(t));
    } else {
      NoneCounted(s.threads, IsGranted);
      NoneCounted(s.threads, Publishes);
      assert forall t :: 0 <= t < |s.threads| && s.threads[t].held != [] && !s.threads[t].phase.Waiting? ==>
          Enabled(s, Leave(t));
    }
  }

  // No thread asks for a second owner while it is inside: then nobody waits holding an entry.
  ghost predicate Flat(s: System) {
    forall t :: 0 <= t < |s.threads| && !s.threads[t].phase.Running? ==> s.threads[t].held == []
  }

  ghost predicate EntersFlat(s: System, step: Step)
    requires Enabled(s, step)
  {
    step.Enter? ==> var held := s.threads[step.t].held; held == [] || held[|held| - 1] == step.owner
  }

  lemma StepFlat(s: System, step: Step)
    requires Inv(s) && Flat(s) && Enabled(s, step) && EntersFlat(s, step)
    ensures Flat(Next(s, step))
  {
  }

  // The number of steps the threads now in the section still need to be out of it.
  ghost function Work(s: System): nat {
    4 * Waiters(s) + 3 * Grants(s) + 2 * Publishers(s) + EntriesInside(s)
  }

  /** With no new entries, every run of a flat system is at most Work steps long, and when no
      step is left the section is back in the state InitializeOwnedCritialSection gave it. */
  lemma {:induction false} Drains(s: System, steps: seq<Step>)
    requires Inv(s) && Flat(s) && CanRun(s, steps)
    requires forall i :: 0 <= i < |steps| ==> !steps[i].Enter?
    ensures |steps| + Work(After(s, steps)) == Work(s)
    ensures Blocked(After(s, steps)) ==> Work(After(s, steps)) == 0 && After(s, steps).lock == UNLOCKED
    decreases |steps|
  {
    if steps == [] {
      if Blocked(s) {
        BlockedIsUnlocked(s);
      }
    } else {
      var s' := Next(s, steps[0]);
      TotalsAfterPut(s, s'.lock, steps[0].t, s'.threads[steps[0].t]);
      StepInv(s, steps[0]);
      StepFlat(s, steps[0]);
      Drains(s', steps[1..]);
    }
  }

  lemma BlockedIsUnlocked(s: System)
    requires Inv(s) && Flat(s) && Blocked(s)
    ensures Work(s) == 0 && s.lock == UNLOCKED
  {
    if Waiters(s) > 0 {
      StallsOnlyOnItself(s);
      var t := TotalWitness(s.threads, Holds);
      assert false;
    }
    if Grants(s) > 0 {
      var t := TotalWitness(s.threads, IsGranted);
      assert Enabled(s, SetOwner(t));
    }
    if Publishers(s) > 0 {
      var t := TotalWitness(s.threads, Publishes);
      assert Enabled(s, SetCount(t));
    }
    if EntriesInside(s) > 0 {
      var t := TotalWitness(s.threads, Holds);
      assert Enabled(s, Leave(t));
    }
  }
}
