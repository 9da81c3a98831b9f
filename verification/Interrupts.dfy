/** Interrupting an iteration over several corpora from another thread: the steps of both threads over the flag, the
    mutex, and the current iterator. */
module Interrupts {
  import opened Wrappers

  datatype Thread = Iterating | Interrupting

  datatype Operation = HasNext | Next

  /** Where the iterating thread is. */
  datatype Place =
    | Idle
    | Entered(op: Operation) // before the test of d_interrupted
    | Guard                  // before the guard of the loop in nextIterator
    | Locking                // before the lock in its body
    | ResettingIter          // before d_currentIter.reset()
    | ResettingReader        // before d_currentReader.reset()
    | Opening                // before a corpus is opened
    | Querying               // before its iterator is made and installed
    | InstallingReader       // before d_currentReader is set
    | InstallingName         // before d_currentName is set
    | Popping                // before d_iters.pop_front()
    | Unlocking
    | Answering              // behind the loop, before hasNext returns
    | Taking                 // before next takes an entry

  /** Where the interrupting thread is. */
  datatype Post = Out | FlagSet | Locked | Touched

  /** A call that has ended: whether it began with the flag set, and whether it raised the interruption. */
  datatype Call = Call(late: bool, raised: bool)

  /** The shared state. Corpora are numbered; current, reader and name say to which one each variable belongs. */
  datatype State = State(
    flag: bool,
    holder: Option<Thread>,
    iters: seq<nat>,
    current: Option<nat>,
    reader: Option<nat>,
    name: Option<nat>,
    place: Place,
    post: Post,
    late: bool, // whether the flag was set when the current call began
    openedLate: nat, // corpora opened, or tried, since the flag was set
    calls: seq<Call>)

  ghost predicate Init(s: State) {
    !s.flag && s.holder == None && s.current == None && s.reader == None && s.place == Idle && s.post == Out
    && s.openedLate == 0 && s.calls == []
  }

  /** A step of the iterating thread through hasNext, next, nextIterator and openTip. What asking an iterator for more
      and opening a corpus come to is left open. */
  ghost predicate IteratingStep(s: State, t: State) {
    match s.place
    case Idle => exists op :: t == s.(place := Entered(op), late := s.flag)
    case Entered(op) =>
      t == if s.flag then s.(place := Idle, calls := s.calls + [Call(s.late, true)])
           else s.(place := if op.HasNext? then Guard else Taking)
    case Guard =>
      || t == s.(place := Answering)
      || (s.iters != [] && !s.flag && t == s.(place := Locking))
    case Locking => s.holder == None && t == s.(holder := Some(Iterating), place := ResettingIter)
    case ResettingIter => t == s.(current := None, place := ResettingReader)
    case ResettingReader => t == s.(reader := None, place := Opening)
    case Opening =>
      var tried := s.(openedLate := if s.flag then s.openedLate + 1 else 0);
      t == tried.(place := Popping) || t == tried.(place := Querying)
    case Querying =>
      || t == s.(place := Popping)
      || (s.iters != [] && t == s.(current := Some(s.iters[0]), place := InstallingReader))
    case InstallingReader => t == s.(reader := s.current, place := InstallingName)
    case InstallingName => t == s.(name := s.current, place := Popping)
    case Popping => s.iters != [] && t == s.(iters := s.iters[1..], place := Unlocking)
    case Unlocking => t == s.(holder := None, place := Guard)
    case Answering => t == s.(place := Idle, calls := s.calls + [Call(s.late, false)])
    case Taking => t == s.(place := Idle, calls := s.calls + [Call(s.late, false)])
  }

  /** A step of the interrupting thread through interrupt, which may be called any number of times. */
  ghost predicate InterruptingStep(s: State, t: State) {
    match s.post
    case Out => t == s.(flag := true, post := FlagSet)
    case FlagSet => s.holder == None && t == s.(holder := Some(Interrupting), post := Locked)
    case Locked => t == s.(post := Touched)
    case Touched => t == s.(holder := None, post := Out)
  }

  ghost predicate Step(s: State, t: State) {
    IteratingStep(s, t) || InterruptingStep(s, t)
  }

  /** The current iterator is fully installed, or there is none. */
  ghost predicate Installed(s: State) {
    s.current == None || (s.reader == s.current && s.name == s.current)
  }

  /** Within the body of the loop, where the iterating thread holds the mutex. */
  predicate Critical(place: Place) {
    match place
    case ResettingIter | ResettingReader | Opening | Querying => true
    case InstallingReader | InstallingName | Popping | Unlocking => true
    case _ => false
  }

  /** On the way to opening a corpus. */
  predicate AboutToOpen(place: Place) {
    place.Locking? || place.ResettingIter? || place.ResettingReader? || place.Opening?
  }

  /** What every interleaving keeps. */
  ghost predicate Inv(s: State) {
    && (s.holder == Some(Iterating) <==> Critical(s.place))
    && (s.holder == Some(Interrupting) <==> s.post == Locked || s.post == Touched)
    && (s.post != Out ==> s.flag)
    && (s.place.ResettingReader? || s.place.Opening? || s.place.Querying? ==> s.current == None)
    && (s.place.InstallingReader? || s.place.InstallingName? ==> s.current.Some?)
    && (s.place.InstallingName? ==> s.reader == s.current)
    && (s.place.InstallingReader? || s.place.InstallingName? || Installed(s))
    && (AboutToOpen(s.place) || Critical(s.place) ==> s.iters != [] || s.place.Unlocking?)
    && s.openedLate + (if AboutToOpen(s.place) then 1 else 0) <= 1
    && (!s.flag ==> s.openedLate == 0)
    && (s.place.Entered? && s.late ==> s.flag)
    && (!s.place.Idle? && !s.place.Entered? ==> !s.late)
    && forall i :: 0 <= i < |s.calls| ==> (s.calls[i].late ==> s.calls[i].raised) && (s.calls[i].raised ==> s.flag)
  }

  lemma InitKeeps(s: State)
    requires Init(s)
    ensures Inv(s)
  {
  }

  lemma IteratingKeeps(s: State, t: State)
    requires Inv(s) && IteratingStep(s, t)
    ensures Inv(t) && (s.flag ==> t.flag)
  {
  }

  lemma InterruptingKeeps(s: State, t: State)
    requires Inv(s) && InterruptingStep(s, t)
    ensures Inv(t) && (s.flag ==> t.flag)
  {
  }

  /** A run: any interleaving of steps from the start. */
  ghost predicate Run(run: seq<State>) {
    run != [] && Init(run[0]) && forall i :: 0 <= i < |run| - 1 ==> Step(run[i], run[i + 1])
  }

  lemma {:induction false} RunKeeps(run: seq<State>, i: nat)
    requires Run(run) && i < |run|
    ensures Inv(run[i])
  {
    if i == 0 {
      InitKeeps(run[0]);
    } else {
      RunKeeps(run, i - 1);
      assert Step(run[i - 1], run[i - 1 + 1]);
      if IteratingStep(run[i - 1], run[i]) {
        IteratingKeeps(run[i - 1], run[i]);
      } else {
        InterruptingKeeps(run[i - 1], run[i]);
      }
    }
  }

  /** The interrupting thread, when it looks at the current iterator, finds it fully installed or finds none, and the
      iterating thread can neither replace nor destroy it until it lets go. */
  lemma TouchesInstalled(run: seq<State>, i: nat)
    requires Run(run) && i < |run| && (run[i].post == Locked || run[i].post == Touched)
    ensures Installed(run[i])
    ensures forall t :: IteratingStep(run[i], t) ==> t.current == run[i].current && t.reader == run[i].reader
  {
    RunKeeps(run, i);
  }

  /** The iterating thread has a step unless it waits for the mutex, */
  lemma IteratingMoves(s: State)
    requires Inv(s)
    ensures (exists t :: IteratingStep(s, t)) <==> !(s.place.Locking? && s.holder == Some(Interrupting))
  {
    SomeThread(s.holder);
    if !(s.place.Locking? && s.holder.Some?) {
      var t := SomeIteratingStep(s);
    }
  }

  lemma SomeThread(holder: Option<Thread>)
    ensures holder == None || holder == Some(Iterating) || holder == Some(Interrupting)
  {
    if holder.Some? {
      assert holder.value == Iterating || holder.value == Interrupting;
    }
  }

  /** A next step of the iterating thread. */
  lemma SomeIteratingStep(s: State) returns (t: State)
    requires Inv(s) && !(s.place.Locking? && s.holder.Some?)
    ensures IteratingStep(s, t)
  {
    match s.place
    case Idle => t := s.(place := Entered(HasNext), late := s.flag);
    case Entered(op) =>
      t := if s.flag then s.(place := Idle, calls := s.calls + [Call(s.late, true)])
           else s.(place := if op.HasNext? then Guard else Taking);
    case Guard => t := s.(place := Answering);
    case Locking => t := s.(holder := Some(Iterating), place := ResettingIter);
    case ResettingIter => t := s.(current := None, place := ResettingReader);
    case ResettingReader => t := s.(reader := None, place := Opening);
    case Opening => t := s.(openedLate := if s.flag then s.openedLate + 1 else 0, place := Popping);
    case Querying => t := s.(place := Popping);
    case InstallingReader => t := s.(reader := s.current, place := InstallingName);
    case InstallingName => t := s.(name := s.current, place := Popping);
    case Popping => t := s.(iters := s.iters[1..], place := Unlocking);
    case Unlocking => t := s.(holder := None, place := Guard);
    case Answering => t := s.(place := Idle, calls := s.calls + [Call(s.late, false)]);
    case Taking => t := s.(place := Idle, calls := s.calls + [Call(s.late, false)]);
  }

  /** and so has the interrupting thread. */
  lemma InterruptingMoves(s: State)
    requires Inv(s)
    ensures (exists t :: InterruptingStep(s, t)) <==> !(s.post.FlagSet? && s.holder == Some(Iterating))
  {
    SomeThread(s.holder);
    match s.post
    case Out => assert InterruptingStep(s, s.(flag := true, post := FlagSet));
    case FlagSet =>
      if s.holder == None {
        assert InterruptingStep(s, s.(holder := Some(Interrupting), post := Locked));
      }
    case Locked => assert InterruptingStep(s, s.(post := Touched));
    case Touched => assert InterruptingStep(s, s.(holder := None, post := Out));
  }

  /** In every state of a run, each thread has a step unless it waits for the mutex that the other one holds; the
      holder has one, so that they never wait for each other. */
  lemma NeverDeadlocked(run: seq<State>, i: nat)
    requires Run(run) && i < |run|
    ensures (exists t :: IteratingStep(run[i], t)) <==> !(run[i].place.Locking? && run[i].holder == Some(Interrupting))
    ensures (exists t :: InterruptingStep(run[i], t)) <==> !(run[i].post.FlagSet? && run[i].holder == Some(Iterating))
    ensures (exists t :: IteratingStep(run[i], t)) || exists t :: InterruptingStep(run[i], t)
  {
    RunKeeps(run, i);
    IteratingMoves(run[i]);
    InterruptingMoves(run[i]);
  }

  /** How many steps at most the holder of the mutex takes until it lets go. */
  function StepsToUnlock(s: State): nat {
    if s.holder == Some(Interrupting) then if s.post.Locked? then 2 else 1
    else match s.place
      case ResettingIter => 8
      case ResettingReader => 7
      case Opening => 6
      case Querying => 5
      case InstallingReader => 4
      case InstallingName => 3
      case Popping => 2
      case _ => 1
  }

  /** Whoever holds the mutex lets go of it after at most that many steps of its own; steps of the other thread leave
      their number as it is. */
  lemma HolderLetsGo(run: seq<State>, i: nat)
    requires Run(run) && i < |run| && run[i].holder.Some?
    ensures forall t :: IteratingStep(run[i], t) ==>
              if run[i].holder == Some(Iterating) then t.holder == None || StepsToUnlock(t) < StepsToUnlock(run[i])
              else t.holder == run[i].holder && StepsToUnlock(t) == StepsToUnlock(run[i])
    ensures forall t :: InterruptingStep(run[i], t) ==>
              if run[i].holder == Some(Interrupting) then t.holder == None || StepsToUnlock(t) < StepsToUnlock(run[i])
              else t.holder == run[i].holder && StepsToUnlock(t) == StepsToUnlock(run[i])
  {
    RunKeeps(run, i);
  }

  /** Once the flag is set, at most one more corpus is opened. */
  lemma OpensAtMostOneMore(run: seq<State>, i: nat)
    requires Run(run) && i < |run|
    ensures run[i].openedLate <= 1
  {
    RunKeeps(run, i);
  }

  /** The flag stays set. */
  lemma {:induction false} FlagStays(run: seq<State>, i: nat, j: nat)
    requires Run(run) && i <= j < |run| && run[i].flag
    ensures run[j].flag
  {
    if i == j {
    } else {
      FlagStays(run, i, j - 1);
      assert Step(run[j - 1], run[j - 1 + 1]);
    }
  }

  /** Every call that began after the flag was set has raised the interruption, and none has that ended before. */
  lemma LateCallsRaise(run: seq<State>, i: nat, k: nat)
    requires Run(run) && i < |run| && k < |run[i].calls|
    ensures run[i].calls[k].late ==> run[i].calls[k].raised
    ensures !run[i].flag ==> !run[i].calls[k].raised
  {
    RunKeeps(run, i);
  }
}
