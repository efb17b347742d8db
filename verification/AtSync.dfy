/** The semaphore protocol between the AT-command emulator and its report thread
    (gnss_atcmd_main.c), as steps of two program counters over one semaphore. */
module AtSync {

  datatype MainPc =
    | Opening                  // before atcmd_info is filled in
    | Posting                  // loop head, about to sem_post
    | Polling                  // poll and print_nmea, outside the section
    | Waiting                  // about to sem_wait
    | Executing                // the command section
    | Leaving(held: bool)      // loop left, about to post once more
    | Closing(surplus: int)    // _err: permits gained or lost on the way out

  datatype SubPc =
    | Starting                 // about to wait for the first permit
    | Arming                   // set_signal calls, reads atcmd_info
    | Aborted                  // a set_signal failed: returned without posting
    | Sleeping                 // sigwaitinfo
    | Requesting               // a report signal arrived, about to sem_wait
    | Printing                 // the report section, reads atcmd_info
    | Disarming                // _exit: reads atcmd_info once more
    | Ended

  datatype State = State(sem: nat, filled: bool, main: MainPc, sub: SubPc)

  ghost predicate Initial(s: State) {
    s == State(0, false, Opening, Starting)
  }

  // -------------------------------------------------------------- the steps

  ghost predicate MainStep(s: State, t: State) {
    t.sub == s.sub &&
    match s.main
    case Opening =>
      || (t.main == Posting && t.filled && t.sem == s.sem)
      || (t.main == Closing(-1) && t.filled == s.filled && t.sem == s.sem)    // an open failed
    case Posting =>
      t.main == Polling && t.filled == s.filled && t.sem == s.sem + 1
    case Polling =>
      (t.main == Waiting || t.main == Leaving(false)) && t.filled == s.filled && t.sem == s.sem
    case Waiting =>
      && t.filled == s.filled
      && (|| (s.sem > 0 && t.main == Executing && t.sem == s.sem - 1)
          || (t.main == Closing(0) && t.sem == s.sem))                        // sem_wait failed
    case Executing =>
      (t.main == Posting || t.main == Leaving(true)) && t.filled == s.filled && t.sem == s.sem
    case Leaving(held) =>
      t.main == Closing(if held then 0 else 1) && t.filled == s.filled && t.sem == s.sem + 1
    case Closing(_) => false
  }

  ghost predicate SubStep(s: State, t: State) {
    t.main == s.main && t.filled == s.filled &&
    match s.sub
    case Starting =>
      || (s.sem > 0 && t.sub == Arming && t.sem == s.sem - 1)
      || (t.sub == Ended && t.sem == s.sem)
    case Arming =>
      || (t.sub == Sleeping && t.sem == s.sem + 1)
      || (t.sub == Aborted && t.sem == s.sem)
    case Sleeping =>
      (t.sub == Requesting || t.sub == Disarming) && t.sem == s.sem
    case Requesting =>
      || (s.sem > 0 && t.sub == Printing && t.sem == s.sem - 1)
      || (t.sub == Disarming && t.sem == s.sem)
    case Printing =>
      t.sub == Sleeping && t.sem == s.sem + 1
    case Disarming =>
      t.sub == Ended && t.sem == s.sem
    case Aborted => false
    case Ended => false
  }

  ghost predicate Next(s: State, t: State) {
    s == t || MainStep(s, t) || SubStep(s, t)
  }

  /** A run: any interleaving of the two threads from the initial state. */
  ghost predicate Run(run: seq<State>) {
    && run != [] && Initial(run[0])
    && forall i :: 0 <= i < |run| - 1 ==> Next(run[i], run[i + 1])
  }

  // ---------------------------------------------------------- the invariant

  /** The emulator owns the permit before its first post and inside its section. */
  function MainHolds(m: MainPc): (n: nat) {
    match m
    case Opening => 1
    case Posting => 1
    case Executing => 1
    case Leaving(held) => if held then 1 else 0
    case _ => 0
  }

  function SubHolds(p: SubPc): (n: nat) {
    if p.Arming? || p.Printing? || p.Aborted? then 1 else 0
  }

  function Surplus(m: MainPc): (n: int) {
    if m.Closing? then m.surplus else 0
  }

  ghost predicate InLoop(m: MainPc) {
    m.Posting? || m.Polling? || m.Waiting? || m.Executing?
  }

  /** The sub thread is reading atcmd_info. */
  predicate ReadsInfo(p: SubPc) {
    p.Arming? || p.Printing? || p.Disarming?
  }

  /** Past its first permit, so atcmd_info has been filled in. */
  predicate Started(p: SubPc) {
    !p.Starting? && !p.Ended?
  }

  ghost predicate Balanced(s: State) {
    && s.sem + MainHolds(s.main) + SubHolds(s.sub) == 1 + Surplus(s.main)
    && (s.main.Closing? ==> -1 <= s.main.surplus <= 1)
    && (!s.main.Opening? && s.main != Closing(-1) ==> s.filled)
    && (Started(s.sub) ==> s.filled)
  }

  lemma BalancedStep(s: State, t: State)
    requires Balanced(s) && Next(s, t)
    ensures Balanced(t)
  {
  }

  lemma {:induction false} BalancedAlways(run: seq<State>, i: nat)
    requires Run(run) && i < |run|
    ensures Balanced(run[i])
  {
    if i > 0 {
      BalancedAlways(run, i - 1);
      BalancedStep(run[i - 1], run[i]);
    }
  }

  /** In every state of every run: the permit count, exclusion of the two sections,
      and no read of atcmd_info before it is filled in. */
  lemma Protocol(run: seq<State>, i: nat)
    requires Run(run) && i < |run|
    ensures var s := run[i];
            && (InLoop(s.main) ==> s.sem + MainHolds(s.main) + SubHolds(s.sub) == 1)
            && (s.main.Executing? ==> !s.sub.Arming? && !s.sub.Printing?)
            && (ReadsInfo(s.sub) ==> s.filled)
            && s.sem <= 2
            && (s.sem == 2 <==> s.main == Closing(1) && SubHolds(s.sub) == 0)
  {
    BalancedAlways(run, i);
  }

  /** The emulator is kept waiting only by a section of the sub thread, or for ever
      by one that aborted while holding the permit. */
  lemma WhoBlocks(run: seq<State>, i: nat)
    requires Run(run) && i < |run| && run[i].main.Waiting? && run[i].sem == 0
    ensures run[i].sub.Arming? || run[i].sub.Printing? || run[i].sub.Aborted?
  {
    BalancedAlways(run, i);
  }

  /** After the sub thread has aborted during set-up, no command executes any more. */
  lemma {:induction false} AbortSilences(run: seq<State>, i: nat, j: nat)
    requires Run(run) && i <= j < |run| && run[i].sub.Aborted?
    ensures run[j].sub.Aborted? && !run[j].main.Executing?
  {
    BalancedAlways(run, j);
    if i < j {
      AbortSilences(run, i, j - 1);
      assert Next(run[j - 1], run[j]);
    }
  }

  /** The extra post after a failed poll really gives a second permit. */
  lemma SurplusReachable() returns (run: seq<State>)
    ensures Run(run) && run[|run| - 1].sem == 2
  {
    run := [State(0, false, Opening, Starting), State(0, true, Posting, Starting),
            State(1, true, Polling, Starting), State(1, true, Leaving(false), Starting),
            State(2, true, Closing(1), Starting)];
    assert MainStep(run[0], run[1]) && MainStep(run[1], run[2]);
    assert MainStep(run[2], run[3]) && MainStep(run[3], run[4]);
  }

  lemma Extend(run: seq<State>, t: State) returns (longer: seq<State>)
    requires Run(run) && Next(run[|run| - 1], t)
    ensures Run(longer) && longer == run + [t]
  {
    longer := run + [t];
  }

  /** Both sections are entered: a command executes in some run. */
  lemma CommandReachable() returns (run: seq<State>)
    ensures Run(run) && run[|run| - 1] == State(0, true, Executing, Sleeping)
  {
    run := [State(0, false, Opening, Starting)];
    run := Extend(run, State(0, true, Posting, Starting));
    run := Extend(run, State(1, true, Polling, Starting));
    run := Extend(run, State(0, true, Polling, Arming));
    run := Extend(run, State(1, true, Polling, Sleeping));
    run := Extend(run, State(1, true, Waiting, Sleeping));
    run := Extend(run, State(0, true, Executing, Sleeping));
  }

  /** And it can be followed by a report. */
  lemma ReportReachable(before: seq<State>) returns (run: seq<State>)
    requires Run(before) && before[|before| - 1] == State(0, true, Executing, Sleeping)
    ensures Run(run) && before <= run && run[|run| - 1] == State(0, true, Polling, Printing)
  {
    run := Extend(before, State(0, true, Posting, Sleeping));
    run := Extend(run, State(1, true, Polling, Sleeping));
    run := Extend(run, State(1, true, Polling, Requesting));
    run := Extend(run, State(0, true, Polling, Printing));
  }
}
