/** The lifetime of a mapped table file: readers that acquire and release it and one close,
    interleaved at every atomic access. */
module Refcount {
  import opened Base

  /** Inside the close of the mapping: about to look for a region, having seen one, having loaded
      it to hand it to munmap, having unmapped it, and back. */
  datatype Stage = Entered | Checked | Loaded | Unmapped | Returned

  /** Where a reader stands: not begun, holding its reference, in Release after the decrement,
      having seen the closed flag, the zero count, the file, closing the mapping, and done. */
  datatype ReaderPc = Idle | Holding | Decremented | SawClosed | SawZero | SawFile | Closing(stage: Stage) | Finished

  /** Where the close stands: not begun, past the first flag check, flag set, file seen, zero
      count seen, closing the mapping, and done. */
  datatype CloserPc =
    | NotBegun | FlagClear | FlagSet | CloserSawFile | CloserSawZero | CloserClosing(stage: Stage) | Closed

  /** file: the mapping is still referenced by the table; region: the mapping still holds its
      region; unmaps: how often munmap was called on the region. */
  datatype State = State(
    closed: bool, refs: int, file: bool, region: bool, unmaps: nat,
    readers: seq<ReaderPc>, closer: CloserPc, panicked: bool)

  datatype Event = ReaderStep(i: nat) | CloserStep

  function Start(n: nat): State {
    State(false, 0, true, true, 0, seq(n, _ => Idle), NotBegun, false)
  }

  /** One access inside the close of the mapping. A missing region is not unmapped. */
  function StageAfter(s: State, stage: Stage): Stage {
    match stage
    case Entered => if s.region then Checked else Returned
    case Checked => if s.region then Loaded else Returned
    case Loaded => Unmapped
    case Unmapped => Returned
    case Returned => Returned
  }

  function RegionAfter(s: State, stage: Stage): State {
    match stage
    case Loaded => s.(unmaps := s.unmaps + 1)
    case Unmapped => s.(region := false)
    case _ => s
  }

  /** Closing a nil file, or a count below zero, panics. */
  predicate Panics(s: State, pc: ReaderPc) {
    (pc.Holding? && s.refs - 1 < 0) || (pc.SawFile? && !s.file)
  }

  /** What an access of a reader does to the shared state. */
  function Effect(s: State, pc: ReaderPc): State {
    match pc
    case Idle => s.(refs := s.refs + 1)
    case Holding => s.(refs := s.refs - 1)
    case Closing(stage) => if stage.Returned? then s.(file := false) else RegionAfter(s, stage)
    case _ => s
  }

  /** Where it leaves the reader. */
  function PcAfter(s: State, pc: ReaderPc): ReaderPc {
    match pc
    case Idle => Holding
    case Holding => Decremented
    case Decremented => if s.closed then SawClosed else Finished
    case SawClosed => if s.refs == 0 then SawZero else Finished
    case SawZero => if s.file then SawFile else Finished
    case SawFile => Closing(Entered)
    case Closing(stage) => if stage.Returned? then Finished else Closing(StageAfter(s, stage))
    case Finished => Finished
  }

  /** One atomic access of a reader. */
  function ReaderMove(s: State, i: nat): State
    requires i < |s.readers|
  {
    var pc := s.readers[i];
    if Panics(s, pc) then s.(panicked := true)
    else Effect(s, pc).(readers := s.readers[i := PcAfter(s, pc)])
  }

  function CloserMove(s: State): State {
    match s.closer
    case NotBegun => s.(closer := if s.closed then Closed else FlagClear)
    case FlagClear => s.(closed := true, closer := FlagSet)
    case FlagSet => s.(closer := if s.file then CloserSawFile else Closed)
    case CloserSawFile => s.(closer := if s.refs > 0 then Closed else CloserSawZero)
    case CloserSawZero => if s.file then s.(closer := CloserClosing(Entered)) else s.(panicked := true)
    case CloserClosing(Returned) => s.(closer := Closed)
    case CloserClosing(stage) => RegionAfter(s, stage).(closer := CloserClosing(StageAfter(s, stage)))
    case Closed => s
  }

  function Step(s: State, e: Event): State {
    if s.panicked then s
    else
      match e
      case ReaderStep(i) => if i < |s.readers| then ReaderMove(s, i) else s
      case CloserStep => CloserMove(s)
  }

  /** A reader acquires only while the flag is clear. */
  predicate Allowed(s: State, e: Event) {
    e.ReaderStep? && e.i < |s.readers| && s.readers[e.i].Idle? ==> !s.closed
  }

  predicate AllowedRun(s: State, es: seq<Event>)
    decreases |es|
  {
    es == [] || (Allowed(s, es[0]) && AllowedRun(Step(s, es[0]), es[1..]))
  }

  function Run(s: State, es: seq<Event>): State
    decreases |es|
  {
    if es == [] then s else Run(Step(s, es[0]), es[1..])
  }

  // ------------------------------------------------------------------ the invariant

  function Holders(readers: seq<ReaderPc>): nat {
    if readers == [] then 0 else Holders(readers[..|readers| - 1]) + if readers[|readers| - 1].Holding? then 1 else 0
  }

  /** Not yet past the unmapping: it will unmap the file or find that it was unmapped. */
  predicate BeforeUnmap(stage: Stage) {
    stage.Entered? || stage.Checked? || stage.Loaded?
  }

  /** About to unmap, or on the way to find out whether to. */
  predicate Responsible(pc: ReaderPc) {
    pc.Decremented? || pc.SawClosed? || pc.SawZero? || pc.SawFile? || (pc.Closing? && BeforeUnmap(pc.stage))
  }

  predicate CloserResponsible(pc: CloserPc) {
    pc.FlagSet? || pc.CloserSawFile? || pc.CloserSawZero? || (pc.CloserClosing? && BeforeUnmap(pc.stage))
  }

  ghost predicate SomeoneResponsible(s: State) {
    CloserResponsible(s.closer) || exists i :: 0 <= i < |s.readers| && Responsible(s.readers[i])
  }

  /** What a reader has seen is still so: the flag stays set and the count stays zero. */
  predicate StillSo(s: State, pc: ReaderPc) {
    && (pc.SawClosed? ==> s.closed)
    && (pc.SawZero? || pc.SawFile? || pc.Closing? ==> s.closed && s.refs == 0)
    && (pc.Closing? && !BeforeUnmap(pc.stage) ==> s.unmaps > 0)
  }

  predicate CloserStillSo(s: State) {
    && (s.closed <==> !s.closer.NotBegun? && !s.closer.FlagClear?)
    && (s.closer.CloserSawZero? || s.closer.CloserClosing? ==> s.refs == 0)
    && (s.closer.CloserClosing? && !BeforeUnmap(s.closer.stage) ==> s.unmaps > 0)
  }

  ghost predicate Inv(s: State) {
    && s.refs == Holders(s.readers)
    && CloserStillSo(s)
    && (s.unmaps > 0 ==> s.closed && s.refs == 0)
    && (forall i :: 0 <= i < |s.readers| ==> StillSo(s, s.readers[i]))
    && (!s.file || !s.region ==> s.unmaps > 0)
    && (s.closed && s.refs == 0 && s.unmaps == 0 && !s.panicked ==> SomeoneResponsible(s))
  }

  lemma {:induction false} HoldersUpdate(readers: seq<ReaderPc>, i: nat, pc: ReaderPc)
    requires i < |readers|
    ensures Holders(readers[i := pc])
      == Holders(readers) + (if pc.Holding? then 1 else 0) - if readers[i].Holding? then 1 else 0
  {
    var n := |readers| - 1;
    if i < n {
      HoldersUpdate(readers[..n], i, pc);
      assert readers[i := pc][..n] == readers[..n][i := pc];
    } else {
      assert readers[i := pc][..n] == readers[..n];
    }
  }

  lemma {:induction false} HolderCounts(readers: seq<ReaderPc>, i: nat)
    requires i < |readers| && readers[i].Holding?
    ensures Holders(readers) > 0
  {
    if i < |readers| - 1 {
      HolderCounts(readers[..|readers| - 1], i);
    }
  }

  lemma StepKeepsInv(s: State, e: Event)
    requires Inv(s) && Allowed(s, e)
    ensures Inv(Step(s, e))
  {
    if !s.panicked {
      match e {
        case ReaderStep(i) =>
          if i < |s.readers| {
            ReaderKeepsInv(s, i);
          }
        case CloserStep =>
          CloserKeepsInv(s);
      }
    }
  }

  lemma ReaderCounts(s: State, i: nat)
    requires i < |s.readers| && s.refs == Holders(s.readers)
    ensures ReaderMove(s, i).refs == Holders(ReaderMove(s, i).readers)
    ensures s.readers[i].Holding? ==> s.refs > 0
  {
    hide Holders, StageAfter;
    if s.readers[i].Holding? {
      HolderCounts(s.readers, i);
    }
    HoldersUpdate(s.readers, i, PcAfter(s, s.readers[i]));
  }

  lemma ReaderKeepsInv(s: State, i: nat)
    requires Inv(s) && i < |s.readers| && !s.panicked && (s.readers[i].Idle? ==> !s.closed)
    ensures Inv(ReaderMove(s, i))
  {
    hide Holders;
    var r := ReaderMove(s, i);
    ReaderCounts(s, i);
    assert StillSo(s, s.readers[i]);
    forall k | 0 <= k < |r.readers| && k != i ensures StillSo(r, r.readers[k]) {
      assert StillSo(s, s.readers[k]);
    }
    if r.closed && r.refs == 0 && r.unmaps == 0 && !r.panicked {
      if Responsible(r.readers[i]) {
        assert SomeoneResponsible(r);
      } else if s.refs == 0 {
        assert SomeoneResponsible(s);
        if j :| 0 <= j < |s.readers| && Responsible(s.readers[j]) {
          assert j != i ==> Responsible(r.readers[j]);
        }
      }
    }
  }

  lemma CloserKeepsInv(s: State)
    requires Inv(s) && !s.panicked
    ensures Inv(CloserMove(s))
  {
    var r := CloserMove(s);
    if r.closed && r.refs == 0 && r.unmaps == 0 && !r.panicked && s.closed {
      assert SomeoneResponsible(s);
    }
  }

  lemma {:induction false} RunKeepsInv(s: State, es: seq<Event>)
    requires Inv(s) && AllowedRun(s, es)
    ensures Inv(Run(s, es)) && |Run(s, es).readers| == |s.readers|
    decreases |es|
  {
    if es != [] {
      StepKeepsInv(s, es[0]);
      RunKeepsInv(Step(s, es[0]), es[1..]);
    }
  }

  lemma {:induction false} NoHolders(n: nat)
    ensures Holders(seq(n, _ => Idle)) == 0
  {
    if n > 0 {
      NoHolders(n - 1);
      assert seq<ReaderPc>(n, _ => Idle)[..n - 1] == seq<ReaderPc>(n - 1, _ => Idle);
    }
  }

  /** Safety: in every interleaving, while any reader holds its reference the file is mapped. */
  lemma NeverUnmappedWhileHeld(n: nat, es: seq<Event>, i: nat)
    requires AllowedRun(Start(n), es) && i < |Run(Start(n), es).readers| && Run(Start(n), es).readers[i].Holding?
    ensures Run(Start(n), es).unmaps == 0 && Run(Start(n), es).file && Run(Start(n), es).region
  {
    NoHolders(n);
    RunKeepsInv(Start(n), es);
    HolderCounts(Run(Start(n), es).readers, i);
  }

  lemma {:induction false} NoneHolding(readers: seq<ReaderPc>)
    requires forall i :: 0 <= i < |readers| ==> !readers[i].Holding?
    ensures Holders(readers) == 0
  {
    if readers != [] {
      NoneHolding(readers[..|readers| - 1]);
    }
  }

  /** Every goroutine that began has finished, without a panic. */
  ghost predicate AllDone(s: State) {
    s.closer.Closed? && !s.panicked && forall i :: 0 <= i < |s.readers| ==> s.readers[i].Idle? || s.readers[i].Finished?
  }

  /** Completion: once the close and every release have finished without a panic, the file has
      been unmapped. */
  lemma UnmappedAtTheEnd(n: nat, es: seq<Event>)
    requires AllowedRun(Start(n), es)
    requires AllDone(Run(Start(n), es))
    ensures Run(Start(n), es).unmaps > 0
  {
    NoHolders(n);
    RunKeepsInv(Start(n), es);
    NoneHolding(Run(Start(n), es).readers);
  }

  // ------------------------------------------------------------------ how often it is unmapped

  /** How far a goroutine is in the close of the mapping, none when it is not in it. The readers
      are numbered first, and the close comes after them. */
  function StageOf(s: State, t: nat): Option<Stage> {
    if t < |s.readers| then if s.readers[t].Closing? then Some(s.readers[t].stage) else None
    else if t == |s.readers| && s.closer.CloserClosing? then Some(s.closer.stage)
    else None
  }

  /** Between loading the region and clearing it. */
  predicate Inside(s: State, t: nat) {
    StageOf(s, t) == Some(Loaded) || StageOf(s, t) == Some(Unmapped)
  }

  ghost predicate TwoInside(s: State) {
    exists t: nat, u: nat :: t != u && Inside(s, t) && Inside(s, u)
  }

  /** The run has a moment with two goroutines inside. */
  ghost predicate Overlapping(s: State, es: seq<Event>)
    decreases |es|
  {
    TwoInside(s) || (es != [] && Overlapping(Step(s, es[0]), es[1..]))
  }

  /** As long as no two were inside together: whoever is inside unmaps the region, and while
      nobody is, it is either untouched or gone. */
  ghost predicate Tidy(s: State) {
    && s.unmaps <= 1
    && (forall t: nat :: Inside(s, t) ==> s.region && (StageOf(s, t) == Some(Loaded) <==> s.unmaps == 0))
    && (!s.region ==> s.unmaps == 1)
    && (s.region && s.unmaps == 1 ==> exists t: nat :: Inside(s, t))
  }

  /** The region is unmapped twice already, or will be. */
  ghost predicate Doubled(s: State) {
    || s.unmaps >= 2
    || (s.unmaps == 1 && exists t: nat :: StageOf(s, t) == Some(Loaded))
    || exists t: nat, u: nat :: t != u && StageOf(s, t) == Some(Loaded) && StageOf(s, u) == Some(Loaded)
  }

  /** The goroutine that a step moves; a step of an unknown reader moves nobody. */
  function Mover(s: State, e: Event): nat {
    match e
    case ReaderStep(i) => if i < |s.readers| then i else i + 1
    case CloserStep => |s.readers|
  }

  /** What one step of a goroutine at stage a does to the region and to the count. */
  ghost predicate StageMove(s: State, r: State, a: Option<Stage>, b: Option<Stage>) {
    match a
    case Some(Loaded) => b == Some(Unmapped) && r.unmaps == s.unmaps + 1 && r.region == s.region
    case Some(Unmapped) => b == Some(Returned) && r.unmaps == s.unmaps && !r.region
    case _ => r.unmaps == s.unmaps && r.region == s.region && b != Some(Unmapped) && (b == Some(Loaded) ==> s.region)
  }

  lemma ReaderMoves(s: State, i: nat, t: nat)
    requires i < |s.readers| && !s.panicked
    ensures t != i ==> StageOf(ReaderMove(s, i), t) == StageOf(s, t)
    ensures StageMove(s, ReaderMove(s, i), StageOf(s, i), StageOf(ReaderMove(s, i), i))
  {
  }

  lemma CloserMoves(s: State, t: nat)
    requires !s.panicked
    ensures t != |s.readers| ==> StageOf(CloserMove(s), t) == StageOf(s, t)
    ensures StageMove(s, CloserMove(s), StageOf(s, |s.readers|), StageOf(CloserMove(s), |s.readers|))
  {
  }

  /** A step moves one goroutine by one stage and leaves the others where they are. */
  lemma StepMoves(s: State, e: Event, t: nat)
    ensures t != Mover(s, e) ==> StageOf(Step(s, e), t) == StageOf(s, t)
    ensures Step(s, e) == s || StageMove(s, Step(s, e), StageOf(s, Mover(s, e)), StageOf(Step(s, e), Mover(s, e)))
  {
    hide StageOf, StageMove, ReaderMove, CloserMove;
    if !s.panicked {
      match e {
        case ReaderStep(i) =>
          if i < |s.readers| {
            ReaderMoves(s, i, t);
          }
        case CloserStep =>
          CloserMoves(s, t);
      }
    }
  }

  lemma TidyStep(s: State, e: Event)
    requires Tidy(s) && !TwoInside(s)
    ensures if TwoInside(Step(s, e)) then Doubled(Step(s, e)) else Tidy(Step(s, e))
  {
    hide StageOf, Step, Mover;
    var r, m := Step(s, e), Mover(s, e);
    if r != s {
      StepMoves(s, e, m);
      forall t: nat | t != m ensures StageOf(r, t) == StageOf(s, t) {
        StepMoves(s, e, t);
      }
      if TwoInside(r) {
        var t: nat, u: nat :| t != u && Inside(r, t) && Inside(r, u);
        assert t == m || Inside(s, t);
        assert u == m || Inside(s, u);
      } else {
        if s.unmaps == 1 && s.region {
          var t: nat :| Inside(s, t);
          assert t == m || Inside(r, t);
        }
        assert r.unmaps == 1 && s.unmaps == 0 ==> Inside(r, m);
        forall t: nat | Inside(r, t) && t != m ensures Inside(s, t) && !Inside(s, m) {
          assert Inside(s, t);
        }
      }
    }
  }

  lemma DoubledStep(s: State, e: Event)
    requires Doubled(s)
    ensures Doubled(Step(s, e))
  {
    hide StageOf, Step, Mover;
    var r, m := Step(s, e), Mover(s, e);
    StepMoves(s, e, m);
    forall t: nat | t != m ensures StageOf(r, t) == StageOf(s, t) {
      StepMoves(s, e, t);
    }
    if t: nat, u: nat :| t != u && StageOf(s, t) == Some(Loaded) && StageOf(s, u) == Some(Loaded) {
      assert t == m || StageOf(r, t) == Some(Loaded);
      assert u == m || StageOf(r, u) == Some(Loaded);
    } else if s.unmaps == 1 {
      var t: nat :| StageOf(s, t) == Some(Loaded);
      assert t == m || StageOf(r, t) == Some(Loaded);
    }
  }

  lemma {:induction false} DoubledRun(s: State, es: seq<Event>)
    requires Doubled(s)
    ensures Doubled(Run(s, es))
    decreases |es|
  {
    if es != [] {
      DoubledStep(s, es[0]);
      DoubledRun(Step(s, es[0]), es[1..]);
    }
  }

  lemma {:induction false} TidyRun(s: State, es: seq<Event>)
    requires Tidy(s) && !TwoInside(s)
    ensures if Overlapping(s, es) then Doubled(Run(s, es)) else Tidy(Run(s, es))
    decreases |es|
  {
    hide Tidy, Doubled, TwoInside, Step;
    if es != [] {
      TidyStep(s, es[0]);
      if TwoInside(Step(s, es[0])) {
        assert Overlapping(Step(s, es[0]), es[1..]);
        DoubledRun(Step(s, es[0]), es[1..]);
      } else {
        TidyRun(Step(s, es[0]), es[1..]);
      }
    }
  }

  lemma StartIsTidy(n: nat)
    ensures Tidy(Start(n)) && !TwoInside(Start(n))
  {
  }

  /** Exactly once: when all have finished, the region was unmapped once if no two goroutines
      were ever between loading and clearing it at the same time, and otherwise more often. */
  lemma UnmappedOnceIff(n: nat, es: seq<Event>)
    requires AllowedRun(Start(n), es) && AllDone(Run(Start(n), es))
    ensures Run(Start(n), es).unmaps == 1 <==> !Overlapping(Start(n), es)
  {
    hide Run, AllowedRun;
    var s := Run(Start(n), es);
    UnmappedAtTheEnd(n, es);
    StartIsTidy(n);
    TidyRun(Start(n), es);
    assert forall t: nat :: StageOf(s, t) != Some(Loaded);
  }

  /** At no moment of a run without such an overlap has the region been unmapped twice. */
  lemma NeverUnmappedTwice(n: nat, es: seq<Event>)
    requires !Overlapping(Start(n), es)
    ensures Run(Start(n), es).unmaps <= 1
  {
    StartIsTidy(n);
    TidyRun(Start(n), es);
  }

  // ------------------------------------------------------------------ an overlap

  lemma RunStep(s: State, es: seq<Event>, k: nat)
    requires k < |es|
    ensures Run(s, es[k..]) == Run(Step(s, es[k]), es[k + 1..])
    ensures AllowedRun(s, es[k..]) <==> Allowed(s, es[k]) && AllowedRun(Step(s, es[k]), es[k + 1..])
  {
    assert es[k..][0] == es[k] && es[k..][1..] == es[k + 1..];
  }

  /** A table with a single reader. */
  function One(closed: bool, refs: int, region: bool, unmaps: nat, reader: ReaderPc, closer: CloserPc): State {
    State(closed, refs, true, region, unmaps, [reader], closer, false)
  }

  lemma OneStep(s: State, es: seq<Event>, k: nat, after: State)
    requires k < |es| && Allowed(s, es[k]) && |s.readers| == 1 && |after.readers| == 1
    requires Step(s, es[k]).(readers := []) == after.(readers := []) && Step(s, es[k]).readers[0] == after.readers[0]
    ensures Run(s, es[k..]) == Run(after, es[k + 1..])
    ensures AllowedRun(s, es[k..]) <==> AllowedRun(after, es[k + 1..])
  {
    assert Step(s, es[k]).readers == after.readers;
    RunStep(s, es, k);
  }

  /** The reader acquires, the close sets the flag and sees the file, the reader lets go. */
  lemma BothDecide(es: seq<Event>)
    requires |es| == 20 && es[0] == ReaderStep(0) && es[1] == es[2] == es[3] == CloserStep
    requires es[4] == es[5] == es[6] == es[7] == ReaderStep(0)
    ensures Run(One(false, 0, true, 0, Idle, NotBegun), es[0..])
      == Run(One(true, 0, true, 0, SawFile, CloserSawFile), es[8..])
    ensures AllowedRun(One(false, 0, true, 0, Idle, NotBegun), es[0..])
      <==> AllowedRun(One(true, 0, true, 0, SawFile, CloserSawFile), es[8..])
  {
    hide Run, AllowedRun;
    OneStep(One(false, 0, true, 0, Idle, NotBegun), es, 0, One(false, 1, true, 0, Holding, NotBegun));
    OneStep(One(false, 1, true, 0, Holding, NotBegun), es, 1, One(false, 1, true, 0, Holding, FlagClear));
    OneStep(One(false, 1, true, 0, Holding, FlagClear), es, 2, One(true, 1, true, 0, Holding, FlagSet));
    OneStep(One(true, 1, true, 0, Holding, FlagSet), es, 3, One(true, 1, true, 0, Holding, CloserSawFile));
    OneStep(One(true, 1, true, 0, Holding, CloserSawFile), es, 4, One(true, 0, true, 0, Decremented, CloserSawFile));
    OneStep(One(true, 0, true, 0, Decremented, CloserSawFile), es, 5, One(true, 0, true, 0, SawClosed, CloserSawFile));
    OneStep(One(true, 0, true, 0, SawClosed, CloserSawFile), es, 6, One(true, 0, true, 0, SawZero, CloserSawFile));
    OneStep(One(true, 0, true, 0, SawZero, CloserSawFile), es, 7, One(true, 0, true, 0, SawFile, CloserSawFile));
  }

  /** Both enter the close of the mapping, and both find the region. */
  lemma BothLoad(es: seq<Event>)
    requires |es| == 20 && es[8] == es[9] == es[13] == CloserStep && es[10] == es[11] == es[12] == ReaderStep(0)
    requires es[14] == CloserStep
    ensures Run(One(true, 0, true, 0, SawFile, CloserSawFile), es[8..])
      == Run(One(true, 0, true, 0, Closing(Loaded), CloserClosing(Loaded)), es[15..])
    ensures AllowedRun(One(true, 0, true, 0, SawFile, CloserSawFile), es[8..])
      <==> AllowedRun(One(true, 0, true, 0, Closing(Loaded), CloserClosing(Loaded)), es[15..])
  {
    hide Run, AllowedRun;
    OneStep(One(true, 0, true, 0, SawFile, CloserSawFile), es, 8, One(true, 0, true, 0, SawFile, CloserSawZero));
    OneStep(One(true, 0, true, 0, SawFile, CloserSawZero), es, 9,
            One(true, 0, true, 0, SawFile, CloserClosing(Entered)));
    var c := CloserClosing(Entered);
    OneStep(One(true, 0, true, 0, SawFile, c), es, 10, One(true, 0, true, 0, Closing(Entered), c));
    OneStep(One(true, 0, true, 0, Closing(Entered), c), es, 11, One(true, 0, true, 0, Closing(Checked), c));
    OneStep(One(true, 0, true, 0, Closing(Checked), c), es, 12, One(true, 0, true, 0, Closing(Loaded), c));
    var r := Closing(Loaded);
    OneStep(One(true, 0, true, 0, r, c), es, 13, One(true, 0, true, 0, r, CloserClosing(Checked)));
    OneStep(One(true, 0, true, 0, r, CloserClosing(Checked)), es, 14, One(true, 0, true, 0, r, CloserClosing(Loaded)));
  }

  /** And both unmap it. */
  lemma BothUnmap(es: seq<Event>)
    requires |es| == 20 && es[15] == es[17] == es[18] == CloserStep && es[16] == es[19] == ReaderStep(0)
    ensures Run(One(true, 0, true, 0, Closing(Loaded), CloserClosing(Loaded)), es[15..])
      == Run(One(true, 0, false, 2, Closing(Returned), Closed), es[20..])
    ensures AllowedRun(One(true, 0, true, 0, Closing(Loaded), CloserClosing(Loaded)), es[15..])
      <==> AllowedRun(One(true, 0, false, 2, Closing(Returned), Closed), es[20..])
  {
    hide Run, AllowedRun;
    var r, c := Closing(Unmapped), CloserClosing(Unmapped);
    OneStep(One(true, 0, true, 0, Closing(Loaded), CloserClosing(Loaded)), es, 15,
            One(true, 0, true, 1, Closing(Loaded), c));
    OneStep(One(true, 0, true, 1, Closing(Loaded), c), es, 16, One(true, 0, true, 2, r, c));
    OneStep(One(true, 0, true, 2, r, c), es, 17, One(true, 0, false, 2, r, CloserClosing(Returned)));
    OneStep(One(true, 0, false, 2, r, CloserClosing(Returned)), es, 18, One(true, 0, false, 2, r, Closed));
    OneStep(One(true, 0, false, 2, r, Closed), es, 19, One(true, 0, false, 2, Closing(Returned), Closed));
  }

  /** Overlaps happen: the last release and the close both see the flag and a count of zero,
      both pass the check for the region before either clears it, and both unmap it. */
  lemma UnmappedTwice()
    ensures var r, c := ReaderStep(0), CloserStep;
      var es := [r, c, c, c, r, r, r, r, c, c, r, r, r, c, c, c, r, c, c, r];
      AllowedRun(Start(1), es) && Run(Start(1), es).unmaps == 2 && !Run(Start(1), es).panicked
        && Overlapping(Start(1), es)
  {
    hide Run, AllowedRun, Overlapping, Step, Allowed, TwoInside, Holders, Inside, StageOf;
    var r, c := ReaderStep(0), CloserStep;
    var es := [r, c, c, c, r, r, r, r, c, c, r, r, r, c, c, c, r, c, c, r];
    assert Start(1).readers == [Idle] && es[0..] == es;
    BothDecide(es);
    BothLoad(es);
    BothUnmap(es);
    NothingLeft(One(true, 0, false, 2, Closing(Returned), Closed), es[20..]);
    if !Overlapping(Start(1), es) {
      NeverUnmappedTwice(1, es);
    }
  }

  lemma NothingLeft(s: State, es: seq<Event>)
    requires |es| == 0
    ensures Run(s, es) == s && AllowedRun(s, es)
  {
  }
}
