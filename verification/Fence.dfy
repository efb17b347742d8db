/** The fence controller of diff_ditect_main.c: the main loop, its two pins and the
    relay pulses.  Camera and files are inputs; IsHazard is any predicate. */
module Fence {
  import opened Bytes

  // --------------------------------------------------------------------- pins

  /** board_gpio_write with 0, 1 or a negative value. */
  datatype Level = Low | High | Floating

  datatype Write = Sck(level: Level) | Miso(level: Level)

  datatype Action = TurnOn | TurnOff

  /** The pin writes of Fence_on: relay line low, then two low pulses on MISO. */
  function OnWrites(): (ws: seq<Write>) {
    [Sck(Low), Miso(Low), Miso(High), Miso(Low), Miso(High)]
  }

  function WritesOf(acts: seq<Action>): (ws: seq<Write>) {
    if acts == [] then []
    else WritesOf(acts[..|acts| - 1]) + if acts[|acts| - 1] == TurnOn then OnWrites() else [Sck(Floating)]
  }

  /** The level of MISO after some writes. */
  function MisoAfter(start: Level, ws: seq<Write>): (l: Level) {
    if ws == [] then start
    else if ws[|ws| - 1].Miso? then ws[|ws| - 1].level
    else MisoAfter(start, ws[..|ws| - 1])
  }

  /** How often MISO goes low. */
  function Falls(start: Level, ws: seq<Write>): (n: nat) {
    if ws == [] then 0
    else
      var front, last := ws[..|ws| - 1], ws[|ws| - 1];
      Falls(start, front) + if last == Miso(Low) && MisoAfter(start, front) != Low then 1 else 0
  }

  function CountOn(acts: seq<Action>): (n: nat) {
    if acts == [] then 0 else CountOn(acts[..|acts| - 1]) + if acts[|acts| - 1] == TurnOn then 1 else 0
  }

  lemma MisoSnoc(start: Level, ws: seq<Write>, w: Write)
    ensures MisoAfter(start, ws + [w]) == if w.Miso? then w.level else MisoAfter(start, ws)
    ensures Falls(start, ws + [w]) ==
            Falls(start, ws) + if w == Miso(Low) && MisoAfter(start, ws) != Low then 1 else 0
  {
    assert (ws + [w])[..|ws|] == ws;
  }

  lemma OnPulses(ws: seq<Write>)
    requires MisoAfter(High, ws) == High
    ensures MisoAfter(High, ws + OnWrites()) == High
    ensures Falls(High, ws + OnWrites()) == Falls(High, ws) + 2
  {
    var w1 := ws + [Sck(Low)];
    var w2 := w1 + [Miso(Low)];
    var w3 := w2 + [Miso(High)];
    var w4 := w3 + [Miso(Low)];
    assert ws + OnWrites() == w4 + [Miso(High)];
    MisoSnoc(High, ws, Sck(Low));
    MisoSnoc(High, w1, Miso(Low));
    MisoSnoc(High, w2, Miso(High));
    MisoSnoc(High, w3, Miso(Low));
    MisoSnoc(High, w4, Miso(High));
  }

  /** Two low pulses per activation, none otherwise, and MISO rests high. */
  lemma {:induction false} PulsesPerActivation(acts: seq<Action>)
    ensures MisoAfter(High, WritesOf(acts)) == High
    ensures Falls(High, WritesOf(acts)) == 2 * CountOn(acts)
  {
    if acts != [] {
      var front := acts[..|acts| - 1];
      PulsesPerActivation(front);
      OnPulses(WritesOf(front));
      MisoSnoc(High, WritesOf(front), Sck(Floating));
    }
  }

  // --------------------------------------------------------- one pass of the loop

  /** What a pass finds: the five bytes behind an existing switch.ini, or no such file
      and then the outcomes of load_pic, set_camimage and the two centre searches. */
  datatype Pass =
    | Switch(cbuff: seq<char>)
    | Watch(picOk: bool, camOk: bool, blackX: int, blackY: int, skinX: int, skinY: int)

  type Hazard = (int, int) -> bool

  datatype Control = Control(isOn: bool, isLoaded: bool, i: nat, running: bool)

  const START := Control(false, false, 0, true)

  predicate StartsWith(cbuff: seq<char>, word: string) {
    |word| <= |cbuff| && cbuff[..|word|] == word
  }

  datatype Verdict = Keep | Set(on: bool)

  /** The detected position; both components are 0 when nothing was found. */
  function Position(p: Pass): (r: (int, int))
    requires p.Watch?
  {
    if p.blackX < 0 && p.skinX < 0 then (0, 0)
    else if p.blackX < 0 then (p.skinX, p.skinY)
    else if p.skinX < 0 then (p.blackX, p.blackY)
    else (TruncDiv(p.blackX + p.skinX, 2), TruncDiv(p.blackY + p.skinY, 2))
  }

  /** The pass gets as far as the camera image. */
  predicate PictureReady(c: Control, p: Pass)
    requires p.Watch?
  {
    (c.isLoaded && c.i != 0) || p.picOk
  }

  /** What a pass demands of the fence: the manual command, or the hazard at the position. */
  function VerdictOf(c: Control, p: Pass, hazard: Hazard): (v: Verdict) {
    match p
    case Switch(cbuff) =>
      if StartsWith(cbuff, "on\0") then Set(true)
      else if StartsWith(cbuff, "off\0") then Set(false)
      else Keep
    case Watch(_, camOk, blackX, _, skinX, _) =>
      if PictureReady(c, p) && camOk && (blackX >= 0 || skinX >= 0)
      then Set(hazard(Position(p).0, Position(p).1)) else Keep
  }

  function Next(c: Control, p: Pass, hazard: Hazard): (d: Control) {
    var v := VerdictOf(c, p, hazard);
    var isOn := if v.Set? then v.on else c.isOn;
    if !c.running then c
    else if p.Switch? then c.(isOn := isOn, i := (c.i + 1) % 60)
    else if !PictureReady(c, p) then c
    else if !p.camOk then c.(isLoaded := true, running := false)
    else c.(isOn := isOn, isLoaded := true, i := (c.i + 1) % 60)
  }

  /** The fence calls of a pass: a manual command always acts, a detection only on a change. */
  function Acts(c: Control, p: Pass, hazard: Hazard): (acts: seq<Action>) {
    var v := VerdictOf(c, p, hazard);
    if !c.running || v.Keep? || (p.Watch? && v.on == c.isOn) then []
    else if v.on then [TurnOn] else [TurnOff]
  }

  // ------------------------------------------------------ what a pass amounts to

  /** switch.ini holding "on" turns the fence on, "off" turns it off, and anything else leaves
      it; the first two act whatever the state was. */
  lemma ManualCommand(c: Control, p: Pass, hazard: Hazard)
    requires c.running && p.Switch?
    ensures var b, d, acts := p.cbuff, Next(c, p, hazard), Acts(c, p, hazard);
            if |b| >= 3 && b[0] == 'o' && b[1] == 'n' && b[2] == '\0' then d.isOn && acts == [TurnOn]
            else if |b| >= 4 && b[0] == 'o' && b[1] == 'f' && b[2] == 'f' && b[3] == '\0'
            then !d.isOn && acts == [TurnOff]
            else d.isOn == c.isOn && acts == []
  {
    StartsWithOn(p.cbuff);
    StartsWithOff(p.cbuff);
  }

  lemma StartsWithOn(b: seq<char>)
    ensures StartsWith(b, "on\0") <==> |b| >= 3 && b[0] == 'o' && b[1] == 'n' && b[2] == '\0'
  {
    if |b| >= 3 {
      assert b[..3] == [b[0], b[1], b[2]];
    }
  }

  lemma StartsWithOff(b: seq<char>)
    ensures StartsWith(b, "off\0") <==> |b| >= 4 && b[0] == 'o' && b[1] == 'f' && b[2] == 'f' && b[3] == '\0'
  {
    if |b| >= 4 {
      assert b[..4] == [b[0], b[1], b[2], b[3]];
    }
  }

  /** A detection turns the fence on exactly when there is a hazard at the point found: the one
      centre, or the middle of both; a call is made exactly on a change. */
  lemma DetectionObeyed(c: Control, p: Pass, hazard: Hazard)
    requires c.running && p.Watch? && (p.picOk || (c.isLoaded && c.i != 0)) && p.camOk
    ensures var d, acts := Next(c, p, hazard), Acts(c, p, hazard);
            && (p.blackX >= 0 && p.skinX < 0 ==> d.isOn == hazard(p.blackX, p.blackY))
            && (p.blackX < 0 && p.skinX >= 0 ==> d.isOn == hazard(p.skinX, p.skinY))
            && (p.blackX >= 0 && p.skinX >= 0 ==>
                  d.isOn == hazard((p.blackX + p.skinX) / 2, TruncDiv(p.blackY + p.skinY, 2)))
            && (p.blackX < 0 && p.skinX < 0 ==> d.isOn == c.isOn)
            && acts == (if d.isOn == c.isOn then [] else [if d.isOn then TurnOn else TurnOff])
            && d.running && d.isLoaded && d.i == (c.i + 1) % 60
  {
  }

  /** Without a picture a pass changes nothing; without a camera image it ends main and leaves
      the fence as it is. */
  lemma FailedPass(c: Control, p: Pass, hazard: Hazard)
    requires c.running && p.Watch?
    ensures var d, acts := Next(c, p, hazard), Acts(c, p, hazard);
            && (!p.picOk && (!c.isLoaded || c.i == 0) ==> d == c && acts == [])
            && (p.picOk && !p.camOk ==> !d.running && d.isOn == c.isOn && acts == [])
  {
  }

  /** The reference picture is loaded anew on every sixtieth completed pass. */
  lemma {:induction false} PassCounter(passes: seq<Pass>, hazard: Hazard)
    requires forall k :: 0 <= k < |passes| ==> passes[k].Switch? || (passes[k].picOk && passes[k].camOk)
    ensures var c := After(START, passes, hazard);
            c.running && c.i == |passes| % 60
    decreases |passes|
  {
    if passes != [] {
      var n := |passes| - 1;
      PassCounter(passes[..n], hazard);
      PassCounts(After(START, passes[..n], hazard), passes[n], hazard);
    }
  }

  lemma PassCounts(c: Control, p: Pass, hazard: Hazard)
    requires c.running && (p.Switch? || (p.picOk && p.camOk))
    ensures Next(c, p, hazard).running && Next(c, p, hazard).i == (c.i + 1) % 60
  {
  }

  // ------------------------------------------------------------------- whole runs

  function After(c: Control, passes: seq<Pass>, hazard: Hazard): (d: Control)
    decreases |passes|
  {
    if passes == [] then c
    else Next(After(c, passes[..|passes| - 1], hazard), passes[|passes| - 1], hazard)
  }

  function ActsOf(c: Control, passes: seq<Pass>, hazard: Hazard): (acts: seq<Action>)
    decreases |passes|
  {
    if passes == [] then []
    else
      var front := passes[..|passes| - 1];
      ActsOf(c, front, hazard) + Acts(After(c, front, hazard), passes[|passes| - 1], hazard)
  }

  /** The verdict of pass k in a run from the start. */
  function VerdictAt(passes: seq<Pass>, hazard: Hazard, k: nat): (v: Verdict)
    requires k < |passes|
  {
    var c := After(START, passes[..k], hazard);
    if c.running then VerdictOf(c, passes[k], hazard) else Keep
  }

  /** Passes k and later leave the fence as it is. */
  ghost predicate KeepsFrom(passes: seq<Pass>, hazard: Hazard, k: nat) {
    forall j :: k <= j < |passes| ==> VerdictAt(passes, hazard, j).Keep?
  }

  /** Pass k is the last one with a verdict, and that is `on`. */
  ghost predicate LastSet(passes: seq<Pass>, hazard: Hazard, k: nat, on: bool) {
    k < |passes| && VerdictAt(passes, hazard, k) == Set(on) && KeepsFrom(passes, hazard, k + 1)
  }

  lemma VerdictOfFront(front: seq<Pass>, p: Pass, hazard: Hazard, k: nat)
    requires k < |front|
    ensures VerdictAt(front + [p], hazard, k) == VerdictAt(front, hazard, k)
  {
    assert (front + [p])[..k] == front[..k];
  }

  lemma KeepsSnoc(front: seq<Pass>, p: Pass, hazard: Hazard, k: nat)
    requires k <= |front| && KeepsFrom(front, hazard, k) && VerdictAt(front + [p], hazard, |front|).Keep?
    ensures KeepsFrom(front + [p], hazard, k)
  {
    forall j | k <= j < |front + [p]| ensures VerdictAt(front + [p], hazard, j).Keep? {
      if j < |front| {
        VerdictOfFront(front, p, hazard, j);
      }
    }
  }

  lemma LastSetSnoc(front: seq<Pass>, p: Pass, hazard: Hazard, k: nat, on: bool)
    requires LastSet(front, hazard, k, on) && VerdictAt(front + [p], hazard, |front|).Keep?
    ensures LastSet(front + [p], hazard, k, on)
  {
    VerdictOfFront(front, p, hazard, k);
    KeepsSnoc(front, p, hazard, k + 1);
  }

  lemma AfterSnoc(c: Control, front: seq<Pass>, p: Pass, hazard: Hazard)
    ensures After(c, front + [p], hazard) == Next(After(c, front, hazard), p, hazard)
  {
    assert (front + [p])[..|front|] == front;
  }

  lemma LastVerdictObeyed(front: seq<Pass>, p: Pass, hazard: Hazard)
    ensures var v := VerdictAt(front + [p], hazard, |front|);
            After(START, front + [p], hazard).isOn == if v.Set? then v.on else After(START, front, hazard).isOn
  {
    assert (front + [p])[..|front|] == front;
    AfterSnoc(START, front, p, hazard);
    NextObeys(After(START, front, hazard), p, hazard);
  }

  /** isOn is the latest verdict of the run, that of pass k, or off when there was none and
      k is -1. */
  lemma {:induction false} LatestVerdict(passes: seq<Pass>, hazard: Hazard) returns (k: int)
    ensures var on := After(START, passes, hazard).isOn;
            if k == -1 then !on && KeepsFrom(passes, hazard, 0)
            else 0 <= k && LastSet(passes, hazard, k, on)
  {
    k := -1;
    if passes != [] {
      var front, p := passes[..|passes| - 1], passes[|passes| - 1];
      assert passes == front + [p];
      LastVerdictObeyed(front, p, hazard);
      k := LatestVerdict(front, hazard);
      if VerdictAt(front + [p], hazard, |front|).Set? {
        k := |front|;
      } else if k == -1 {
        KeepsSnoc(front, p, hazard, 0);
      } else {
        LastSetSnoc(front, p, hazard, k, After(START, front, hazard).isOn);
      }
    }
  }

  lemma NextObeys(c: Control, p: Pass, hazard: Hazard)
    ensures var v := if c.running then VerdictOf(c, p, hazard) else Keep;
            Next(c, p, hazard).isOn == if v.Set? then v.on else c.isOn
  {
  }

  /** Whether or not there are manual commands, the last call tells whether it is on. */
  lemma {:induction false} LastActDecides(c: Control, passes: seq<Pass>, hazard: Hazard)
    ensures var acts := ActsOf(c, passes, hazard);
            After(c, passes, hazard).isOn == if acts == [] then c.isOn else acts[|acts| - 1] == TurnOn
    decreases |passes|
  {
    if passes != [] {
      var front, p := passes[..|passes| - 1], passes[|passes| - 1];
      LastActDecides(c, front, hazard);
      ActShows(After(c, front, hazard), p, hazard);
    }
  }

  /** A pass makes at most one call, and that one says what isOn becomes. */
  lemma ActShows(c: Control, p: Pass, hazard: Hazard)
    ensures var acts, on := Acts(c, p, hazard), Next(c, p, hazard).isOn;
            if acts == [] then on == c.isOn else acts == [if on then TurnOn else TurnOff]
  {
    NextObeys(c, p, hazard);
  }

  /** Without manual commands the calls strictly alternate, starting with TurnOn. */
  lemma {:induction false} StrictAlternation(passes: seq<Pass>, hazard: Hazard)
    requires forall k :: 0 <= k < |passes| ==> passes[k].Watch?
    ensures var acts := ActsOf(START, passes, hazard);
            forall k :: 0 <= k < |acts| ==> (acts[k] == TurnOn <==> k % 2 == 0)
    decreases |passes|
  {
    if passes != [] {
      var front := passes[..|passes| - 1];
      StrictAlternation(front, hazard);
      LastActDecides(START, front, hazard);
    }
  }

  // ------------------------------------------------------------- the imperative code

  class Controller {
    var sck: Level
    var miso: Level
    var isOn: bool
    var isLoaded: bool
    var i: nat
    ghost var writes: seq<Write>    // pin writes since GPIO_init

    /** What holds at every loop head. */
    ghost predicate Valid()
      reads this
    {
      && (sck == Low <==> isOn)
      && miso == High
    }

    ghost function State(running: bool): (c: Control)
      reads this
    {
      Control(isOn, isLoaded, i, running)
    }

    /** GPIO_init and the variables of main. */
    constructor ()
      ensures Valid() && State(true) == START && sck == High && writes == []
    {
      sck, miso := High, High;
      isOn, isLoaded, i := false, false, 0;
      writes := [];
    }

    method GpioWriteSck(level: Level)
      modifies this`sck, this`writes
      ensures sck == level && writes == old(writes) + [Sck(level)]
    {
      sck := level;
      writes := writes + [Sck(level)];
    }

    method GpioWriteMiso(level: Level)
      modifies this`miso, this`writes
      ensures miso == level && writes == old(writes) + [Miso(level)]
    {
      miso := level;
      writes := writes + [Miso(level)];
    }

    method FenceOn()
      modifies this`sck, this`miso, this`writes
      ensures sck == Low && miso == High && writes == old(writes) + OnWrites()
    {
      GpioWriteSck(Low);
      GpioWriteMiso(Low);
      GpioWriteMiso(High);
      GpioWriteMiso(Low);
      GpioWriteMiso(High);
    }

    method FenceOff()
      modifies this`sck, this`writes
      ensures sck == Floating && writes == old(writes) + [Sck(Floating)]
    {
      GpioWriteSck(Floating);
    }

    /** One pass of the main loop; false when main returns. */
    method Step(p: Pass, hazard: Hazard) returns (running: bool)
      requires Valid()
      modifies this
      ensures Valid()
      ensures State(running) == Next(old(State(true)), p, hazard)
      ensures writes == old(writes) + WritesOf(Acts(old(State(true)), p, hazard))
    {
      running := true;
      ghost var acts := Acts(State(true), p, hazard);
      assert |acts| == 1 ==> acts[..0] == [];
      if p.Switch? {
        if StartsWith(p.cbuff, "on\0") {
          FenceOn();
          isOn := true;
        } else if StartsWith(p.cbuff, "off\0") {
          FenceOff();
          isOn := false;
        }
      } else {
        if !isLoaded || i == 0 {
          if !p.picOk {
            return;
          }
          isLoaded := true;
        }
        if !p.camOk {
          return false;
        }
        var x, y := FindPosition(p);
        if p.blackX >= 0 || p.skinX >= 0 {
          Obey(hazard(x, y));
        }
      }
      i := (i + 1) % 60;
    }

    /** The position of what was found. */
    method FindPosition(p: Pass) returns (x: int, y: int)
      requires p.Watch?
      ensures (x, y) == Position(p)
    {
      x, y := 0, 0;
      if p.blackX < 0 && p.skinX < 0 {
      } else if p.blackX < 0 {
        x, y := p.skinX, p.skinY;
      } else if p.skinX < 0 {
        x, y := p.blackX, p.blackY;
      } else {
        x, y := TruncDiv(p.blackX + p.skinX, 2), TruncDiv(p.blackY + p.skinY, 2);
      }
    }

    /** Switches the fence when a detection asks for a change. */
    method Obey(on: bool)
      requires Valid()
      modifies this`sck, this`miso, this`writes, this`isOn
      ensures Valid() && isOn == on
      ensures writes == old(writes) + if on == old(isOn) then [] else if on then OnWrites() else [Sck(Floating)]
    {
      if on {
        if !isOn {
          FenceOn();
        }
        isOn := true;
      } else {
        if isOn {
          FenceOff();
        }
        isOn := false;
      }
    }

    /** The main loop over the given passes, from the state after GPIO_init. */
    method Run(passes: seq<Pass>, hazard: Hazard) returns (running: bool)
      requires Valid() && State(true) == START && writes == []
      modifies this
      ensures Valid()
      ensures State(running) == After(START, passes, hazard)
      ensures writes == WritesOf(ActsOf(START, passes, hazard))
      ensures Falls(High, writes) == 2 * CountOn(ActsOf(START, passes, hazard))
    {
      running := true;
      for k := 0 to |passes|
        invariant Valid()
        invariant State(running) == After(START, passes[..k], hazard)
        invariant writes == WritesOf(ActsOf(START, passes[..k], hazard))
      {
        RunStep(passes, hazard, k);
        if running {
          running := Step(passes[k], hazard);
        }
      }
      assert passes[..|passes|] == passes;
      PulsesPerActivation(ActsOf(START, passes, hazard));
    }
  }

  /** What pass k adds to a run. */
  lemma RunStep(passes: seq<Pass>, hazard: Hazard, k: nat)
    requires k < |passes|
    ensures var c := After(START, passes[..k], hazard);
            var acts := Acts(c, passes[k], hazard);
            && After(START, passes[..k + 1], hazard) == Next(c, passes[k], hazard)
            && WritesOf(ActsOf(START, passes[..k + 1], hazard)) ==
               WritesOf(ActsOf(START, passes[..k], hazard)) + WritesOf(acts)
            && (!c.running ==> Next(c, passes[k], hazard) == c && WritesOf(acts) == [])
  {
    assert passes[..k + 1][..k] == passes[..k];
    WritesOfMore(ActsOf(START, passes[..k], hazard), Acts(After(START, passes[..k], hazard), passes[k], hazard));
  }

  lemma WritesOfMore(before: seq<Action>, more: seq<Action>)
    requires |more| <= 1
    ensures WritesOf(before + more) == WritesOf(before) + WritesOf(more)
  {
    if more == [] {
      assert before + more == before;
    } else {
      assert (before + more)[..|before|] == before;
      assert more[..0] == [];
    }
  }
}
