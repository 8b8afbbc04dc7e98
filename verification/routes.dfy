/**
 The `/process_garbage` view: one full sorting cycle per request. Phase 1 looks
 for polythene in camera 1's frame and opens the plate (pressing and cutting
 first when polythene is found); phase 2 classifies camera 2's frame and turns
 the hand to the smallest detected flag, then resets it.
 */
module Routes {
  import opened Wrappers
  import Text
  import opened Detection
  import opened Commands
  import opened Http
  import Helper

  const Cam1Failed: string := "Failed to capture frame from CAM_1"
  const Cam2Failed: string := "Failed to capture frame from CAM_2"
  const Completed: string := "Garbage processing completed successfully"

  /** The commands issued during one request, in order, and the reply returned. */
  datatype Outcome = Outcome(commands: seq<Command>, reply: Reply)

  /**
   Phase 1 commands for a polythene verdict: press, cut, then open the plate when
   polythene was found; otherwise only open the plate.
   */
  function PolythenePhase(polythene: bool): (r: seq<Command>)
    ensures |r| == (if polythene then 3 else 1) && (polythene ==> r[0] == HandPressure)
    ensures r[|r| - 1] == OpenPlate && OpenPlate !in r[..|r| - 1]
    ensures HandPressure in r <==> polythene
    ensures Cutter in r <==> polythene
    ensures forall c :: c in r ==> !c.HandMotor? && !c.HandMotorReset?
  {
    if polythene then [HandPressure, Cutter, OpenPlate] else [OpenPlate]
  }

  /**
   Phase 2 commands for the detected flags: nothing when none were detected,
   otherwise the hand turned to the smallest detected flag and then reset.
   */
  function SortingPhase(flags: seq<nat>): (r: seq<Command>)
    ensures |flags| == 0 <==> r == []
    ensures |flags| > 0 ==>
      && |r| == 2 && r[0].HandMotor? && r[1] == HandMotorReset
      && r[0].flag in flags && forall f :: f in flags ==> r[0].flag <= f
  {
    if |flags| == 0 then [] else [HandMotor(MinOf(flags)), HandMotorReset]
  }

  /** `process_garbage`, with each camera fetch given as its outcome. */
  function ProcessGarbage(cam1: Capture, cam2: Capture): (o: Outcome)
    // camera 1 failing: an error reply and no command at all
    ensures cam1.None? ==> o == Outcome([], Reply(500, Error(Cam1Failed)))
    // phase 1 always comes first: H, C, O on polythene, O alone otherwise
    ensures cam1.Some? ==>
      var n := if Helper.DetectPolythene(cam1) then 3 else 1;
      && |o.commands| >= n
      && o.commands[..n] == (if n == 3 then [HandPressure, Cutter, OpenPlate] else [OpenPlate])
    // camera 2 failing: an error reply after phase 1 and nothing else
    ensures cam1.Some? && cam2.None? ==>
      o.reply == Reply(500, Error(Cam2Failed)) && o.commands == PolythenePhase(Helper.DetectPolythene(cam1))
    // success: the hand goes to the smallest detected flag and back, or does not move
    ensures cam1.Some? && cam2.Some? ==>
      var n := if Helper.DetectPolythene(cam1) then 3 else 1;
      var flags := Helper.DetectBiodegradable(cam2);
      && o.reply == Reply(200, Message(Completed))
      && (|flags| == 0 ==> |o.commands| == n)
      && (|flags| > 0 ==>
            && |o.commands| == n + 2
            && o.commands[n].HandMotor?
            && o.commands[n].flag in flags
            && (forall f :: f in flags ==> o.commands[n].flag <= f)
            && o.commands[n + 1] == HandMotorReset)
    ensures o.reply.status == 200 <==> cam1.Some? && cam2.Some?
    ensures o.reply.status == 200 ==> |o.commands| in {1, 3, 5}
  {
    if cam1.None? then
      Outcome([], Reply(500, Error(Cam1Failed)))
    else
      var phase1 := PolythenePhase(Helper.DetectPolythene(cam1));
      if cam2.None? then
        Outcome(phase1, Reply(500, Error(Cam2Failed)))
      else
        Outcome(phase1 + SortingPhase(Helper.DetectBiodegradable(cam2)), Reply(200, Message(Completed)))
  }

  /** On success a HAND_MOTOR command is sent exactly for the smallest detected flag, if any. */
  lemma HandMotorSent(cam1: Capture, cam2: Capture)
    requires cam1.Some? && cam2.Some?
    ensures var flags := Helper.DetectBiodegradable(cam2);
      forall f :: HandMotor(f) in ProcessGarbage(cam1, cam2).commands <==> |flags| > 0 && f == MinOf(flags)
  {
    var flags := Helper.DetectBiodegradable(cam2);
    var phase1 := PolythenePhase(Helper.DetectPolythene(cam1));
    assert ProcessGarbage(cam1, cam2).commands == phase1 + SortingPhase(flags);
    assert forall c :: c in phase1 ==> !c.HandMotor?;
  }

  /**
   On success the hand is sent to flag 4 exactly when some class name in camera
   2's frame resolves to biogas-ready, and to flag 5 exactly when some resolves
   to non-biogas-ready and none to biogas-ready.
   */
  lemma BiogasReadyTakesPriority(cam1: Capture, names: seq<string>)
    requires cam1.Some?
    ensures var o := ProcessGarbage(cam1, Some(Frame(names)));
      && (HandMotor(4) in o.commands <==> exists i :: 0 <= i < |names| && Helper.Resolve(names[i]) == Some(4))
      && (HandMotor(5) in o.commands <==>
            (exists i :: 0 <= i < |names| && Helper.Resolve(names[i]) == Some(5))
            && !exists i :: 0 <= i < |names| && Helper.Resolve(names[i]) == Some(4))
  {
    var flags := Helper.DetectBiodegradable(Some(Frame(names)));
    HandMotorSent(cam1, Some(Frame(names)));
    if |flags| > 0 {
      SmallestOfFourAndFive(flags);
    }
  }

  /** In a list of 4s and 5s the minimum is 4 exactly when a 4 is present. */
  lemma SmallestOfFourAndFive(flags: seq<nat>)
    requires |flags| > 0 && forall f :: f in flags ==> f == 4 || f == 5
    ensures MinOf(flags) == 4 <==> 4 in flags
    ensures MinOf(flags) == 5 <==> 5 in flags && 4 !in flags
  {
  }

  /** A frame from camera 1 labelled "Polythene Bag" starts the cycle with H, C, O. */
  lemma PolytheneBagScenario(cam2: Capture)
    ensures ProcessGarbage(Some(Frame(["Polythene Bag"])), cam2).commands[..3] == [HandPressure, Cutter, OpenPlate]
  {
    var s := Text.Lower("Polythene Bag");
    assert s[0..9] == "polythene";
    assert Text.OccursAt("polythene", s, 0);
    assert ["Polythene Bag"][0] == "Polythene Bag";
  }

  /** Camera 2 seeing "BiogasReady" and "NonBiogasReady" ends the cycle with HAND_MOTOR:4, HAND_MOTOR:RESET. */
  lemma MixedBinScenario(cam1: Capture)
    requires cam1.Some?
    ensures var o := ProcessGarbage(cam1, Some(Frame(["BiogasReady", "NonBiogasReady"])));
      && o.reply.status == 200
      && |o.commands| >= 2
      && o.commands[|o.commands| - 2..] == [HandMotor(4), HandMotorReset]
  {
    Helper.MixedBinExample();
  }
}
