/**
 The continuously running deployment: its five-entry class-to-flag table,
 label normalisation by lower-casing and turning spaces into '-', flag
 selection with the flag request it triggers, one iteration of the background
 loop, and the two Flask views that start the loop.
 */
module Continuous {
  import opened Wrappers
  import opened Text
  import opened Detection
  import opened Commands
  import opened Http

  /** Coarse categories 1 to 3 and the biogas categories 4 and 5. */
  const ClassToFlag: map<string, nat> := map[
    "non-biodegradable" := 1,
    "biodegradable" := 2,
    "common" := 3,
    "nonbiogasready" := 5,
    "biogasready" := 4
  ]

  /** Every flag this table can produce lies in 1..5; in particular none is 0 (falsy). */
  lemma TableFlagsInRange()
    ensures forall f :: f in ClassToFlag.Values ==> 1 <= f <= 5
  {
  }

  /** `s.replace(" ", "-")`. */
  function SpacesToDashes(s: string): string
  {
    seq(|s|, i requires 0 <= i < |s| => if s[i] == ' ' then '-' else s[i])
  }

  /** A detector class name in table form: lower-cased, every space turned into '-'. */
  function Normalise(name: string): string
  {
    SpacesToDashes(Lower(name))
  }

  /** `class_to_flag.get(normalised)`. */
  function Resolve(name: string): Option<nat>
  {
    Lookup(ClassToFlag, Normalise(name))
  }

  /**
   A class name resolves exactly when its normal form is a table key, and then to
   that key's flag, which lies in 1..5.
   */
  lemma ResolveMeaning(name: string)
    ensures Resolve(name).Some? <==> Normalise(name) in ClassToFlag
    ensures Resolve(name).Some? ==> Resolve(name) == Some(ClassToFlag[Normalise(name)]) && 1 <= Resolve(name).value <= 5
  {
    TableFlagsInRange();
  }

  /**
   Normalisation keeps the length, and puts a '-' exactly where the name had a
   space or a '-'; every other character is the name's, lower-cased.
   */
  lemma NormaliseShape(name: string)
    ensures |Normalise(name)| == |name|
    ensures forall i :: 0 <= i < |name| ==>
      (Normalise(name)[i] == '-' <==> name[i] == ' ' || name[i] == '-')
    ensures forall i :: 0 <= i < |name| && name[i] != ' ' ==> Normalise(name)[i] == LowerChar(name[i])
  {
  }

  /** Normalising a normal form changes nothing. */
  lemma NormaliseIdempotent(name: string)
    ensures Normalise(Normalise(name)) == Normalise(name)
  {
    LowerIdempotent(name);
    var k := Normalise(name);
    assert forall i :: 0 <= i < |k| ==> !IsUpper(k[i]) && k[i] != ' ';
  }

  /** The outcome of `detect_biodegradable`: the selected flag and the flag requests it sent. */
  datatype Detected = Detected(flag: Option<nat>, sent: seq<Request>)

  /** Some class name in the frame resolves. */
  ghost predicate AnyResolves(names: seq<string>)
  {
    exists i :: 0 <= i < |names| && Resolve(names[i]).Some?
  }

  /** `f` is the flag of some class name and no class name resolves to less. */
  ghost predicate IsSmallestResolved(names: seq<string>, f: nat)
  {
    && (exists i :: 0 <= i < |names| && Resolve(names[i]) == Some(f))
    && (forall i :: 0 <= i < |names| && Resolve(names[i]).Some? ==> f <= Resolve(names[i]).value)
  }

  /**
   `detect_biodegradable`: the smallest resolved flag, reported once to the
   flag board, or nothing (and no request) when no class name resolves.
   */
  function DetectBiodegradable(frame: Frame): (d: Detected)
    ensures d.flag.None? <==> !AnyResolves(frame.classNames)
    ensures d.flag.Some? ==> IsSmallestResolved(frame.classNames, d.flag.value)
    ensures d.flag.Some? ==> d.flag.value in ClassToFlag.Values && 1 <= d.flag.value <= 5
    ensures d.sent == (if d.flag.Some? then [FlagRequest(d.flag.value)] else [])
  {
    var flags := MatchedFlags(Resolve, frame.classNames);
    if |flags| > 0 then
      var m := MinOf(flags);
      assert m in flags;
      var i :| 0 <= i < |frame.classNames| && Resolve(frame.classNames[i]) == Some(m);
      TableFlagsInRange();
      Detected(Some(m), [FlagRequest(m)])
    else
      assert forall f :: f !in flags;
      Detected(None, [])
  }

  /** Python truthiness of `detected_flag`: `None` and `0` are false. */
  predicate Truthy(flag: Option<nat>)
  {
    flag.Some? && flag.value != 0
  }

  /**
   Because no table flag is 0, the loop's truthiness test on the selected flag
   is exactly "a flag was selected".
   */
  lemma TruthyFlagIsPresent(frame: Frame)
    ensures Truthy(DetectBiodegradable(frame).flag) <==> DetectBiodegradable(frame).flag.Some?
  {
  }

  /** Loop sub-steps per iteration (`range(4)`). */
  const SubSteps: nat := 4

  /** One sub-step: MOVE, then, if camera 2 delivered a frame, the hand command. */
  function SubStep(capture: Capture): (r: seq<Request>)
    ensures 1 <= |r| <= 3 && r[0] == CommandRequest(Esp2, Move)
    ensures capture.None? ==> r == [CommandRequest(Esp2, Move)]
    ensures capture.Some? && !AnyResolves(capture.value.classNames) ==>
      r == [CommandRequest(Esp2, Move), CommandRequest(Esp2, HandMotorReset)]
    ensures capture.Some? && AnyResolves(capture.value.classNames) ==>
      exists f :: IsSmallestResolved(capture.value.classNames, f)
        && r == [CommandRequest(Esp2, Move), FlagRequest(f), CommandRequest(Esp2, HandMotor(f))]
  {
    [CommandRequest(Esp2, Move)] +
    if capture.None? then
      []
    else
      var d := DetectBiodegradable(capture.value);
      d.sent + [CommandRequest(Esp2, if Truthy(d.flag) then HandMotor(d.flag.value) else HandMotorReset)]
  }

  /** The sub-steps run in order, each on its own camera 2 capture. */
  function Steps(captures: seq<Capture>): (r: seq<Request>)
    ensures Moves(r) == |captures|
    ensures |captures| <= |r| <= 3 * |captures|
    decreases |captures|
  {
    if captures == [] then
      []
    else
      var first := SubStep(captures[0]);
      var rest := Steps(captures[1..]);
      MovesAppend(first, rest);
      SubStepMoves(captures[0]);
      first + rest
  }

  /** How many MOVE commands a request trace holds. */
  function Moves(reqs: seq<Request>): nat
    decreases |reqs|
  {
    if reqs == [] then 0 else (if reqs[0] == CommandRequest(Esp2, Move) then 1 else 0) + Moves(reqs[1..])
  }

  lemma {:induction false} MovesAppend(a: seq<Request>, b: seq<Request>)
    ensures Moves(a + b) == Moves(a) + Moves(b)
    decreases |a|
  {
    if a == [] {
      assert a + b == b;
    } else {
      assert (a + b)[0] == a[0];
      assert (a + b)[1..] == a[1..] + b;
      MovesAppend(a[1..], b);
    }
  }

  /** A sub-step sends exactly one MOVE. */
  lemma SubStepMoves(capture: Capture)
    ensures Moves(SubStep(capture)) == 1
  {
    var move := CommandRequest(Esp2, Move);
    var tail: seq<Request>;
    if capture.None? {
      tail := [];
    } else {
      var d := DetectBiodegradable(capture.value);
      tail := d.sent + [CommandRequest(Esp2, if Truthy(d.flag) then HandMotor(d.flag.value) else HandMotorReset)];
    }
    assert SubStep(capture) == [move] + tail;
    NoMoves(tail);
    MovesAppend([move], tail);
    assert Moves([move]) == 1 + Moves([]);
  }

  lemma {:induction false} NoMoves(reqs: seq<Request>)
    requires forall j :: 0 <= j < |reqs| ==> reqs[j] != CommandRequest(Esp2, Move)
    ensures Moves(reqs) == 0
    decreases |reqs|
  {
    if reqs != [] {
      NoMoves(reqs[1..]);
    }
  }

  /** What one pass of the loop body does. */
  datatype Iteration =
    | Restart                        // camera 1 failed: back to the top, nothing sent
    | Completed(sent: seq<Request>)  // the four sub-steps ran

  /**
   One pass of `process_garbage_task`. Camera 1's frame is only checked for
   presence; camera 2 is captured once per sub-step.
   */
  function ProcessIteration(cam1: Capture, cam2: seq<Capture>): (r: Iteration)
    requires |cam2| == SubSteps
    ensures r.Restart? <==> cam1.None?
    ensures r.Completed? ==>
      && r.sent == SubStep(cam2[0]) + SubStep(cam2[1]) + SubStep(cam2[2]) + SubStep(cam2[3])
      && Moves(r.sent) == SubSteps
      && SubSteps <= |r.sent| <= 3 * SubSteps
  {
    if cam1.None? then
      Restart
    else
      var sent := Steps(cam2);
      StepsUnrolled(cam2);
      Completed(sent)
  }

  lemma StepsUnrolled(cam2: seq<Capture>)
    requires |cam2| == 4
    ensures Steps(cam2) == SubStep(cam2[0]) + SubStep(cam2[1]) + SubStep(cam2[2]) + SubStep(cam2[3])
  {
    var t1 := cam2[1..];
    var t2 := t1[1..];
    var t3 := t2[1..];
    assert t3[1..] == [];
    var s0, s1, s2, s3 := SubStep(cam2[0]), SubStep(cam2[1]), SubStep(cam2[2]), SubStep(cam2[3]);
    assert Steps(t3) == s3 by {
      assert Steps(t3) == s3 + Steps(t3[1..]);
    }
    assert Steps(t2) == s2 + s3;
    assert Steps(t1) == s1 + (s2 + s3);
    assert Steps(cam2) == s0 + (s1 + (s2 + s3));
    ConcatAssoc(s0, s1, s2, s3);
  }

  lemma ConcatAssoc(a: seq<Request>, b: seq<Request>, c: seq<Request>, d: seq<Request>)
    ensures a + (b + (c + d)) == a + b + c + d
  {
  }

  /**
   The JSON body of a request as Flask parses it. Numbers are integers here;
   floats are not modelled.
   */
  datatype Json =
    | JNull
    | JBool(b: bool)
    | JNum(n: int)
    | JStr(s: string)
    | JArr(items: seq<Json>)
    | JObj(fields: map<string, Json>)

  /** Python truthiness of a parsed JSON value (`not data` is its negation). */
  predicate JsonTruthy(j: Json)
  {
    match j
    case JNull => false
    case JBool(b) => b
    case JNum(n) => n != 0
    case JStr(s) => |s| > 0
    case JArr(items) => |items| > 0
    case JObj(fields) => |fields| > 0
  }

  /** The result of a view: a reply (and whether the loop thread is started), or an uncaught TypeError, which Flask answers with 500. */
  datatype ViewResult =
    | Handled(reply: Reply, startsLoop: bool)
    | Uncaught

  const InvalidRequest: string := "Invalid request"
  const InvalidTrigger: string := "Invalid trigger command"
  const Triggered: string := "Garbage process triggered by ESP8266"
  const Started: string := "Garbage processing started and will run continuously"

  /**
   `"trigger" in data` for a truthy value: key membership for an object, element
   membership for a list, the substring test for a string; `None` where Python
   raises TypeError (a number or a boolean).
   */
  function HasTrigger(j: Json): (r: Option<bool>)
    ensures r.None? <==> j.JNull? || j.JBool? || j.JNum?
    ensures j.JObj? ==> r == Some("trigger" in j.fields)
    ensures j.JArr? ==> r == Some(exists i :: 0 <= i < |j.items| && j.items[i] == JStr("trigger"))
    ensures j.JStr? ==> r == Some(Occurs("trigger", j.s))
  {
    match j
    case JObj(fields) => Some("trigger" in fields)
    case JArr(items) => Some(JStr("trigger") in items)
    case JStr(s) => Some(Contains(s, "trigger"))
    case _ => None
  }

  /**
   `data["trigger"] == "start"`: defined only for an object holding "trigger",
   true exactly when that value is the string "start"; `None` where indexing by a
   string raises TypeError (a list or a string).
   */
  function TriggerIsStart(j: Json): (r: Option<bool>)
    ensures r.Some? <==> j.JObj? && "trigger" in j.fields
    ensures r == Some(true) <==> j.JObj? && "trigger" in j.fields && j.fields["trigger"] == JStr("start")
  {
    match j
    case JObj(fields) => if "trigger" in fields then Some(fields["trigger"] == JStr("start")) else None
    case _ => None
  }

  /**
   The bodies on which `receive_trigger` raises TypeError: a true boolean or a
   non-zero number fails the `in` test; a string or a list that does contain
   "trigger" passes it and then fails `data["trigger"]`.
   */
  ghost predicate RaisesTypeError(j: Json)
  {
    match j
    case JBool(b) => b
    case JNum(n) => n != 0
    case JStr(s) => Occurs("trigger", s)
    case JArr(items) => exists i :: 0 <= i < |items| && items[i] == JStr("trigger")
    case _ => false
  }

  /**
   `/receive_trigger`, given `request.json` (`None` when the request carries no
   JSON). 400 "Invalid request" for no body, a falsy body, and a string, list or
   object without "trigger"; for an object holding "trigger", success and a
   started loop when it is "start", 400 "Invalid trigger command" otherwise; a
   500 (an uncaught TypeError) for exactly the bodies of `RaisesTypeError`.
   */
  function ReceiveTrigger(body: Option<Json>): (r: ViewResult)
    ensures body.None? || !JsonTruthy(body.value) ==> r == Handled(Reply(400, Error(InvalidRequest)), false)
    ensures body.Some? && (
      || (body.value.JStr? && !Occurs("trigger", body.value.s))
      || (body.value.JArr? && forall i :: 0 <= i < |body.value.items| ==> body.value.items[i] != JStr("trigger")))
      ==> r == Handled(Reply(400, Error(InvalidRequest)), false)
    ensures body.Some? && body.value.JObj? ==>
      var fields := body.value.fields;
      && r.Handled?
      && (r.reply == Reply(400, Error(InvalidRequest)) <==> "trigger" !in fields)
      && (r.reply == Reply(200, Message(Triggered)) <==> "trigger" in fields && fields["trigger"] == JStr("start"))
      && (r.reply == Reply(400, Error(InvalidTrigger)) <==> "trigger" in fields && fields["trigger"] != JStr("start"))
    ensures r.Handled? ==> (r.startsLoop <==> r.reply.status == 200)
    ensures r.Handled? && r.startsLoop ==> body.Some? && body.value.JObj? && body.value.fields["trigger"] == JStr("start")
    ensures r.Uncaught? <==> body.Some? && RaisesTypeError(body.value)
  {
    if body.None? || !JsonTruthy(body.value) then
      Handled(Reply(400, Error(InvalidRequest)), false)
    else
      match HasTrigger(body.value)
      case None => Uncaught
      case Some(has) =>
        if !has then
          Handled(Reply(400, Error(InvalidRequest)), false)
        else
          match TriggerIsStart(body.value)
          case None => Uncaught
          case Some(isStart) =>
            if isStart then Handled(Reply(200, Message(Triggered)), true)
            else Handled(Reply(400, Error(InvalidTrigger)), false)
  }

  /** `/start_process`: always acknowledged, always starts the loop. */
  function StartProcess(): (r: ViewResult)
    ensures r.Handled? && r.startsLoop && r.reply.status == 200
  {
    Handled(Reply(200, Message(Started)), true)
  }
}
