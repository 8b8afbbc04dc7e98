/**
 What both deployments share once the object detector is abstracted: a captured
 frame is represented by the class names the detector reports for it, in order
 (for helper.py the names of every box of every result; m.py iterates the
 prediction itself as class names), a capture either yields such a frame or nothing,
 and detected labels are turned into flags through a class-to-flag table.
 */
module Detection {
  import opened Wrappers

  /** The class names the detector reports for one captured image, in report order. */
  datatype Frame = Frame(classNames: seq<string>)

  /** The outcome of a camera fetch: `None` on a transport, status or decode failure. */
  type Capture = Option<Frame>

  /** A dictionary lookup `table.get(key)`: the value stored under `key`, if any. */
  function Lookup(table: map<string, nat>, key: string): (r: Option<nat>)
    ensures r.Some? <==> key in table
    ensures key in table ==> r == Some(table[key])
    ensures r.Some? ==> r.value in table.Values
  {
    if key in table then Some(table[key]) else None
  }

  /**
   The detection loop: one flag per name that resolves, in detection order;
   labels that do not resolve are skipped and the scan goes on.
   */
  function MatchedFlags(resolve: string -> Option<nat>, names: seq<string>): (r: seq<nat>)
    ensures |r| <= |names|
    ensures forall f :: f in r <==> exists i :: 0 <= i < |names| && resolve(names[i]) == Some(f)
    decreases |names|
  {
    if names == [] then
      []
    else
      var rest := MatchedFlags(resolve, names[1..]);
      assert forall i :: 1 <= i < |names| ==> names[1..][i - 1] == names[i];
      match resolve(names[0])
      case Some(f) => [f] + rest
      case None => rest
  }

  /** The flag list of a concatenation is the concatenation of the flag lists. */
  lemma {:induction false} MatchedFlagsAppend(resolve: string -> Option<nat>, a: seq<string>, b: seq<string>)
    ensures MatchedFlags(resolve, a + b) == MatchedFlags(resolve, a) + MatchedFlags(resolve, b)
    decreases |a|
  {
    if a == [] {
      assert a + b == b;
    } else {
      assert (a + b)[0] == a[0];
      assert (a + b)[1..] == a[1..] + b;
      MatchedFlagsAppend(resolve, a[1..], b);
    }
  }

  /** A single name contributes exactly its resolved flag, or nothing. */
  lemma MatchedFlagsSingle(resolve: string -> Option<nat>, name: string)
    ensures MatchedFlags(resolve, [name]) == (if resolve(name).Some? then [resolve(name).value] else [])
  {
    assert [name][1..] == [];
  }

  /** An unresolvable name anywhere in the detections changes nothing. */
  lemma UnmatchedLabelIgnored(resolve: string -> Option<nat>, a: seq<string>, name: string, b: seq<string>)
    requires resolve(name).None?
    ensures MatchedFlags(resolve, a + [name] + b) == MatchedFlags(resolve, a + b)
  {
    MatchedFlagsAppend(resolve, a + [name], b);
    MatchedFlagsAppend(resolve, a, [name]);
    MatchedFlagsSingle(resolve, name);
    MatchedFlagsAppend(resolve, a, b);
  }

  /** `min(flags)`: an element of the list that no element undercuts. */
  function MinOf(s: seq<nat>): (m: nat)
    requires |s| > 0
    ensures m in s
    ensures forall x :: x in s ==> m <= x
    decreases |s|
  {
    if |s| == 1 then
      s[0]
    else
      var t := MinOf(s[1..]);
      assert forall x :: x in s ==> x == s[0] || x in s[1..];
      if s[0] <= t then s[0] else t
  }

  /** The minimum is unique: any member bounding the list from below is it. */
  lemma MinOfUnique(s: seq<nat>, m: nat)
    requires m in s && forall x :: x in s ==> m <= x
    ensures MinOf(s) == m
  {
  }

  /** The minimum over [5, 4, 5] is 4. */
  lemma MinOfExample()
    ensures MinOf([5, 4, 5]) == 4
  {
    MinOfUnique([5, 4, 5], 4);
  }
}
