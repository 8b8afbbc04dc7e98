/**
 The detection helpers of the request-per-cycle deployment: the two-entry
 class-to-flag table, label normalisation by lower-casing and deleting spaces,
 flag resolution, and the polythene test.
 */
module Helper {
  import opened Wrappers
  import opened Text
  import opened Detection

  /** Biogas-ready waste is flag 4, non-biogas-ready waste flag 5. */
  const ClassToFlag: map<string, nat> := map["biogasready" := 4, "nonbiogasready" := 5]

  /** `s.replace(" ", "")`. */
  function DeleteSpaces(s: string): string
    decreases |s|
  {
    if s == [] then [] else (if s[0] == ' ' then [] else [s[0]]) + DeleteSpaces(s[1..])
  }

  /** A detector class name in table form: lower-cased, every space deleted. */
  function Normalise(name: string): string
  {
    DeleteSpaces(Lower(name))
  }

  /** The flag a class name resolves to, if its normal form is a table key. */
  function Resolve(name: string): Option<nat>
  {
    Lookup(ClassToFlag, Normalise(name))
  }

  lemma {:induction false} DeleteSpacesAppend(a: string, b: string)
    ensures DeleteSpaces(a + b) == DeleteSpaces(a) + DeleteSpaces(b)
    decreases |a|
  {
    if a == [] {
      assert a + b == b;
    } else {
      assert (a + b)[0] == a[0];
      assert (a + b)[1..] == a[1..] + b;
      DeleteSpacesAppend(a[1..], b);
    }
  }

  lemma {:induction false} DeleteSpacesContents(s: string)
    ensures forall c :: c in DeleteSpaces(s) <==> c in s && c != ' '
    decreases |s|
  {
    if s != [] {
      DeleteSpacesContents(s[1..]);
      assert forall c :: c in s <==> c == s[0] || c in s[1..];
    }
  }

  /** Normalising distributes over concatenation. */
  lemma NormaliseAppend(a: string, b: string)
    ensures Normalise(a + b) == Normalise(a) + Normalise(b)
  {
    LowerAppend(a, b);
    DeleteSpacesAppend(Lower(a), Lower(b));
  }

  /** Inserting a space anywhere in a class name does not change its normal form. */
  lemma NormaliseIgnoresSpace(a: string, b: string)
    ensures Normalise(a + " " + b) == Normalise(a + b)
  {
    NormaliseAppend(a + " ", b);
    NormaliseAppend(a, " ");
    NormaliseAppend(a, b);
    assert Lower(" ") == " ";
    assert DeleteSpaces(" ") == [];
  }

  /** Two class names that agree letter by letter up to case have the same normal form. */
  lemma NormaliseIgnoresCase(s: string, t: string)
    requires |s| == |t| && forall i :: 0 <= i < |s| ==> LowerChar(s[i]) == LowerChar(t[i])
    ensures Normalise(s) == Normalise(t)
  {
    assert Lower(s) == Lower(t);
  }

  /** A normal form has no space and no upper-case letter, and is its own normal form. */
  lemma NormalFormIsNormal(name: string)
    ensures forall c :: c in Normalise(name) ==> c != ' ' && !IsUpper(c)
    ensures Normalise(Normalise(name)) == Normalise(name)
  {
    var k := Normalise(name);
    DeleteSpacesContents(Lower(name));
    LowerIdempotent(name);
    assert forall c :: c in Lower(name) ==> !IsUpper(c);
    LowerFixed(k);
    DeleteSpacesFixed(k);
  }

  lemma {:induction false} DeleteSpacesFixed(s: string)
    requires ' ' !in s
    ensures DeleteSpaces(s) == s
    decreases |s|
  {
    if s != [] {
      assert s[0] in s;
      assert forall c :: c in s[1..] ==> c in s;
      DeleteSpacesFixed(s[1..]);
      assert s == [s[0]] + s[1..];
    }
  }

  /**
   A class name resolves exactly when its normal form is a table key, and then to
   that key's flag (4 or 5).
   */
  lemma ResolveMeaning(name: string)
    ensures Resolve(name).Some? <==> Normalise(name) in ClassToFlag
    ensures Resolve(name).Some? ==> Resolve(name).value == ClassToFlag[Normalise(name)]
    ensures Resolve(name).Some? ==> Resolve(name).value in {4, 5}
  {
  }

  /** A space-free name whose lower-cased form is `key` normalises to `key`, as does `key` itself. */
  lemma NormalisesTo(name: string, key: string)
    requires Lower(name) == key && ' ' !in key
    ensures Normalise(name) == key == Normalise(key)
  {
    LowerIdempotent(name);
    DeleteSpacesFixed(key);
  }

  lemma SpacedBiogasReady()
    ensures Normalise("Biogas Ready") == Normalise("BiogasReady")
  {
    NormaliseIgnoresSpace("Biogas", "Ready");
    assert "Biogas" + " " + "Ready" == "Biogas Ready";
    assert "Biogas" + "Ready" == "BiogasReady";
  }

  /** "Biogas Ready", "BiogasReady" and "biogasready" all resolve to flag 4. */
  lemma BiogasReadyVariants()
    ensures Resolve("Biogas Ready") == Resolve("BiogasReady") == Resolve("biogasready") == Some(4)
  {
    NormalisesTo("BiogasReady", "biogasready");
    SpacedBiogasReady();
  }

  /** "NonBiogasReady" resolves to flag 5. */
  lemma NonBiogasReadyResolves()
    ensures Resolve("NonBiogasReady") == Some(5)
  {
    NormalisesTo("NonBiogasReady", "nonbiogasready");
  }

  /**
   `detect_polythene`: false without a frame; otherwise true exactly when some
   class name, lower-cased, contains "polythene".
   */
  function DetectPolythene(frame: Capture): (r: bool)
    ensures frame.None? ==> !r
    ensures frame.Some? ==>
      (r <==> exists i :: 0 <= i < |frame.value.classNames| && Occurs("polythene", Lower(frame.value.classNames[i])))
  {
    frame.Some? && AnyPolythene(frame.value.classNames)
  }

  /** The scan of `detect_polythene`, stopping at the first polythene class name. */
  function AnyPolythene(names: seq<string>): (r: bool)
    ensures r <==> exists i :: 0 <= i < |names| && Occurs("polythene", Lower(names[i]))
    decreases |names|
  {
    if names == [] then
      false
    else
      assert forall i :: 1 <= i < |names| ==> names[1..][i - 1] == names[i];
      Contains(Lower(names[0]), "polythene") || AnyPolythene(names[1..])
  }

  /**
   `detect_biodegradable`: no flags without a frame; otherwise one flag per
   resolvable class name, in detection order, each 4 or 5.
   */
  function DetectBiodegradable(frame: Capture): (r: seq<nat>)
    ensures frame.None? ==> r == []
    ensures forall f :: f in r ==> f in ClassToFlag.Values && (f == 4 || f == 5)
    ensures frame.Some? ==>
      forall f :: f in r <==> exists i :: 0 <= i < |frame.value.classNames| && Resolve(frame.value.classNames[i]) == Some(f)
  {
    if frame.None? then [] else MatchedFlags(Resolve, frame.value.classNames)
  }

  /** The flags of two detection runs laid end to end are the two flag lists laid end to end. */
  lemma DetectBiodegradableAppend(a: seq<string>, b: seq<string>)
    ensures DetectBiodegradable(Some(Frame(a + b)))
         == DetectBiodegradable(Some(Frame(a))) + DetectBiodegradable(Some(Frame(b)))
  {
    MatchedFlagsAppend(Resolve, a, b);
  }

  /** "BiogasReady" with "NonBiogasReady" yields flags [4, 5], whose minimum is 4. */
  lemma MixedBinExample()
    ensures DetectBiodegradable(Some(Frame(["BiogasReady", "NonBiogasReady"]))) == [4, 5]
    ensures MinOf([4, 5]) == 4
  {
    BiogasReadyVariants();
    NonBiogasReadyResolves();
    TwoResolvedNames("BiogasReady", "NonBiogasReady");
    MinOfUnique([4, 5], 4);
  }

  lemma TwoResolvedNames(a: string, b: string)
    requires Resolve(a).Some? && Resolve(b).Some?
    ensures DetectBiodegradable(Some(Frame([a, b]))) == [Resolve(a).value, Resolve(b).value]
  {
    assert [a, b] == [a] + [b];
    MatchedFlagsAppend(Resolve, [a], [b]);
    MatchedFlagsSingle(Resolve, a);
    MatchedFlagsSingle(Resolve, b);
  }
}
