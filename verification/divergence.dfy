/**
 The two deployments resolve class names differently: the request-per-cycle
 helpers delete spaces and know only flags 4 and 5, the continuous loop turns
 spaces into '-' and knows flags 1 to 5. These lemmas pin down where they agree
 and where they part.
 */
module Divergence {
  import opened Wrappers
  import opened Text
  import Helper
  import Continuous

  /** Every entry of the two-entry table appears, with the same flag, in the five-entry one. */
  lemma HelperTableIncluded()
    ensures forall k :: k in Helper.ClassToFlag ==>
      k in Continuous.ClassToFlag && Continuous.ClassToFlag[k] == Helper.ClassToFlag[k]
  {
  }

  /** A class name without spaces has the same normal form in both deployments. */
  lemma SameNormalFormWithoutSpaces(name: string)
    requires ' ' !in name
    ensures Helper.Normalise(name) == Continuous.Normalise(name) == Lower(name)
  {
    var l := Lower(name);
    assert forall i :: 0 <= i < |l| ==> l[i] != ' ' by {
      assert forall i :: 0 <= i < |name| ==> name[i] in name;
    }
    Helper.DeleteSpacesFixed(l);
  }

  /**
   Without spaces, whatever the helpers resolve the continuous loop resolves to
   the same flag.
   */
  lemma AgreeWithoutSpaces(name: string)
    requires ' ' !in name
    ensures Helper.Resolve(name).Some? ==> Continuous.Resolve(name) == Helper.Resolve(name)
  {
    SameNormalFormWithoutSpaces(name);
    HelperTableIncluded();
  }

  /**
   In the continuous loop a class name with a space can only resolve to flag 1
   (the only key holding a '-' is "non-biodegradable"), so the biogas
   categories 4 and 5 are reachable only by names written without spaces.
   */
  lemma SpacedNamesOnlyReachFlagOne(name: string)
    requires ' ' in name
    ensures Continuous.Resolve(name).Some? ==> Continuous.Resolve(name) == Some(1)
  {
    var k := Continuous.Normalise(name);
    var i :| 0 <= i < |name| && name[i] == ' ';
    Continuous.NormaliseShape(name);
    assert k[i] == '-';
    assert '-' in k;
    DashedKey(k);
  }

  lemma BiogasReadyDashed()
    ensures Continuous.Normalise("Biogas Ready") == "biogas-ready"
  {
    assert Lower("Biogas Ready") == "biogas ready";
    assert Continuous.SpacesToDashes("biogas ready") == "biogas-ready";
  }

  lemma NonBiodegradableDashed()
    ensures Continuous.Normalise("Non Biodegradable") == "non-biodegradable"
  {
    NonBiodegradableSpacedLowered();
    NonBiodegradableSpacedDashed();
  }

  lemma NonBiodegradableSpacedLowered()
    ensures Lower("Non Biodegradable") == "non biodegradable"
  {
  }

  lemma NonBiodegradableSpacedDashed()
    ensures Continuous.SpacesToDashes("non biodegradable") == "non-biodegradable"
  {
  }

  lemma NonBiodegradableSquashed()
    ensures Helper.Normalise("Non Biodegradable") == "nonbiodegradable"
  {
    NonBiodegradableSpaceless();
    NonBiodegradableNormal();
  }

  lemma NonBiodegradableSpaceless()
    ensures Helper.Normalise("Non Biodegradable") == Helper.Normalise("NonBiodegradable")
  {
    Helper.NormaliseIgnoresSpace("Non", "Biodegradable");
    assert "Non" + " " + "Biodegradable" == "Non Biodegradable";
    assert "Non" + "Biodegradable" == "NonBiodegradable";
  }

  lemma NonBiodegradableNormal()
    ensures Helper.Normalise("NonBiodegradable") == "nonbiodegradable"
  {
    Helper.NormalisesTo("NonBiodegradable", "nonbiodegradable");
  }

  lemma BiogasReadyUnknownToLoop()
    ensures Continuous.Resolve("Biogas Ready") == None
  {
    BiogasReadyDashed();
    assert "biogas-ready" !in Continuous.ClassToFlag;
  }

  /** The only key of the five-entry table that holds a '-' is "non-biodegradable". */
  lemma DashedKey(k: string)
    requires '-' in k
    ensures k in Continuous.ClassToFlag ==> k == "non-biodegradable"
  {
    if k in Continuous.ClassToFlag && k != "non-biodegradable" {
      DashFreeKeys();
    }
  }

  lemma DashFreeKeys()
    ensures '-' !in "biodegradable" && '-' !in "common"
    ensures '-' !in "nonbiogasready" && '-' !in "biogasready"
  {
  }

  /** "Biogas Ready" is biogas-ready to the helpers and unknown to the continuous loop. */
  lemma BiogasReadyDiverges()
    ensures Helper.Resolve("Biogas Ready") == Some(4)
    ensures Continuous.Resolve("Biogas Ready") == None
  {
    Helper.BiogasReadyVariants();
    BiogasReadyUnknownToLoop();
  }

  /** "Non Biodegradable" is flag 1 to the continuous loop and unknown to the helpers. */
  lemma NonBiodegradableDiverges()
    ensures Continuous.Resolve("Non Biodegradable") == Some(1)
    ensures Helper.Resolve("Non Biodegradable") == None
  {
    NonBiodegradableDashed();
    assert Continuous.ClassToFlag["non-biodegradable"] == 1;
    NonBiodegradableSquashed();
    assert "nonbiodegradable" !in Helper.ClassToFlag;
  }
}
