/**
  Worked titles for the normaliser, each an instance of a rule proved in
  TitleRules.  Facts about the literals themselves are kept in small lemmas of
  their own.
*/
module TitleExamples {
  import opened UnicodeTables
  import opened PyStrings
  import opened SeriesTitle
  import opened TitleRules

  /** Folding letters and digits without accents is plain lower-casing. */
  lemma FoldPlain(s: string)
    requires forall k :: 0 <= k < |s| ==> IsAlnum(s[k]) && !HasDecomposition(s[k])
    ensures Fold(s) == Lower(s)
  {
    var l := Lower(s);
    assert forall k :: 0 <= k < |l| ==> !HasDecomposition(l[k]) && !IsMn(l[k]);
  }

  // "Man of Steel": an interior stop word between spaces goes.

  lemma ManOfSteelParts()
    ensures "Man of Steel" == "Man" + [' '] + "of" + [' '] + "Steel"
    ensures IsStopWord("of", 6)
    ensures IsWord("Man") && IsWord("Steel")
    ensures "Man" + "Steel" == "ManSteel"
  {
  }

  lemma ManSteelFolded()
    ensures Fold("Man" + "Steel") == "mansteel"
  {
    ManOfSteelParts();
    assert Lower("ManSteel") == "mansteel";
    FoldPlain("ManSteel");
  }

  lemma ManOfSteel()
    ensures CleanSeriesTitle("Man of Steel") == "mansteel"
  {
    ManOfSteelParts();
    CleanInteriorStopWord("Man", ' ', "of", 6, ' ', "Steel");
    ManSteelFolded();
  }

  // "Man Of Steel": the match ignores case.

  lemma ManOfSteelCapitalParts()
    ensures "Man Of Steel" == "Man" + [' '] + "Of" + [' '] + "Steel"
    ensures IsStopWord("Of", 6)
    ensures IsWord("Man") && IsWord("Steel")
  {
  }

  lemma ManOfSteelCapital()
    ensures CleanSeriesTitle("Man Of Steel") == "mansteel"
  {
    ManOfSteelCapitalParts();
    CleanInteriorStopWord("Man", ' ', "Of", 6, ' ', "Steel");
    ManSteelFolded();
  }

  // "The Wire": a leading stop word stays.

  lemma TheWireParts()
    ensures "The Wire" == "The" + [' '] + "Wire"
    ensures IsWord("The") && IsWord("Wire")
    ensures "The" + "Wire" == "TheWire"
  {
  }

  lemma TheWireFolded()
    ensures Fold("The" + "Wire") == "thewire"
  {
    TheWireParts();
    assert Lower("TheWire") == "thewire";
    FoldPlain("TheWire");
  }

  lemma TheWire()
    ensures CleanSeriesTitle("The Wire") == "thewire"
  {
    TheWireParts();
    CleanTwoWords("The", ' ', "Wire");
    TheWireFolded();
  }

  // "Man of": a final stop word stays.

  lemma ManOfParts()
    ensures "Man of" == "Man" + [' '] + "of"
    ensures IsWord("Man") && IsWord("of")
    ensures "Man" + "of" == "Manof"
  {
  }

  lemma ManOfFolded()
    ensures Fold("Man" + "of") == "manof"
  {
    ManOfParts();
    assert Lower("Manof") == "manof";
    FoldPlain("Manof");
  }

  lemma ManOf()
    ensures CleanSeriesTitle("Man of") == "manof"
  {
    ManOfParts();
    CleanTwoWords("Man", ' ', "of");
    ManOfFolded();
  }

  // "100% Love": the percent sign is spelled out.

  lemma HundredPercentParts()
    ensures "100% Love" == "100" + ['%', ' '] + "Love"
    ensures IsWord("100") && IsWord("Love")
    ensures "100" + "percent" + "Love" == "100percentLove"
  {
  }

  lemma HundredPercentFolded()
    ensures Fold("100" + "percent" + "Love") == "100percentlove"
  {
    HundredPercentParts();
    assert Lower("100percentLove") == "100percentlove";
    FoldPlain("100percentLove");
  }

  lemma HundredPercentLove()
    ensures CleanSeriesTitle("100% Love") == "100percentlove"
  {
    HundredPercentParts();
    CleanPercent("100", "Love");
    HundredPercentFolded();
  }

  // "Fast_and_Furious": `_` separates words, so the stop word between goes.

  lemma FastAndFuriousParts()
    ensures "Fast_and_Furious" == "Fast" + ['_'] + "and" + ['_'] + "Furious"
    ensures IsStopWord("and", 4)
    ensures IsWord("Fast") && IsWord("Furious")
    ensures "Fast" + "Furious" == "FastFurious"
  {
  }

  lemma FastFuriousFolded()
    ensures Fold("Fast" + "Furious") == "fastfurious"
  {
    FastAndFuriousParts();
    assert Lower("FastFurious") == "fastfurious";
    FoldPlain("FastFurious");
  }

  lemma FastAndFurious()
    ensures CleanSeriesTitle("Fast_and_Furious") == "fastfurious"
  {
    FastAndFuriousParts();
    CleanInteriorStopWord("Fast", '_', "and", 4, '_', "Furious");
    FastFuriousFolded();
  }

  // "Lord of the Rings": two stop words in a row both go.

  lemma LordOfTheRingsParts()
    ensures "Lord of the Rings" == "Lord" + [' '] + "of" + [' '] + "the" + [' '] + "Rings"
    ensures IsStopWord("of", 6) && IsStopWord("the", 3)
    ensures IsWord("Lord") && IsWord("Rings")
    ensures "Lord" + "Rings" == "LordRings"
  {
  }

  lemma LordRingsFolded()
    ensures Fold("Lord" + "Rings") == "lordrings"
  {
    LordOfTheRingsParts();
    assert Lower("LordRings") == "lordrings";
    FoldPlain("LordRings");
  }

  lemma LordOfTheRings()
    ensures CleanSeriesTitle("Lord of the Rings") == "lordrings"
  {
    LordOfTheRingsParts();
    CleanTwoInteriorStopWords("Lord", ' ', "of", 6, ' ', "the", 3, ' ', "Rings");
    LordRingsFolded();
  }

  // "The A Team": the leading stop word stays, the interior one goes.

  lemma TheATeamParts()
    ensures "The A Team" == "The" + [' '] + "A" + [' '] + "Team"
    ensures IsStopWord("A", 0)
    ensures IsWord("The") && IsWord("Team")
    ensures "The" + "Team" == "TheTeam"
  {
  }

  lemma TheTeamFolded()
    ensures Fold("The" + "Team") == "theteam"
  {
    TheATeamParts();
    assert Lower("TheTeam") == "theteam";
    FoldPlain("TheTeam");
  }

  lemma TheATeam()
    ensures CleanSeriesTitle("The A Team") == "theteam"
  {
    TheATeamParts();
    CleanInteriorStopWord("The", ' ', "A", 0, ' ', "Team");
    TheTeamFolded();
  }
}
