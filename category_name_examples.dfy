/**
 * Three storefront category keys and the headings they produce, each worked
 * through the passes of CategoryName.FormatCategoryName.
 */
module CategoryNameExamples {
  import opened Text
  import opened CategoryName

  lemma IndoorPlantsSplit()
    ensures SplitAcronymScan(SplitCamelScan("indoorPlants", 0), 0) == "indoor Plants"
  {
    assert SplitCamelScan("indoorPlants", 0) == "indoor Plants";
    assert forall i :: !AcronymAt("indoor Plants", i);
    SplitAcronymScanFixes("indoor Plants");
  }

  lemma IndoorPlantsCase()
    ensures CapitalizeWords(Lower(UnderscoresToSpaces("indoor Plants"))) == "Indoor Plants"
  {
    assert UnderscoresToSpaces("indoor Plants") == "indoor Plants";
    assert Lower("indoor Plants") == "indoor plants";
    assert CapitalizeWords("indoor plants") == "Indoor Plants";
  }

  /** A camel-case key is split at its lower-to-upper boundary. */
  lemma FormatCamelCaseExample()
    ensures FormatCategoryName("indoorPlants") == "Indoor Plants"
  {
    IndoorPlantsSplit();
    IndoorPlantsCase();
  }

  lemma ClearanceSaleSplit()
    ensures SplitAcronymScan(SplitCamelScan("CLEARANCE_sale", 0), 0) == "CLEARANCE_sale"
  {
    assert forall i :: !CamelAt("CLEARANCE_sale", i) && !AcronymAt("CLEARANCE_sale", i);
    SplitCamelScanFixes("CLEARANCE_sale");
    SplitAcronymScanFixes("CLEARANCE_sale");
  }

  lemma ClearanceSaleLower()
    ensures Lower(UnderscoresToSpaces("CLEARANCE_sale")) == "clearance sale"
  {
    assert UnderscoresToSpaces("CLEARANCE_sale") == "CLEARANCE sale";
  }

  lemma ClearanceSaleCapitalize()
    ensures CapitalizeWords("clearance sale") == "Clearance Sale"
  {
  }

  /** An upper-case key with an underscore becomes two capitalized words. */
  lemma FormatSnakeCaseExample()
    ensures FormatCategoryName("CLEARANCE_sale") == "Clearance Sale"
  {
    ClearanceSaleSplit();
    ClearanceSaleLower();
    ClearanceSaleCapitalize();
  }

  /** A single lower-case word only gains its capital. */
  lemma FormatOneWordExample()
    ensures FormatCategoryName("pots") == "Pots"
  {
    assert forall i :: !CamelAt("pots", i) && !AcronymAt("pots", i);
    SplitCamelScanFixes("pots");
    SplitAcronymScanFixes("pots");
    assert UnderscoresToSpaces("pots") == "pots";
    assert Lower("pots") == "pots";
    assert CapitalizeWords("pots") == "Pots";
  }
}
