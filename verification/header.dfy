/** determine_header_category (books_catigory2.py, lines 89-93): the header
    folder of a category is the first header whose list names it, or
    "Other". */
module Header {
  import opened Options
  import opened Text
  import opened Tables

  /** Index of the first header whose list holds the category. */
  function HeaderIndex(category: string, hs: seq<(string, seq<string>)>): (r: Option<nat>)
    ensures r.Some? ==> r.value < |hs| && category in hs[r.value].1
    ensures r.Some? ==> forall j :: 0 <= j < r.value ==> category !in hs[j].1
    ensures r.None? <==> forall j :: 0 <= j < |hs| ==> category !in hs[j].1
  {
    if hs == [] then None
    else if category in hs[0].1 then Some(0)
    else match HeaderIndex(category, hs[1..])
      case None => None
      case Some(j) => Some(j + 1)
  }

  function DetermineHeader(category: string): (r: string)
    ensures r == "Other" || exists i :: 0 <= i < |Headers| && r == Headers[i].0 && category in Headers[i].1
  {
    match HeaderIndex(category, Headers)
      case None => "Other"
      case Some(i) => Headers[i].0
  }

  lemma OtherIndex(i: nat)
    requires i < |Headers|
    ensures Headers[i].0 != "Other"
  {
  }

  /** "Other" exactly when no header lists the category. */
  lemma OtherIff(category: string)
    ensures DetermineHeader(category) == "Other" <==>
      forall i :: 0 <= i < |Headers| ==> category !in Headers[i].1
  {
    var r := HeaderIndex(category, Headers);
    if r.Some? {
      OtherIndex(r.value);
    }
  }

  /** A name without capitals, such as every emergent category, is listed
      under no header, so it goes to "Other". */
  lemma EmergentToOther(category: string)
    requires NoUpper(category)
    ensures DetermineHeader(category) == "Other"
  {
    HeaderEntriesCapitalised();
    assert category == [] || !IsUpper(category[0]);
    OtherIff(category);
  }

  /** Solar Panels is a category no header lists. */
  lemma SolarPanelsToOther()
    ensures DetermineHeader("Solar Panels") == "Other"
  {
    OtherIff("Solar Panels");
  }

  /** Web is listed under Technology. */
  lemma WebToTechnology()
    ensures DetermineHeader("Web") == "Technology"
  {
    assert "Web" in Headers[0].1;
    assert HeaderIndex("Web", Headers) == Some(0);
  }
}
