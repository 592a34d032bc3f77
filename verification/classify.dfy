/** The keyword classifier of categorize_books (books_catigory2.py, lines
    52-61): a kept file goes to the first category, in declaration order,
    that has a trigger phrase among the file's words. */
module Classify {
  import opened Options
  import opened Text
  import opened Filenames
  import opened Tables

  /** Index of the first entry of `table` whose trigger set meets `words`. */
  function FirstMatch(words: set<string>, table: seq<(string, set<string>)>): (r: Option<nat>)
    ensures r.Some? ==> r.value < |table| && words * table[r.value].1 != {}
    ensures r.Some? ==> forall j :: 0 <= j < r.value ==> words * table[j].1 == {}
    ensures r.None? <==> forall j :: 0 <= j < |table| ==> words * table[j].1 == {}
  {
    if table == [] then None
    else if words * table[0].1 != {} then Some(0)
    else match FirstMatch(words, table[1..])
      case None => None
      case Some(j) => Some(j + 1)
  }

  /** Any entry that matches and has no matching entry before it is the one
      FirstMatch picks. */
  lemma FirstMatchAt(words: set<string>, table: seq<(string, set<string>)>, i: nat)
    requires i < |table| && words * table[i].1 != {}
    requires forall j :: 0 <= j < i ==> words * table[j].1 == {}
    ensures FirstMatch(words, table) == Some(i)
  {
    assert FirstMatch(words, table).Some?;
  }

  /** The category the keyword pass gives a file name: the first one, in
      declaration order, whose triggers meet its words; None when no category
      matches (the file is deferred to clustering). */
  function Category(name: string): (r: Option<string>)
    ensures r.Some? ==> exists i :: 0 <= i < |Categories| && r.value == Categories[i].0 &&
                                    Words(name) * Categories[i].1 != {} &&
                                    forall j :: 0 <= j < i ==> Words(name) * Categories[j].1 == {}
    ensures r.None? <==> forall i :: 0 <= i < |Categories| ==> Words(name) * Categories[i].1 == {}
  {
    match FirstMatch(Words(name), Categories)
      case None => None
      case Some(i) => Some(Categories[i].0)
  }

  /** A static category name is never empty and starts with a capital. */
  lemma CategoryCapitalised(name: string)
    requires Category(name).Some?
    ensures Category(name).value != [] && IsUpper(Category(name).value[0])
  {
    CategoryNamesCapitalised();
  }

  /** "javascript" is a trigger of both Programming and Web; Programming is
      declared first, so a file with that word never lands in Web (it may
      still go to AI, which is declared before both). */
  lemma JavascriptNeverWeb(name: string)
    requires "javascript" in Words(name)
    ensures Category(name) == Some("AI") || Category(name) == Some("Programming")
  {
    var w := Words(name);
    assert "javascript" in w * Categories[1].1;
    if w * Categories[0].1 != {} {
      FirstMatchAt(w, Categories, 0);
    } else {
      FirstMatchAt(w, Categories, 1);
    }
  }

  /** A table entry all of whose triggers hold a space is never the first
      match for the words of a file name, since no word holds a space. */
  lemma SpacedEntryNeverMatches(name: string, i: nat)
    requires i < |Categories|
    requires forall t :: t in Categories[i].1 ==> !NoSpace(t)
    ensures FirstMatch(Words(name), Categories) != Some(i)
  {
    assert Words(name) * Categories[i].1 == {};
  }

  lemma SolarPanelsIndex(i: nat)
    requires i < |Categories| && Categories[i].0 == "Solar Panels"
    ensures i == 9
  {
  }

  lemma ControlIndex(i: nat)
    requires i < |Categories| && Categories[i].0 == "Control"
    ensures i == 10
  {
  }

  lemma DataScienceIndex(i: nat)
    requires i < |Categories| && Categories[i].0 == "Data Science"
    ensures i == 15
  {
  }

  /** Both triggers of Solar Panels are phrases of two words, so the
      category is never chosen. */
  lemma SolarPanelsNeverChosen(name: string)
    ensures Category(name) != Some("Solar Panels")
  {
    assert "solar panel"[5] == ' ' && "solar energy"[5] == ' ';
    SpacedEntryNeverMatches(name, 9);
    var r := FirstMatch(Words(name), Categories);
    if r.Some? && Categories[r.value].0 == "Solar Panels" {
      SolarPanelsIndex(r.value);
    }
  }

  /** Both triggers of Control are phrases of two words. */
  lemma ControlNeverChosen(name: string)
    ensures Category(name) != Some("Control")
  {
    assert "control system"[7] == ' ' && "control engineering"[7] == ' ';
    SpacedEntryNeverMatches(name, 10);
    var r := FirstMatch(Words(name), Categories);
    if r.Some? && Categories[r.value].0 == "Control" {
      ControlIndex(r.value);
    }
  }

  /** All three triggers of Data Science are phrases of two words. */
  lemma DataScienceNeverChosen(name: string)
    ensures Category(name) != Some("Data Science")
  {
    assert "data science"[4] == ' ' && "big data"[3] == ' ' && "data visualization"[4] == ' ';
    SpacedEntryNeverMatches(name, 15);
    var r := FirstMatch(Words(name), Categories);
    if r.Some? && Categories[r.value].0 == "Data Science" {
      DataScienceIndex(r.value);
    }
  }

  /** No trigger phrase is "ai.pdf", in each third of the table. */
  lemma AiPdfNoTriggerLow(i: nat)
    requires i < 7
    ensures "ai.pdf" !in Categories[i].1
  {
  }

  lemma AiPdfNoTriggerMid(i: nat)
    requires 7 <= i < 14
    ensures "ai.pdf" !in Categories[i].1
  {
  }

  lemma AiPdfNoTriggerHigh(i: nat)
    requires 14 <= i < 21
    ensures "ai.pdf" !in Categories[i].1
  {
  }

  /** "ai.pdf" has the single word "ai.pdf", which is no trigger: the ".pdf"
      stays glued to the last word, so a file named after a one-word trigger
      is not classified by it. */
  lemma AiPdfUnclassified()
    ensures Category("ai.pdf") == None
  {
    AiPdfWords();
    forall i | 0 <= i < |Categories| ensures Words("ai.pdf") * Categories[i].1 == {} {
      if i < 7 { AiPdfNoTriggerLow(i); }
      else if i < 14 { AiPdfNoTriggerMid(i); }
      else { AiPdfNoTriggerHigh(i); }
    }
  }
}
