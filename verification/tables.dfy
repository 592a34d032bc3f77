/** The two constant tables of the classifier, in declaration order. */
module Tables {
  import opened Text

  /** CATEGORIES: category name and its trigger phrases, scanned in this order. */
  const Categories: seq<(string, set<string>)> := [
    ("AI", {"ai", "artificial intelligence", "machine learning", "deep learning", "neural network"}),
    ("Programming", {"programming", "python", "java", "c++", "javascript", "coding"}),
    ("Mathematics", {"mathematics", "math", "calculus", "algebra", "statistics", "probability"}),
    ("Science", {"science", "physics", "chemistry", "biology", "renewable energy", "fuzzy"}),
    ("Philosophy", {"philosophy", "ethics", "logic"}),
    ("History", {"history", "historical"}),
    ("Fiction", {"fiction", "novel", "story"}),
    ("Mechatronics", {"mechatronics"}),
    ("Robotics", {"robotics", "robot", "mobile robots", "autonomous robots"}),
    ("Solar Panels", {"solar panel", "solar energy"}),
    ("Control", {"control system", "control engineering"}),
    ("Electricity", {"electricity", "electrical engineering"}),
    ("Web", {"web development", "html", "css", "javascript", "frontend", "backend"}),
    ("Cloud Computing", {"cloud computing", "aws", "azure", "google cloud"}),
    ("Cybersecurity", {"cybersecurity", "network security", "encryption", "hacking"}),
    ("Data Science", {"data science", "big data", "data visualization"}),
    ("DevOps", {"devops", "docker", "kubernetes"}),
    ("Blockchain", {"blockchain", "bitcoin", "ethereum", "cryptocurrency"}),
    ("IoT", {"iot", "internet of things", "smart devices"}),
    ("Game Development", {"game development", "unity", "unreal engine"}),
    ("Mobile Development", {"mobile development", "android", "ios", "flutter"})
  ]

  /** HEADER_CATEGORIES: header folder and the categories it holds. */
  const Headers: seq<(string, seq<string>)> := [
    ("Technology", ["AI", "Programming", "Web", "Cybersecurity", "Cloud Computing", "Data Science",
                    "DevOps", "Blockchain", "IoT", "Game Development", "Mobile Development"]),
    ("Science", ["Mathematics", "Science", "Physics", "Biology", "Chemistry"]),
    ("Engineering", ["Mechatronics", "Robotics", "Control", "Embedded", "Electricity"]),
    ("Humanities", ["Philosophy", "History", "Fiction"])
  ]

  /** Every static category name begins with an upper-case letter. */
  lemma CategoryNamesCapitalised()
    ensures forall i :: 0 <= i < |Categories| ==>
      Categories[i].0 != [] && IsUpper(Categories[i].0[0])
  {
  }

  /** Every name listed under a header begins with an upper-case letter. */
  lemma HeaderEntriesCapitalised()
    ensures forall i, j :: 0 <= i < |Headers| && 0 <= j < |Headers[i].1| ==>
      Headers[i].1[j] != [] && IsUpper(Headers[i].1[j][0])
  {
  }
}
