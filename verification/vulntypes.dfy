/**
 * `_detect_vulnerability_types`: the vulnerability types whose keywords
 * occur, as substrings, in the lower-cased description and topics.
 */
module VulnTypes {
  import opened Text

  /** One row of `vuln_keywords`: a type name and its keywords. */
  type KeywordTable = seq<(string, seq<string>)>

  /** `vuln_keywords`, in declaration order (dicts keep insertion order). */
  const VulnKeywords: KeywordTable := [
    ("SQL Injection", ["sql injection", "sqli", "sql-injection"]),
    ("XSS", ["xss", "cross-site scripting", "cross site scripting"]),
    ("CSRF", ["csrf", "cross-site request forgery"]),
    ("Command Injection", ["command injection", "rce", "remote code execution"]),
    ("Path Traversal", ["path traversal", "directory traversal", "lfi"]),
    ("Authentication", ["authentication", "broken auth", "session"]),
    ("SSRF", ["ssrf", "server-side request forgery"]),
    ("XXE", ["xxe", "xml external entity"]),
    ("Insecure Deserialization", ["deserialization", "pickle", "serialization"]),
    ("API Security", ["api", "rest api", "graphql"]),
    ("OWASP Top 10", ["owasp", "top 10", "top10"])
  ]

  /** `all_text`: lower-cased description, a space, then the lower-cased topics joined by spaces. */
  function MetadataText(description: string, topics: seq<string>): string {
    Lower(description) + " " + JoinSpace(LowerAll(topics))
  }

  /** `any(keyword in all_text for keyword in keywords)`. */
  predicate MentionsAny(keywords: seq<string>, text: string) {
    exists k | k in keywords :: IsInfix(k, text)
  }

  /** The names of the rows of `table` with a keyword in `text`, in table order. */
  function Detected(table: KeywordTable, text: string): seq<string>
    decreases |table|
  {
    if table == [] then []
    else
      var last := table[|table| - 1];
      Detected(table[..|table| - 1], text) + (if MentionsAny(last.1, text) then [last.0] else [])
  }

  /** The table positions `Detected` picks, in the same order. */
  ghost function DetectedRows(table: KeywordTable, text: string): seq<nat>
    decreases |table|
  {
    if table == [] then []
    else
      var last := table[|table| - 1];
      DetectedRows(table[..|table| - 1], text) + (if MentionsAny(last.1, text) then [|table| - 1] else [])
  }

  /** The type names of a table are pairwise distinct. */
  predicate DistinctNames(table: KeywordTable) {
    forall i, j :: 0 <= i < j < |table| ==> table[i].0 != table[j].0
  }

  /**
   * The loop of the source: for each row in order, append its name when
   * one of its keywords occurs in the metadata text.
   */
  method DetectVulnerabilityTypes(description: string, topics: seq<string>) returns (types: seq<string>)
    ensures types == Detected(VulnKeywords, MetadataText(description, topics))
    ensures forall t :: t in types <==>
      exists j :: 0 <= j < |VulnKeywords| && VulnKeywords[j].0 == t
        && MentionsAny(VulnKeywords[j].1, MetadataText(description, topics))
    ensures forall i, j :: 0 <= i < j < |types| ==> types[i] != types[j]
  {
    var allText := MetadataText(description, topics);
    types := [];
    var i := 0;
    while i < |VulnKeywords|
      invariant 0 <= i <= |VulnKeywords|
      invariant types == Detected(VulnKeywords[..i], allText)
    {
      var row := VulnKeywords[i];
      assert VulnKeywords[..i + 1][..i] == VulnKeywords[..i];
      if MentionsAny(row.1, allText) {
        types := types + [row.0];
      }
      i := i + 1;
    }
    assert VulnKeywords[..i] == VulnKeywords;
    DetectedInTableOrder(VulnKeywords, allText);
    VulnTypeNamesDistinct();
    DetectedDistinct(VulnKeywords, allText);
  }

  /**
   * `Detected` lists exactly the rows that have a keyword in the text, each
   * by its name, at strictly increasing table positions.
   */
  lemma {:induction false} DetectedInTableOrder(table: KeywordTable, text: string)
    ensures |DetectedRows(table, text)| == |Detected(table, text)|
    ensures forall i :: 0 <= i < |Detected(table, text)| ==>
      DetectedRows(table, text)[i] < |table|
      && Detected(table, text)[i] == table[DetectedRows(table, text)[i]].0
      && MentionsAny(table[DetectedRows(table, text)[i]].1, text)
    ensures forall i, j :: 0 <= i < j < |DetectedRows(table, text)| ==>
      DetectedRows(table, text)[i] < DetectedRows(table, text)[j]
    ensures forall j :: 0 <= j < |table| && MentionsAny(table[j].1, text) ==>
      j in DetectedRows(table, text)
    decreases |table|
  {
    if table != [] {
      var init := table[..|table| - 1];
      DetectedInTableOrder(init, text);
      forall j | 0 <= j < |init| ensures init[j] == table[j] { }
    }
  }

  /** Membership: a type is reported iff one of its row's keywords occurs. */
  lemma DetectedMembership(table: KeywordTable, text: string, t: string)
    ensures t in Detected(table, text) <==>
      exists j :: 0 <= j < |table| && table[j].0 == t && MentionsAny(table[j].1, text)
  {
    DetectedInTableOrder(table, text);
    var d, rows := Detected(table, text), DetectedRows(table, text);
    if t in d {
      var i :| 0 <= i < |d| && d[i] == t;
      assert table[rows[i]].0 == t && MentionsAny(table[rows[i]].1, text);
    }
    if exists j :: 0 <= j < |table| && table[j].0 == t && MentionsAny(table[j].1, text) {
      var j :| 0 <= j < |table| && table[j].0 == t && MentionsAny(table[j].1, text);
      assert j in rows;
      var i :| 0 <= i < |rows| && rows[i] == j;
      assert d[i] == t;
    }
  }

  /** With distinct row names, no type is reported twice. */
  lemma DetectedDistinct(table: KeywordTable, text: string)
    requires DistinctNames(table)
    ensures forall i, j :: 0 <= i < j < |Detected(table, text)| ==>
      Detected(table, text)[i] != Detected(table, text)[j]
  {
    DetectedInTableOrder(table, text);
  }

  /** The eleven type names of `vuln_keywords` are distinct. */
  lemma VulnTypeNamesDistinct()
    ensures DistinctNames(VulnKeywords)
  {
  }

  /** A text shorter than every keyword of the table matches no row. */
  lemma {:induction false} ShortTextDetectsNothing(table: KeywordTable, text: string)
    requires forall j, k :: 0 <= j < |table| && k in table[j].1 ==> |k| > |text|
    ensures Detected(table, text) == []
    decreases |table|
  {
    if table != [] {
      var init := table[..|table| - 1];
      ShortTextDetectsNothing(init, text);
      var last := table[|table| - 1];
      assert !MentionsAny(last.1, text) by {
        forall k | k in last.1 ensures !IsInfix(k, text) {
          assert |k| > |text|;
        }
      }
    }
  }

  /** With no description and no topics the text is " ", and no type is reported. */
  lemma EmptyMetadataDetectsNothing()
    ensures Detected(VulnKeywords, MetadataText("", [])) == []
  {
    assert MetadataText("", []) == " ";
    ShortTextDetectsNothing(VulnKeywords, " ");
  }
}
