/**
 * The committee table of src/committees.ts: each abbreviation that may appear as the
 * `Ausschuss` of a resolution names a committee with its full name and the grammatical
 * article the header prints before it; an unknown abbreviation falls back to the Security
 * Council.
 */
module Committees {
  /** The two articles the header may print before a committee name. */
  datatype Article = Der | Die

  function ArticleText(a: Article): (r: string)
    ensures r == "Der" || r == "Die"
    ensures ArticleOf(r) == a
  {
    match a
    case Der => "Der"
    case Die => "Die"
  }

  /** The article written as text, read back. */
  function ArticleOf(s: string): (r: Article)
    ensures r == Der <==> s == "Der"
  {
    if s == "Der" then Der else Die
  }

  datatype CommitteeInfo = CommitteeInfo(name: string, article: Article, abbreviation: string)

  /** The eight committees, keyed by abbreviation. */
  const Table: map<string, CommitteeInfo> := map[
    "SR" := CommitteeInfo("Sicherheitsrat", Der, "SR"),
    "GV" := CommitteeInfo("Generalversammlung", Die, "GV"),
    "AK" := CommitteeInfo("Abr\U{00FC}stungskommission", Die, "AK"),
    "RE" := CommitteeInfo("Kommission f\U{00FC}r Recht und Ethik", Die, "RE"),
    "WUT" := CommitteeInfo("Kommission f\U{00FC}r Wissenschaft, Umwelt und Technik", Die, "WUT"),
    "WS" := CommitteeInfo("Wirtschafts- und Sozialrat", Der, "WS"),
    "BG" := CommitteeInfo("Sonderkommission f\U{00FC}r Bildung und Gesundheit", Die, "BG"),
    "HSR" := CommitteeInfo("Historischer Sicherheitsrat", Der, "HSR")
  ]

  /** The committee used when the abbreviation is not in the table. */
  const Default: CommitteeInfo := CommitteeInfo("Sicherheitsrat", Der, "SR")

  /** `committees[key] || defaultCommittee`: always one of the eight committees, the one
      filed under `key` when there is one and the Security Council otherwise. */
  function Lookup(key: string): (c: CommitteeInfo)
    ensures c in Table.Values
    ensures key in Table ==> c == Table[key] && c.abbreviation == key
    ensures key !in Table ==> c == Default && c.abbreviation == "SR"
  {
    DefaultIsSecurityCouncil();
    if key in Table then AbbreviationIsKey(key); Table[key] else Default
  }

  /** The General Assembly entry. */
  lemma GeneralAssembly()
    ensures Lookup("GV") == CommitteeInfo("Generalversammlung", Die, "GV")
  {
  }

  /** The table knows exactly the eight abbreviations. */
  lemma TableKeys()
    ensures Table.Keys == {"SR", "GV", "AK", "RE", "WUT", "WS", "BG", "HSR"}
  {
  }

  /** Every entry is filed under its own abbreviation. */
  lemma AbbreviationIsKey(key: string)
    requires key in Table
    ensures Table[key].abbreviation == key
  {
  }

  /** The fallback is the Security Council entry itself. */
  lemma DefaultIsSecurityCouncil()
    ensures "SR" in Table && Default == Table["SR"]
  {
  }

  /** The committee looked up is always filed under the abbreviation it reports, and it is the
      one asked for exactly when that abbreviation is known. */
  lemma LookupAbbreviation(key: string)
    ensures Lookup(key).abbreviation == key <==> key in Table
    ensures Lookup(key).abbreviation in Table && Table[Lookup(key).abbreviation] == Lookup(key)
  {
    if key in Table {
      AbbreviationIsKey(key);
    } else {
      DefaultIsSecurityCouncil();
    }
  }
}
