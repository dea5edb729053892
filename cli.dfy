/**
 * The command's core: the per-id selection loop and the building of the
 * six-column report rows. Searching, fetching, option handling and the CSV
 * writer are outside the model; the fetch result of each id is an input.
 * Line numbers in comments refer to paperfetcher/cli.py.
 */
module Cli {
  import opened Wrappers
  import opened Text
  import opened Seqs
  import opened Models
  import opened Processor

  /** One report row: an insertion-ordered mapping from column name to text. */
  type Row = seq<(string, string)>

  /** The column names, in the order the CSV header takes from the first row. */
  const Header: seq<string> := [
    "PubmedID", "Title", "Publication Date",
    "Non-academic Author(s)", "Company Affiliation(s)", "Corresponding Author Email"
  ]

  /** The column names are pairwise distinct, so each names one column. */
  lemma HeaderDistinct()
    ensures forall i, j :: 0 <= i < j < |Header| ==> Header[i] != Header[j]
  {
    assert Header[3][0] != Header[4][0];
  }

  /** The keys of a row, in order. */
  function Keys(row: Row): (keys: seq<string>)
    ensures |keys| == |row|
    ensures forall i :: 0 <= i < |row| ==> keys[i] == row[i].0
  {
    if |row| == 0 then [] else [row[0].0] + Keys(row[1..])
  }

  /** Looking a column up by name, as `row[key]` does. */
  function Column(row: Row, key: string): Option<string>
  {
    if |row| == 0 then None
    else if row[0].0 == key then Some(row[0].1)
    else Column(row[1..], key)
  }

  /** `[author["name"] for author in authors]`. */
  function AuthorNames(authors: seq<AuthorAffiliation>): (names: seq<string>)
    ensures |names| == |authors|
    ensures forall i :: 0 <= i < |authors| ==> names[i] == authors[i].name
  {
    if |authors| == 0 then [] else [authors[0].name] + AuthorNames(authors[1..])
  }

  /** An author's company when it is truthy. */
  function CompanyText(a: AuthorAffiliation): Option<string>
  {
    if Truthy(a.company) then a.company else None
  }

  /** `[author["company"] for author in authors if author["company"]]`. */
  function CompanyNames(authors: seq<AuthorAffiliation>): seq<string>
  {
    FilterMap(CompanyText, authors)
  }

  /** The report row of one paper (lines 86-101). */
  function ToRow(paper: PaperRecord): (row: Row)
    ensures Keys(row) == Header
  {
    [ ("PubmedID", paper.pubmedId),
      ("Title", paper.title),
      ("Publication Date", paper.publicationDate),
      ("Non-academic Author(s)", Join("; ", AuthorNames(paper.authors))),
      ("Company Affiliation(s)", Join("; ", CompanyNames(paper.authors))),
      ("Corresponding Author Email",
        match paper.correspondingAuthorEmail case Some(e) => e case None => "") ]
  }

  /** The first pair with `key` gives the column. */
  lemma {:induction false} ColumnAt(row: Row, i: nat, key: string)
    requires i < |row| && row[i].0 == key
    requires forall j :: 0 <= j < i ==> row[j].0 != key
    ensures Column(row, key) == Some(row[i].1)
    decreases i
  {
    if i > 0 {
      ColumnAt(row[1..], i - 1, key);
    }
  }

  /** What each named column of a paper's row holds. */
  lemma RowColumns(paper: PaperRecord)
    ensures Column(ToRow(paper), "PubmedID") == Some(paper.pubmedId)
    ensures Column(ToRow(paper), "Title") == Some(paper.title)
    ensures Column(ToRow(paper), "Publication Date") == Some(paper.publicationDate)
    ensures Column(ToRow(paper), "Non-academic Author(s)") == Some(Join("; ", AuthorNames(paper.authors)))
    ensures paper.authors == [] ==> Column(ToRow(paper), "Non-academic Author(s)") == Some("")
    ensures Column(ToRow(paper), "Company Affiliation(s)") == Some(Join("; ", CompanyNames(paper.authors)))
    ensures Column(ToRow(paper), "Corresponding Author Email") ==
              Some(if paper.correspondingAuthorEmail.Some? then paper.correspondingAuthorEmail.value else "")
  {
    var row := ToRow(paper);
    HeaderDistinct();
    assert forall i :: 0 <= i < |row| ==> row[i].0 == Header[i] by {
      assert Keys(row) == Header;
    }
    ColumnAt(row, 0, Header[0]);
    ColumnAt(row, 1, Header[1]);
    ColumnAt(row, 2, Header[2]);
    ColumnAt(row, 3, Header[3]);
    ColumnAt(row, 4, Header[4]);
    ColumnAt(row, 5, Header[5]);
  }

  /** The company column lists the truthy companies in author order, duplicates kept. */
  lemma CompanyColumnInAuthorOrder(authors: seq<AuthorAffiliation>)
    ensures var names, idx := CompanyNames(authors), FilterMapIndices(CompanyText, authors);
            && |names| == |idx| <= |authors|
            && (forall k :: 0 <= k < |idx| ==> idx[k] < |authors| && Truthy(authors[idx[k]].company)
                                                && names[k] == authors[idx[k]].company.value)
            && (forall k, l :: 0 <= k < l < |idx| ==> idx[k] < idx[l])
            && (forall j :: 0 <= j < |authors| && Truthy(authors[j].company) ==> j in idx)
  {
    var names, idx := CompanyNames(authors), FilterMapIndices(CompanyText, authors);
    forall j | 0 <= j < |authors| && Truthy(authors[j].company)
      ensures j in idx
    {
      assert CompanyText(authors[j]).Some?;
    }
  }

  /** `prepare_csv_output` (lines 84-102): one row per paper, in order. */
  method PrepareCsvOutput(papers: seq<PaperRecord>) returns (rows: seq<Row>)
    ensures |rows| == |papers|
    ensures forall i :: 0 <= i < |papers| ==> rows[i] == ToRow(papers[i])
  {
    rows := [];
    for i := 0 to |papers|
      invariant |rows| == i
      invariant forall k :: 0 <= k < i ==> rows[k] == ToRow(papers[k])
    {
      rows := rows + [ToRow(papers[i])];
    }
  }

  // ---------------------------------------------------------------------
  // Selection

  /**
   * What one id contributes to the results: nothing when its fetch gave no
   * content, its document yields no record, no author has a company, or no
   * author is non-academic; otherwise the record reduced to its
   * non-academic authors.
   */
  function Select(fetched: Option<XmlContent>): Option<PaperRecord>
  {
    match fetched
    case None => None
    case Some(xml) =>
      match ParseRecord(xml)
      case None => None
      case Some(paper) =>
        var filtered := FilterNonAcademicAuthors(paper);
        if HasPharmaAffiliation(paper) && filtered.authors != [] then Some(filtered) else None
  }

  /** The results list after the loop of lines 45-62. */
  function Selection(fetched: seq<Option<XmlContent>>): seq<PaperRecord>
  {
    FilterMap(Select, fetched)
  }

  /** A record as the report expects it: at least one author, all of them
      non-academic, and a non-empty company column. */
  predicate Reportable(paper: PaperRecord)
  {
    && paper.authors != []
    && (forall a :: a in paper.authors ==> a.isNonAcademic)
    && Column(ToRow(paper), "Company Affiliation(s)").Some?
    && Column(ToRow(paper), "Company Affiliation(s)").value != ""
  }

  /**
   * For a record whose authors are consistently classified, as the
   * extractor's are, the company gate already implies that an author with
   * a company survives the non-academic filter.
   */
  lemma PharmaGateImpliesAuthors(paper: PaperRecord)
    requires forall i :: 0 <= i < |paper.authors| ==> WellClassified(paper.authors[i])
    requires HasPharmaAffiliation(paper)
    ensures exists k :: 0 <= k < |FilterNonAcademicAuthors(paper).authors|
                        && Truthy(FilterNonAcademicAuthors(paper).authors[k].company)
  {
    var i :| 0 <= i < |paper.authors| && paper.authors[i].company.Some?;
    assert WellClassified(paper.authors[i]);
    var filtered := FilterNonAcademicAuthors(paper);
    assert paper.authors[i] in filtered.authors;
  }

  /** A list of authors with a truthy company gives a non-empty company column. */
  lemma CompanyColumnNonEmpty(authors: seq<AuthorAffiliation>, k: nat)
    requires k < |authors| && Truthy(authors[k].company)
    ensures Join("; ", CompanyNames(authors)) != ""
  {
    assert CompanyText(authors[k]).Some?;
    var idx := FilterMapIndices(CompanyText, authors);
    assert k in idx;
    var names := CompanyNames(authors);
    assert names[0] != "" by {
      assert CompanyText(authors[idx[0]]).Some?;
    }
    JoinEnds("; ", names);
  }

  /** Such a record, once filtered, is reportable. */
  lemma FilteredRecordReportable(paper: PaperRecord)
    requires forall i :: 0 <= i < |paper.authors| ==> WellClassified(paper.authors[i])
    requires HasPharmaAffiliation(paper)
    ensures Reportable(FilterNonAcademicAuthors(paper))
  {
    PharmaGateImpliesAuthors(paper);
    var filtered := FilterNonAcademicAuthors(paper);
    var k :| 0 <= k < |filtered.authors| && Truthy(filtered.authors[k].company);
    CompanyColumnNonEmpty(filtered.authors, k);
    RowColumns(filtered);
  }

  /** The id's fetch gave content that parses to a record with a company author. */
  predicate PassesGates(fetched: Option<XmlContent>)
  {
    fetched.Some? && ParseRecord(fetched.value).Some? && HasPharmaAffiliation(ParseRecord(fetched.value).value)
  }

  /** An id contributes exactly when it passes the gates, and then its filtered record. */
  lemma SelectIff(fetched: Option<XmlContent>)
    ensures Select(fetched).Some? <==> PassesGates(fetched)
    ensures Select(fetched).Some? ==> Select(fetched).value == FilterNonAcademicAuthors(ParseRecord(fetched.value).value)
  {
    if fetched.Some? {
      var parsed := ParseRecord(fetched.value);
      if parsed.Some? && HasPharmaAffiliation(parsed.value) {
        PharmaGateImpliesAuthors(parsed.value);
      }
    }
  }

  /** The selection keeps the passing ids' filtered records, in id order, skipping the rest. */
  lemma SelectionInIdOrder(fetched: seq<Option<XmlContent>>)
    ensures var results, idx := Selection(fetched), FilterMapIndices(Select, fetched);
            && |results| == |idx| <= |fetched|
            && (forall k :: 0 <= k < |idx| ==>
                  && idx[k] < |fetched|
                  && PassesGates(fetched[idx[k]])
                  && results[k] == FilterNonAcademicAuthors(ParseRecord(fetched[idx[k]].value).value))
            && (forall k, l :: 0 <= k < l < |idx| ==> idx[k] < idx[l])
            && (forall j :: 0 <= j < |fetched| && PassesGates(fetched[j]) ==> j in idx)
  {
    var results, idx := Selection(fetched), FilterMapIndices(Select, fetched);
    forall k | 0 <= k < |idx|
      ensures PassesGates(fetched[idx[k]])
      ensures results[k] == FilterNonAcademicAuthors(ParseRecord(fetched[idx[k]].value).value)
    {
      SelectIff(fetched[idx[k]]);
    }
    forall j | 0 <= j < |fetched| && PassesGates(fetched[j])
      ensures j in idx
    {
      SelectIff(fetched[j]);
    }
  }

  /** What an id contributes is always reportable. */
  lemma SelectReportable(fetched: Option<XmlContent>)
    ensures Select(fetched).Some? ==> Reportable(Select(fetched).value)
  {
    if Select(fetched).Some? {
      FilteredRecordReportable(ParseRecord(fetched.value).value);
    }
  }

  /** Every selected paper has non-academic authors only, at least one, and a non-empty company column. */
  lemma SelectedRowsHaveCompanies(fetched: seq<Option<XmlContent>>)
    ensures forall k :: 0 <= k < |Selection(fetched)| ==> Reportable(Selection(fetched)[k])
  {
    var results := Selection(fetched);
    forall k | 0 <= k < |results|
      ensures Reportable(results[k])
    {
      var j :| 0 <= j < |fetched| && Select(fetched[j]) == Some(results[k]);
      SelectReportable(fetched[j]);
    }
  }

  /**
   * Each id is handled on its own: what it contributes sits between the
   * contributions of the ids before it and after it, whatever they are.
   */
  lemma SelectionPerId(fetched: seq<Option<XmlContent>>, i: nat)
    requires i < |fetched|
    ensures Selection(fetched) ==
              Selection(fetched[..i])
              + (match Select(fetched[i]) case Some(p) => [p] case None => [])
              + Selection(fetched[i + 1..])
  {
    assert fetched == fetched[..i] + [fetched[i]] + fetched[i + 1..];
    FilterMapConcat(Select, fetched[..i] + [fetched[i]], fetched[i + 1..]);
    FilterMapConcat(Select, fetched[..i], [fetched[i]]);
    assert [fetched[i]][..0] == [];
  }

  /**
   * An author at a university, with the classification given rather than
   * computed from the affiliation text: academic, no company.
   */
  const ScenarioAcademic := AuthorAffiliation("Ann Lee", "Harvard University", false, None)

  /**
   * An author at Pfizer, with the classification given rather than computed
   * from the affiliation text: non-academic, company "Pfizer".
   */
  const ScenarioIndustry := AuthorAffiliation("Bo Chen", "Pfizer Inc.", true, Some("Pfizer"))

  /** The filter of lines 100-103 drops the academic author and keeps the Pfizer one. */
  lemma ScenarioFilter()
    ensures Filter(IsNonAcademic, [ScenarioAcademic, ScenarioIndustry]) == [ScenarioIndustry]
  {
    assert [ScenarioAcademic, ScenarioIndustry][..1] == [ScenarioAcademic];
    assert [ScenarioAcademic][..0] == [];
  }

  /** The company list of lines 89-92 for the Pfizer author alone. */
  lemma ScenarioCompanies()
    ensures CompanyNames([ScenarioIndustry]) == ["Pfizer"]
  {
    assert [ScenarioIndustry][..0] == [];
  }

  /**
   * A paper with one academic author and one non-academic author at Pfizer
   * is kept with exactly the second author, and its company column is "Pfizer".
   */
  lemma OneIndustryAuthorScenario()
    ensures var paper := PaperRecord("123", "A title", "2024", [ScenarioAcademic, ScenarioIndustry], None);
            && HasPharmaAffiliation(paper)
            && FilterNonAcademicAuthors(paper).authors == [ScenarioIndustry]
            && Column(ToRow(FilterNonAcademicAuthors(paper)), "Company Affiliation(s)") == Some("Pfizer")
  {
    var paper := PaperRecord("123", "A title", "2024", [ScenarioAcademic, ScenarioIndustry], None);
    assert paper.authors[1].company.Some?;
    ScenarioFilter();
    ScenarioCompanies();
    RowColumns(FilterNonAcademicAuthors(paper));
  }

  /** The loop of lines 45-62: fetch result by fetch result, in id order. */
  method SelectPapers(fetched: seq<Option<XmlContent>>) returns (results: seq<PaperRecord>)
    ensures results == Selection(fetched)
  {
    results := [];
    for i := 0 to |fetched|
      invariant results == Selection(fetched[..i])
    {
      assert fetched[..i + 1][..i] == fetched[..i];
      if fetched[i].None? {
        continue;
      }
      var paper := ParsePubmedXml(fetched[i].value);
      if paper.None? {
        continue;
      }
      if HasPharmaAffiliation(paper.value) {
        var filtered := FilterNonAcademicAuthors(paper.value);
        if filtered.authors != [] {
          results := results + [filtered];
        }
      }
    }
    assert fetched[..|fetched|] == fetched;
  }

  /** How a run ends: the two empty outcomes exit normally without writing anything. */
  datatype Outcome = NoPapersFound | NoPharmaPapers | Report(rows: seq<Row>)

  /**
   * `main` between the search and the output (lines 37-66): no ids, no
   * selected paper, or the rows of the selected papers.
   */
  method Run(fetched: seq<Option<XmlContent>>) returns (outcome: Outcome)
    ensures outcome.NoPapersFound? <==> |fetched| == 0
    ensures outcome.NoPharmaPapers? <==> |fetched| > 0 && Selection(fetched) == []
    ensures outcome.Report? ==> && |outcome.rows| == |Selection(fetched)| > 0
                                && forall i :: 0 <= i < |outcome.rows| ==> outcome.rows[i] == ToRow(Selection(fetched)[i])
  {
    if |fetched| == 0 {
      return NoPapersFound;
    }
    var results := SelectPapers(fetched);
    if results == [] {
      return NoPharmaPapers;
    }
    var rows := PrepareCsvOutput(results);
    return Report(rows);
  }
}
