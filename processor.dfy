/**
 * Record extraction and affiliation classification: one PubMed article
 * document becomes a paper record, each author's affiliation fragments are
 * classified against two fixed vocabularies, and two pure operations
 * (the author filter and the paper-level company gate) act on records.
 *
 * The XML parser and its path lookups are not modelled: the input is the
 * already parsed document, with `None` where a lookup finds nothing.
 * Line numbers in comments refer to paperfetcher/processor.py.
 */
module Processor {
  import opened Wrappers
  import opened Text
  import opened Seqs
  import opened Models

  /** Keywords whose presence marks an affiliation as academic (an unordered set in the program). */
  const AcademicKeywords: seq<string> := [
    "university", "college", "institute", "school",
    "academy", "labs", "laboratory", "hospital",
    "medical center", "clinic", "foundation"
  ]

  /**
   * Known pharmaceutical and biotech company names. The program keeps them in
   * an unordered set and takes the first one its iteration meets; the model
   * fixes this listing order.
   */
  const PharmaCompanies: seq<string> := [
    "pfizer", "novartis", "roche", "sanofi", "merck",
    "johnson & johnson", "astrazeneca", "gilead",
    "glaxosmithkline", "abbvie", "bristol-myers squibb",
    "biogen", "amgen", "eli lilly", "moderna", "bioNTech"
  ]

  // ---------------------------------------------------------------------
  // The parsed document

  /** One `Author` element: its `LastName`, `ForeName`, the texts of its
      `Affiliation` elements, and the text of its first `Affiliation` that
      carries an `email` attribute. */
  datatype AuthorNode = AuthorNode(
    lastName: Option<string>,
    foreName: Option<string>,
    affiliations: seq<Option<string>>,
    email: Option<string>)

  /** The first `Article` element: `ArticleTitle`, `Journal/PubDate/Year`, and its authors. */
  datatype ArticleNode = ArticleNode(
    title: Option<string>,
    year: Option<string>,
    authors: seq<AuthorNode>)

  /** The document root: the first `PMID` and the first `Article`, each possibly absent. */
  datatype PubmedDocument = PubmedDocument(
    pmid: Option<string>,
    article: Option<ArticleNode>)

  /** The input text, either not well-formed XML or a parsed document. */
  datatype XmlContent = Malformed | Wellformed(root: PubmedDocument)

  /** Python truthiness of an optional string: present and non-empty. */
  predicate Truthy(o: Option<string>)
  {
    o.Some? && o.value != ""
  }

  // ---------------------------------------------------------------------
  // Classifying one affiliation fragment

  /** `any(k in text for k in keys)`. */
  predicate AnyContained(text: string, keys: seq<string>)
  {
    exists i :: 0 <= i < |keys| && Contains(text, keys[i])
  }

  /** The fragment, lower-cased, contains an academic keyword. */
  predicate IsAcademic(fragment: string)
  {
    AnyContained(Lower(fragment), AcademicKeywords)
  }

  /** The first of `names`, in order, that occurs in `text` (the `for ... break` of lines 73-76). */
  function FirstMatch(text: string, names: seq<string>): (r: Option<string>)
    ensures r.Some? ==> exists i :: 0 <= i < |names| && names[i] == r.value && Contains(text, names[i])
                                    && forall j :: 0 <= j < i ==> !Contains(text, names[j])
    ensures r.None? <==> forall i :: 0 <= i < |names| ==> !Contains(text, names[i])
  {
    if |names| == 0 then None
    else if Contains(text, names[0]) then Some(names[0])
    else
      var r := FirstMatch(text, names[1..]);
      assert forall i :: 0 < i < |names| ==> names[1..][i - 1] == names[i];
      r
  }

  /**
   * The company one fragment sets: none for an academic fragment; otherwise
   * the capitalized first company name the lower-cased fragment contains.
   */
  function FragmentCompany(fragment: string): Option<string>
  {
    if IsAcademic(fragment) then None
    else
      match FirstMatch(Lower(fragment), PharmaCompanies)
      case None => None
      case Some(k) => Some(Capitalize(k))
  }

  /**
   * A fragment sets a company exactly when it is not academic and some
   * company name occurs in it lower-cased; the company is then that name
   * capitalized, and never empty.
   */
  lemma FragmentCompanySpec(fragment: string)
    ensures FragmentCompany(fragment).Some? ==> !IsAcademic(fragment)
    ensures FragmentCompany(fragment).Some? ==>
              exists i :: 0 <= i < |PharmaCompanies| && Contains(Lower(fragment), PharmaCompanies[i])
                          && FragmentCompany(fragment).value == Capitalize(PharmaCompanies[i])
    ensures FragmentCompany(fragment).None? <==>
              IsAcademic(fragment) || forall i :: 0 <= i < |PharmaCompanies| ==> !Contains(Lower(fragment), PharmaCompanies[i])
    ensures FragmentCompany(fragment).Some? ==> FragmentCompany(fragment).value != ""
  {
    var m := FirstMatch(Lower(fragment), PharmaCompanies);
    if !IsAcademic(fragment) && m.Some? {
      var i :| 0 <= i < |PharmaCompanies| && PharmaCompanies[i] == m.value && Contains(Lower(fragment), PharmaCompanies[i]);
      assert |PharmaCompanies[i]| > 0;
    }
  }

  /** "bioNTech" has upper-case letters, so no lower-cased fragment contains it. */
  lemma BioNTechNeverMatches(fragment: string)
    ensures !Contains(Lower(fragment), "bioNTech")
  {
    assert IsUpper("bioNTech"[3]);
    if Contains(Lower(fragment), "bioNTech") {
      ContainsInLowerHasNoUpper(fragment, "bioNTech");
    }
  }

  // ---------------------------------------------------------------------
  // Classifying an author's fragments

  /** `is_non_academic` after the loop: some fragment is not academic. */
  function AnyNonAcademic(fragments: seq<string>): (b: bool)
    ensures b <==> exists i :: 0 <= i < |fragments| && !IsAcademic(fragments[i])
    decreases |fragments|
  {
    if |fragments| == 0 then false
    else
      var n := |fragments| - 1;
      AnyNonAcademic(fragments[..n]) || !IsAcademic(fragments[n])
  }

  /** `company` after the loop: the company of the last fragment that sets one. */
  function LastCompany(fragments: seq<string>): Option<string>
  {
    LastSome(FragmentCompany, fragments)
  }

  /** An author's classification is consistent: a company only with a
      non-academic classification, and never an empty company name. */
  predicate WellClassified(a: AuthorAffiliation)
  {
    a.company.Some? ==> a.isNonAcademic && a.company.value != ""
  }

  /** A fragment with an academic keyword never sets the company, so a
      company implies a non-academic classification. */
  lemma {:induction false} CompanyImpliesNonAcademic(fragments: seq<string>)
    ensures LastCompany(fragments).Some? ==> AnyNonAcademic(fragments) && LastCompany(fragments).value != ""
  {
    var r := LastCompany(fragments);
    if r.Some? {
      var i :| 0 <= i < |fragments| && FragmentCompany(fragments[i]) == r;
      FragmentCompanySpec(fragments[i]);
    }
  }

  /**
   * Where a company comes from: some non-academic fragment, lower-cased,
   * contains a company name of which the company is the capitalized form,
   * and no later fragment sets a company.
   */
  lemma CompanyOrigin(fragments: seq<string>)
    ensures LastCompany(fragments).Some? ==>
              exists i, k :: && 0 <= i < |fragments| && 0 <= k < |PharmaCompanies|
                             && !IsAcademic(fragments[i])
                             && Contains(Lower(fragments[i]), PharmaCompanies[k])
                             && LastCompany(fragments).value == Capitalize(PharmaCompanies[k])
                             && (forall j :: i < j < |fragments| ==> FragmentCompany(fragments[j]).None?)
    ensures LastCompany(fragments).None? <==>
              forall i :: 0 <= i < |fragments| ==> FragmentCompany(fragments[i]).None?
  {
    var r := LastCompany(fragments);
    if r.Some? {
      var i :| 0 <= i < |fragments| && FragmentCompany(fragments[i]) == r
               && forall j :: i < j < |fragments| ==> FragmentCompany(fragments[j]).None?;
      FragmentCompanySpec(fragments[i]);
      var k :| 0 <= k < |PharmaCompanies| && Contains(Lower(fragments[i]), PharmaCompanies[k])
               && r.value == Capitalize(PharmaCompanies[k]);
    }
  }

  /**
   * The company search of lines 72-76 for one lower-cased non-academic
   * fragment, over the company vocabulary `names`: the capitalized first
   * name, in order, that occurs in it, or nothing when none does.
   */
  method FindCompany(lower: string, names: seq<string>) returns (company: Option<string>)
    ensures company.Some? <==> FirstMatch(lower, names).Some?
    ensures company.Some? ==> company.value == Capitalize(FirstMatch(lower, names).value)
  {
    company := None;
    for j := 0 to |names|
      invariant FirstMatch(lower, names[j..]) == FirstMatch(lower, names)
      invariant company == None
    {
      if Contains(lower, names[j]) {
        company := Some(Capitalize(names[j]));
        break;
      }
    }
  }

  /**
   * Lines 61-76: classify the fragments in order. A
   * non-academic fragment sets `isNonAcademic` for good and, when a company
   * name occurs in it, replaces the company; an academic fragment changes
   * nothing.
   */
  method ClassifyAffiliations(fragments: seq<string>) returns (isNonAcademic: bool, company: Option<string>)
    ensures isNonAcademic == AnyNonAcademic(fragments)
    ensures company == LastCompany(fragments)
  {
    isNonAcademic := false;
    company := None;
    for i := 0 to |fragments|
      invariant isNonAcademic == AnyNonAcademic(fragments[..i])
      invariant company == LastCompany(fragments[..i])
    {
      assert fragments[..i + 1][..i] == fragments[..i];
      var lower := Lower(fragments[i]);
      var isAcademic := AnyContained(lower, AcademicKeywords);
      if !isAcademic {
        isNonAcademic := true;
        var found := FindCompany(lower, PharmaCompanies);
        if found.Some? {
          company := found;
        }
      }
    }
    assert fragments[..|fragments|] == fragments;
  }

  // ---------------------------------------------------------------------
  // One author

  /** The non-empty affiliation texts, in order. */
  function AffiliationText(text: Option<string>): Option<string>
  {
    if Truthy(text) then text else None
  }

  /** `author.findtext("LastName")` is truthy: the author is kept. */
  predicate HasLastName(node: AuthorNode)
  {
    Truthy(node.lastName)
  }

  /** The record built for a kept author (lines 51-88). */
  function BuildAuthor(node: AuthorNode): AuthorAffiliation
    requires HasLastName(node)
  {
    var fragments := FilterMap(AffiliationText, node.affiliations);
    AuthorAffiliation(
      if Truthy(node.foreName) then node.foreName.value + " " + node.lastName.value else node.lastName.value,
      Join("; ", fragments),
      AnyNonAcademic(fragments),
      LastCompany(fragments))
  }

  /** The author a node contributes: none without a last name. */
  function AuthorOf(node: AuthorNode): (r: Option<AuthorAffiliation>)
    ensures r.Some? <==> HasLastName(node)
    ensures r.Some? ==> WellClassified(r.value)
  {
    if HasLastName(node) then
      CompanyImpliesNonAcademic(FilterMap(AffiliationText, node.affiliations));
      Some(BuildAuthor(node))
    else None
  }

  /**
   * Lines 50-76 and 83-88 for an author with a last name: the display name,
   * the "; "-joined non-empty affiliation texts, and their classification.
   */
  method ExtractAuthor(node: AuthorNode) returns (a: AuthorAffiliation)
    requires HasLastName(node)
    ensures a == BuildAuthor(node)
    ensures a.name == if Truthy(node.foreName) then node.foreName.value + " " + node.lastName.value
                      else node.lastName.value
    ensures var fragments := FilterMap(AffiliationText, node.affiliations);
            && a.affiliation == Join("; ", fragments)
            && (a.isNonAcademic <==> exists i :: 0 <= i < |fragments| && !IsAcademic(fragments[i]))
    ensures WellClassified(a)
  {
    var lastName := node.lastName.value;
    var name := if Truthy(node.foreName) then node.foreName.value + " " + lastName else lastName;
    var fragments: seq<string> := [];
    for i := 0 to |node.affiliations|
      invariant fragments == FilterMap(AffiliationText, node.affiliations[..i])
    {
      assert node.affiliations[..i + 1][..i] == node.affiliations[..i];
      var text := node.affiliations[i];
      if Truthy(text) {
        fragments := fragments + [text.value];
      }
    }
    assert node.affiliations[..|node.affiliations|] == node.affiliations;
    var isNonAcademic, company := ClassifyAffiliations(fragments);
    CompanyImpliesNonAcademic(fragments);
    a := AuthorAffiliation(name, Join("; ", fragments), isNonAcademic, company);
  }

  // ---------------------------------------------------------------------
  // The whole document

  /** The author whose email is recorded: kept, with an email text containing "@". */
  predicate HasEmail(node: AuthorNode)
  {
    HasLastName(node) && node.email.Some? && '@' in node.email.value
  }

  /** `corresponding_email` after the author loop: the last such author's email. */
  function LastEmail(nodes: seq<AuthorNode>): (r: Option<string>)
    ensures r.Some? ==> exists i :: 0 <= i < |nodes| && HasEmail(nodes[i]) && nodes[i].email == r
                                    && forall j :: i < j < |nodes| ==> !HasEmail(nodes[j])
    ensures r.None? <==> forall i :: 0 <= i < |nodes| ==> !HasEmail(nodes[i])
    decreases |nodes|
  {
    if |nodes| == 0 then None
    else
      var n := |nodes| - 1;
      var r := if HasEmail(nodes[n]) then nodes[n].email else LastEmail(nodes[..n]);
      assert forall j :: 0 <= j < n ==> nodes[..n][j] == nodes[j];
      r
  }

  /** The mandatory fields are present: an article, and truthy PMID, title and year. */
  predicate HasMandatoryFields(xml: XmlContent)
  {
    && xml.Wellformed?
    && xml.root.article.Some?
    && Truthy(xml.root.pmid)
    && Truthy(xml.root.article.value.title)
    && Truthy(xml.root.article.value.year)
  }

  /** The record `parse_pubmed_xml` returns. */
  function ParseRecord(xml: XmlContent): (r: Option<PaperRecord>)
    ensures r.Some? ==> forall i :: 0 <= i < |r.value.authors| ==> WellClassified(r.value.authors[i])
  {
    if !HasMandatoryFields(xml) then None
    else
      var article := xml.root.article.value;
      var authors := FilterMap(AuthorOf, article.authors);
      assert forall i :: 0 <= i < |authors| ==> WellClassified(authors[i]) by {
        forall i | 0 <= i < |authors| ensures WellClassified(authors[i]) {
          var j :| 0 <= j < |article.authors| && AuthorOf(article.authors[j]) == Some(authors[i]);
        }
      }
      Some(PaperRecord(xml.root.pmid.value, article.title.value, article.year.value,
                       authors, LastEmail(article.authors)))
  }

  /**
   * `parse_pubmed_xml` (lines 21-96): no record for malformed XML, a missing
   * article or a missing or empty PMID, title or year; otherwise the record
   * with the kept authors in document order and the recorded email.
   */
  method ParsePubmedXml(xml: XmlContent) returns (r: Option<PaperRecord>)
    ensures r == ParseRecord(xml)
    ensures r.None? <==> !HasMandatoryFields(xml)
    ensures r.Some? ==> && r.value.pubmedId == xml.root.pmid.value
                        && r.value.title == xml.root.article.value.title.value
                        && r.value.publicationDate == xml.root.article.value.year.value
                        && r.value.authors == FilterMap(AuthorOf, xml.root.article.value.authors)
                        && r.value.correspondingAuthorEmail == LastEmail(xml.root.article.value.authors)
  {
    if xml.Malformed? {
      return None;
    }
    var root := xml.root;
    if root.article.None? {
      return None;
    }
    var article := root.article.value;
    if !Truthy(root.pmid) || !Truthy(article.title) || !Truthy(article.year) {
      return None;
    }
    var nodes := article.authors;
    var authors: seq<AuthorAffiliation> := [];
    var email: Option<string> := None;
    for i := 0 to |nodes|
      invariant authors == FilterMap(AuthorOf, nodes[..i])
      invariant email == LastEmail(nodes[..i])
    {
      assert nodes[..i + 1][..i] == nodes[..i];
      var node := nodes[i];
      if !HasLastName(node) {
        continue;
      }
      var author := ExtractAuthor(node);
      if node.email.Some? && '@' in node.email.value {
        email := node.email;
      }
      authors := authors + [author];
    }
    assert nodes[..|nodes|] == nodes;
    r := Some(PaperRecord(root.pmid.value, article.title.value, article.year.value, authors, email));
  }

  /**
   * The record's authors are the authors with a last name, each exactly
   * once and in document order, built from their own node.
   */
  lemma ParsedAuthorsInDocumentOrder(xml: XmlContent)
    requires ParseRecord(xml).Some?
    ensures var nodes, authors := xml.root.article.value.authors, ParseRecord(xml).value.authors;
            var idx := FilterMapIndices(AuthorOf, nodes);
            && |authors| == |idx| <= |nodes|
            && (forall k :: 0 <= k < |idx| ==> idx[k] < |nodes| && HasLastName(nodes[idx[k]])
                                                && authors[k] == BuildAuthor(nodes[idx[k]]))
            && (forall k, l :: 0 <= k < l < |idx| ==> idx[k] < idx[l])
            && (forall j :: 0 <= j < |nodes| && HasLastName(nodes[j]) ==> j in idx)
  {
    var nodes := xml.root.article.value.authors;
    var idx := FilterMapIndices(AuthorOf, nodes);
    forall j | 0 <= j < |nodes| && HasLastName(nodes[j])
      ensures j in idx
    {
      assert AuthorOf(nodes[j]).Some?;
    }
  }

  // ---------------------------------------------------------------------
  // Filter and gate

  predicate IsNonAcademic(a: AuthorAffiliation) { a.isNonAcademic }

  /** `filter_non_academic_authors`: the same record with only the non-academic authors. */
  function FilterNonAcademicAuthors(paper: PaperRecord): (r: PaperRecord)
    ensures r.pubmedId == paper.pubmedId && r.title == paper.title
    ensures r.publicationDate == paper.publicationDate
    ensures r.correspondingAuthorEmail == paper.correspondingAuthorEmail
    ensures forall k :: 0 <= k < |r.authors| ==> r.authors[k] in paper.authors && r.authors[k].isNonAcademic
    ensures forall j :: 0 <= j < |paper.authors| && paper.authors[j].isNonAcademic ==> paper.authors[j] in r.authors
  {
    paper.(authors := Filter(IsNonAcademic, paper.authors))
  }

  /** `has_pharma_affiliation` over a list of authors. */
  function AnyCompany(authors: seq<AuthorAffiliation>): (b: bool)
    ensures b <==> exists i :: 0 <= i < |authors| && authors[i].company.Some?
  {
    if |authors| == 0 then false
    else authors[0].company.Some? || AnyCompany(authors[1..])
  }

  /** `has_pharma_affiliation`: some author has a company. */
  function HasPharmaAffiliation(paper: PaperRecord): (b: bool)
    ensures b <==> exists i :: 0 <= i < |paper.authors| && paper.authors[i].company.Some?
  {
    AnyCompany(paper.authors)
  }

  /** The filtered record keeps the non-academic authors in their original order. */
  lemma FilterKeepsOrder(paper: PaperRecord)
    ensures var kept, idx := FilterNonAcademicAuthors(paper).authors, FilterIndices(IsNonAcademic, paper.authors);
            && |kept| == |idx|
            && (forall k :: 0 <= k < |idx| ==> idx[k] < |paper.authors| && kept[k] == paper.authors[idx[k]])
            && (forall k, l :: 0 <= k < l < |idx| ==> idx[k] < idx[l])
            && (forall j :: 0 <= j < |paper.authors| && paper.authors[j].isNonAcademic ==> j in idx)
  {
    var idx := FilterIndices(IsNonAcademic, paper.authors);
    forall j | 0 <= j < |paper.authors| && paper.authors[j].isNonAcademic
      ensures j in idx
    {
      assert IsNonAcademic(paper.authors[j]);
    }
  }

  /** Filtering an already filtered record gives the same record. */
  lemma FilterNonAcademicIdempotent(paper: PaperRecord)
    ensures FilterNonAcademicAuthors(FilterNonAcademicAuthors(paper)) == FilterNonAcademicAuthors(paper)
  {
    FilterIdempotent(IsNonAcademic, paper.authors);
  }
}
