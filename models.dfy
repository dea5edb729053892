/** The record shapes the extractor produces and the report reads. */
module Models {
  import opened Wrappers

  /** One kept author of a paper, with the classification of their affiliations. */
  datatype AuthorAffiliation = AuthorAffiliation(
    name: string,
    affiliation: string,
    isNonAcademic: bool,
    company: Option<string>)

  /** One paper, its authors in document order. */
  datatype PaperRecord = PaperRecord(
    pubmedId: string,
    title: string,
    publicationDate: string,
    authors: seq<AuthorAffiliation>,
    correspondingAuthorEmail: Option<string>)
}
