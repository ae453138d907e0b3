/** The dictionary-shaped records that flow from the PubMed parser into the
    paper filter, and the flat record the filter emits. An `Option` field is
    a dictionary key that may be absent. */
module Records {
  import opened Wrappers

  /** An author dictionary: keys `fore_name`, `last_name`, `affiliations`,
      `email`, each of which may be missing. */
  datatype Author = Author(
    foreName: Option<string>,
    lastName: Option<string>,
    affiliations: Option<seq<string>>,
    email: Option<string>)

  /** A paper dictionary: keys `pmid`, `title`, `publication_date`, `authors`. */
  datatype Paper = Paper(
    pmid: Option<string>,
    title: Option<string>,
    publicationDate: Option<string>,
    authors: Option<seq<Author>>)

  /** The six-field record emitted for a paper with an industry author.
      `companyAffiliations` is the set that the source joins with "; " in
      set-iteration order. */
  datatype FilteredPaper = FilteredPaper(
    pmid: string,
    title: string,
    publicationDate: string,
    nonAcademicAuthors: string,
    companyAffiliations: set<string>,
    correspondingAuthorEmail: string)
}
