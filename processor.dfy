/** The paper processor: classifies each affiliation as industry or
    academic by keyword, guesses a company name from it, and keeps the
    papers that have at least one industry author. */
module Processor {
  import opened Wrappers
  import opened Text
  import opened Seqs
  import opened Records

  // The two keyword collections are Python sets; they are only ever read
  // through `any(...)`, whose answer does not depend on iteration order,
  // so they are kept here as sequences.

  /** Substrings that mark an affiliation as academic. */
  const AcademicKeywords: seq<string> := [
    "university", "college", "institute", "school", "academia", "faculty",
    "department", "laboratory", "univ.", "inst.", "lab", "hospital",
    "medical center", "clinic", "foundation", "center for"
  ]

  /** Substrings that mark an affiliation as pharmaceutical or biotech. */
  const PharmaBiotechKeywords: seq<string> := [
    "pharma", "biotech", "therapeutics", "biosciences", "inc", "corp", "llc",
    "ltd", "limited", "gmbh", "co.", "company", "laboratories",
    "research and development", "r&d", "biopharma", "life sciences"
  ]

  /** Corporate suffixes tried, in this order and with exact case, when
      guessing a company name. */
  const CompanyIndicators: seq<string> := ["Inc.", "Corp.", "LLC", "Ltd.", "GmbH", "Co."]

  // ---------------------------------------------------------------------
  // Classification

  /** Some keyword occurs as a substring of `text`. */
  predicate AnyKeywordIn(keywords: seq<string>, text: string) {
    AnyOf(keywords, k => Contains(text, k))
  }

  predicate IsAcademic(affiliation: string) {
    AnyKeywordIn(AcademicKeywords, Lower(affiliation))
  }

  predicate IsPharma(affiliation: string) {
    AnyKeywordIn(PharmaBiotechKeywords, Lower(affiliation))
  }

  /** An affiliation that makes its author an industry author: pharma
      evidence and no academic evidence. */
  predicate IsPharmaAffiliation(affiliation: string) {
    IsPharma(affiliation) && !IsAcademic(affiliation)
  }

  /** Academic evidence always wins: an affiliation whose lower-cased text
      contains some academic keyword is never an industry affiliation,
      whatever pharma keywords it also contains. */
  lemma AcademicOverridesPharma(affiliation: string, j: int)
    requires 0 <= j < |AcademicKeywords| && Contains(Lower(affiliation), AcademicKeywords[j])
    ensures IsAcademic(affiliation) && !IsPharmaAffiliation(affiliation)
  {
    AnyKeywordInIff(AcademicKeywords, Lower(affiliation));
  }

  /** `any(k in text for k in keywords)`: some keyword is a substring. */
  lemma AnyKeywordInIff(keywords: seq<string>, text: string)
    ensures AnyKeywordIn(keywords, text) <==> exists j :: 0 <= j < |keywords| && Contains(text, keywords[j])
  {
    AnyOfIff(keywords, k => Contains(text, k));
  }

  /** The pharma keyword "laboratories" contains the academic keyword
      "lab", so an affiliation mentioning it is academic and never
      qualifies its author. */
  lemma LaboratoriesIsAcademic(affiliation: string)
    requires Contains(Lower(affiliation), "laboratories")
    ensures IsAcademic(affiliation) && !IsPharmaAffiliation(affiliation)
  {
    var lower := Lower(affiliation);
    var i := Find(lower, "laboratories");
    assert lower[i..i + 3] == lower[i..i + 12][..3] == "lab";
    assert OccursAt(lower, "lab", i);
    assert AcademicKeywords[10] == "lab" && Contains(lower, "lab");
    AnyKeywordInIff(AcademicKeywords, lower);
  }

  // ---------------------------------------------------------------------
  // Company-name extraction

  /** The company name guessed from one affiliation string. */
  function ExtractCompanyName(affiliation: string): string {
    ExtractWith(Strip(affiliation), CompanyIndicators)
  }

  /** Try each indicator in turn; the first one that occurs in `a` after
      position 0 decides the name, else fall back to the text before the
      first comma. An indicator whose first occurrence is at position 0
      leaves an empty text before it and is skipped. */
  function ExtractWith(a: string, indicators: seq<string>): string
    decreases |indicators|
  {
    if indicators == [] then FallbackName(a)
    else
      var at := Find(a, indicators[0]);
      if at > 0 then NameBeforeIndicator(a[..at], indicators[0])
      else ExtractWith(a, indicators[1..])
  }

  /** The last (up to) four words of `before`, then the indicator. */
  function NameBeforeIndicator(before: string, indicator: string): string {
    Strip(Join(" ", LastAtMost(Words(Strip(before)), 4)) + " " + indicator)
  }

  /** The trimmed text before the first comma. `split` always yields at
      least one part, so the empty-string alternative is never taken. */
  function FallbackName(a: string): string {
    var parts := Split(a, ',');
    if |parts| > 0 then Strip(parts[0]) else ""
  }

  /** `k` is the first indicator, in list order, that occurs in `a` after
      position 0. */
  ghost predicate FirstIndicatorAt(a: string, indicators: seq<string>, k: int) {
    && 0 <= k < |indicators|
    && Find(a, indicators[k]) > 0
    && forall k' :: 0 <= k' < k ==> Find(a, indicators[k']) <= 0
  }

  lemma {:induction false} ExtractWithFirst(a: string, indicators: seq<string>, k: int)
    requires FirstIndicatorAt(a, indicators, k)
    ensures ExtractWith(a, indicators) == NameBeforeIndicator(a[..Find(a, indicators[k])], indicators[k])
    decreases k
  {
    if k > 0 {
      assert Find(a, indicators[0]) <= 0;
      assert FirstIndicatorAt(a, indicators[1..], k - 1) by {
        forall k' | 0 <= k' < k - 1 ensures Find(a, indicators[1..][k']) <= 0 {
          assert indicators[1..][k'] == indicators[k' + 1];
        }
      }
      ExtractWithFirst(a, indicators[1..], k - 1);
    }
  }

  lemma {:induction false} ExtractWithNone(a: string, indicators: seq<string>)
    requires forall k :: 0 <= k < |indicators| ==> Find(a, indicators[k]) <= 0
    ensures ExtractWith(a, indicators) == FallbackName(a)
    decreases |indicators|
  {
    if indicators != [] {
      assert Find(a, indicators[0]) <= 0;
      assert forall k :: 0 <= k < |indicators| - 1 ==> indicators[1..][k] == indicators[k + 1];
      ExtractWithNone(a, indicators[1..]);
    }
  }

  /** The words kept are one to four, and the final `strip()` removes
      nothing when the text before starts with a non-blank character. */
  lemma NameBeforeIndicatorShape(before: string, indicator: string)
    requires before != [] && !IsSpace(before[0])
    requires indicator != [] && !IsSpace(indicator[|indicator| - 1])
    ensures var words := LastAtMost(Words(Strip(before)), 4);
            && 1 <= |words| <= 4
            && NameBeforeIndicator(before, indicator) == Join(" ", words) + " " + indicator
  {
    var stripped := Strip(before);
    assert !AllSpace(before);
    assert !AllSpace(stripped) by { assert !IsSpace(stripped[0]); }
    var words := LastAtMost(Words(stripped), 4);
    WordsAreWords(stripped);
    assert IsWord(words[0]);
    var name := Join(" ", words) + " " + indicator;
    assert name[0] == words[0][0];
    assert name[|name| - 1] == indicator[|indicator| - 1];
    StripUnchanged(name);
  }

  lemma IndicatorEndsNonBlank(k: int)
    requires 0 <= k < |CompanyIndicators|
    ensures var ind := CompanyIndicators[k]; ind != [] && !IsSpace(ind[|ind| - 1])
  {
    var ind := CompanyIndicators[k];
    assert ind == "Inc." || ind == "Corp." || ind == "LLC" || ind == "Ltd." || ind == "GmbH" || ind == "Co.";
  }

  /** When an indicator applies, the name is the last one to four words
      before its first occurrence, a space, and the indicator itself. */
  lemma ExtractWithIndicator(affiliation: string, k: int)
    requires FirstIndicatorAt(Strip(affiliation), CompanyIndicators, k)
    ensures var a := Strip(affiliation);
            var ind := CompanyIndicators[k];
            var words := LastAtMost(Words(Strip(a[..Find(a, ind)])), 4);
            && 1 <= |words| <= 4
            && ExtractCompanyName(affiliation) == Join(" ", words) + " " + ind
  {
    var a := Strip(affiliation);
    IndicatorShape(a, k);
    ExtractWithFirst(a, CompanyIndicators, k);
  }

  /** The text before an indicator found after position 0 of a string
      that starts with a non-blank yields one to four words. */
  lemma IndicatorShape(a: string, k: int)
    requires 0 <= k < |CompanyIndicators| && Find(a, CompanyIndicators[k]) > 0
    requires !IsSpace(a[0])
    ensures var ind := CompanyIndicators[k];
            var at := Find(a, ind);
            var words := LastAtMost(Words(Strip(a[..at])), 4);
            && 1 <= |words| <= 4
            && NameBeforeIndicator(a[..at], ind) == Join(" ", words) + " " + ind
  {
    var at := Find(a, CompanyIndicators[k]);
    assert a[..at][0] == a[0];
    IndicatorEndsNonBlank(k);
    NameBeforeIndicatorShape(a[..at], CompanyIndicators[k]);
  }

  /** When the text before the first indicator is one to four words
      followed by a space, the name is those words and the indicator. */
  lemma ExtractWordsBeforeIndicator(affiliation: string, k: int, words: seq<string>)
    requires FirstIndicatorAt(Strip(affiliation), CompanyIndicators, k)
    requires 1 <= |words| <= 4 && forall i :: 0 <= i < |words| ==> IsWord(words[i])
    requires var a := Strip(affiliation);
             a[..Find(a, CompanyIndicators[k])] == Join(" ", words) + " "
    ensures ExtractCompanyName(affiliation) == Join(" ", words) + " " + CompanyIndicators[k]
  {
    var a := Strip(affiliation);
    var ind := CompanyIndicators[k];
    var joined := Join(" ", words);
    WordsBeforeSpace(words);
    ExtractWithIndicator(affiliation, k);
  }

  /** With no applicable indicator, the name is the trimmed text before
      the first comma, or the whole trimmed string when it has none. */
  lemma ExtractWithoutIndicator(affiliation: string)
    requires forall k :: 0 <= k < |CompanyIndicators| ==> Find(Strip(affiliation), CompanyIndicators[k]) <= 0
    ensures var a := Strip(affiliation);
            exists pre :: && pre <= a && ',' !in pre
                          && (|pre| == |a| || a[|pre|] == ',')
                          && ExtractCompanyName(affiliation) == Strip(pre)
  {
    var a := Strip(affiliation);
    ExtractWithNone(a, CompanyIndicators);
    var pre := Split(a, ',')[0];
    assert pre <= a && ',' !in pre;
  }

  // ---------------------------------------------------------------------
  // Per-author and per-paper aggregation

  /** `author.get("affiliations", [])` */
  function AffiliationsOf(author: Author): seq<string> {
    author.affiliations.GetOr([])
  }

  /** An author qualifies when one of their affiliations is an industry
      affiliation. */
  predicate AuthorQualifies(author: Author) {
    AnyOf(AffiliationsOf(author), IsPharmaAffiliation)
  }

  /** `f"{fore_name} {last_name}".strip()` with absent names as "". */
  function DisplayName(author: Author): string {
    Strip(author.foreName.GetOr("") + " " + author.lastName.GetOr(""))
  }

  /** The name a qualifying author contributes to `non_academic_authors`. */
  function PharmaAuthorName(author: Author): Option<string> {
    if AuthorQualifies(author) then Some(DisplayName(author)) else None
  }

  /** The company an affiliation contributes: the non-empty name
      extracted from an industry affiliation. */
  function CompanyOf(affiliation: string): set<string> {
    if IsPharmaAffiliation(affiliation) && ExtractCompanyName(affiliation) != ""
    then {ExtractCompanyName(affiliation)}
    else {}
  }

  /** The companies of one author's affiliations. */
  function AuthorCompanies(author: Author): set<string> {
    UnionOver(AffiliationsOf(author), CompanyOf)
  }

  /** The email a qualifying author offers for `corresponding_author_email`. */
  function QualifyingEmail(author: Author): string {
    if AuthorQualifies(author) && author.email.Some? then author.email.value else ""
  }

  /** The record of one paper, if it is kept. */
  function PaperRecord(paper: Paper): Option<FilteredPaper> {
    match paper.authors
    case None => None
    case Some(authors) =>
      var names := FilterMap(authors, PharmaAuthorName);
      if names == [] then None
      else Some(FilteredPaper(
        paper.pmid.GetOr(""),
        paper.title.GetOr(""),
        paper.publicationDate.GetOr(""),
        Join("; ", names),
        UnionOver(authors, AuthorCompanies),
        FirstNonEmpty(authors, QualifyingEmail)))
  }

  /** The loop over one author's affiliations: flags the author when an
      affiliation is an industry one and adds the company guessed from it
      to both the author's and the paper's company sets. */
  method ScanAffiliations(affiliations: seq<string>, companyAffiliations: set<string>)
    returns (isPharmaAuthor: bool, authorCompanies: set<string>, companies: set<string>)
    ensures isPharmaAuthor == AnyOf(affiliations, IsPharmaAffiliation)
    ensures authorCompanies == UnionOver(affiliations, CompanyOf)
    ensures companies == companyAffiliations + authorCompanies
  {
    isPharmaAuthor := false;
    authorCompanies := {};
    companies := companyAffiliations;
    for j := 0 to |affiliations|
      invariant isPharmaAuthor == AnyOf(affiliations[..j], IsPharmaAffiliation)
      invariant authorCompanies == UnionOver(affiliations[..j], CompanyOf)
      invariant companies == companyAffiliations + authorCompanies
    {
      AnyOfSnoc(affiliations, j, IsPharmaAffiliation);
      UnionOverSnoc(affiliations, j, CompanyOf);
      var affiliation := affiliations[j];
      var affiliationLower := Lower(affiliation);
      var isAcademic := AnyKeywordIn(AcademicKeywords, affiliationLower);
      var isPharma := AnyKeywordIn(PharmaBiotechKeywords, affiliationLower);
      if isPharma && !isAcademic {
        isPharmaAuthor := true;
        var company := ExtractCompanyName(affiliation);
        if company != "" {
          authorCompanies := authorCompanies + {company};
          companies := companies + {company};
        }
      }
    }
    assert affiliations[..|affiliations|] == affiliations;
  }

  /** The loop over a paper's authors: collects the display names of the
      qualifying authors, the company set, and the first email of a
      qualifying author. */
  method ScanAuthors(authors: seq<Author>)
    returns (pharmaAuthors: seq<string>, companyAffiliations: set<string>, correspondingEmail: string)
    ensures pharmaAuthors == FilterMap(authors, PharmaAuthorName)
    ensures companyAffiliations == UnionOver(authors, AuthorCompanies)
    ensures correspondingEmail == FirstNonEmpty(authors, QualifyingEmail)
  {
    pharmaAuthors, companyAffiliations, correspondingEmail := [], {}, "";
    for i := 0 to |authors|
      invariant pharmaAuthors == FilterMap(authors[..i], PharmaAuthorName)
      invariant companyAffiliations == UnionOver(authors[..i], AuthorCompanies)
      invariant correspondingEmail == FirstNonEmpty(authors[..i], QualifyingEmail)
    {
      FilterMapSnoc(authors, i, PharmaAuthorName);
      UnionOverSnoc(authors, i, AuthorCompanies);
      FirstNonEmptySnoc(authors, i, QualifyingEmail);
      pharmaAuthors, companyAffiliations, correspondingEmail :=
        ScanAuthor(authors[i], pharmaAuthors, companyAffiliations, correspondingEmail);
    }
    assert authors[..|authors|] == authors;
  }

  /** One pass of the author loop. An author without affiliations is
      skipped; a qualifying one adds their display name and, while none has
      been found yet, their email. */
  method ScanAuthor(author: Author, names: seq<string>, companies: set<string>, email: string)
    returns (names': seq<string>, companies': set<string>, email': string)
    ensures names' == names + Emit(PharmaAuthorName(author))
    ensures companies' == companies + AuthorCompanies(author)
    ensures email' == if email == "" then QualifyingEmail(author) else email
  {
    names', companies', email' := names, companies, email;
    var affiliations := AffiliationsOf(author);
    if affiliations == [] {
      return;
    }
    var isPharmaAuthor, authorCompanies;
    isPharmaAuthor, authorCompanies, companies' := ScanAffiliations(affiliations, companies);
    if isPharmaAuthor {
      names' := names + [DisplayName(author)];
      if author.email.Some? && email == "" {
        email' := author.email.value;
      }
    }
  }

  /** Walks the papers in order and emits a record for each paper that has
      an `authors` key and an industry author. */
  method FilterPharmaPapers(papers: seq<Paper>) returns (filtered: seq<FilteredPaper>)
    ensures filtered == FilterMap(papers, PaperRecord)
  {
    filtered := [];
    for p := 0 to |papers|
      invariant filtered == FilterMap(papers[..p], PaperRecord)
    {
      FilterMapSnoc(papers, p, PaperRecord);
      var paper := papers[p];
      if paper.authors.None? {
        continue;
      }
      var pharmaAuthors, companyAffiliations, correspondingEmail := ScanAuthors(paper.authors.value);
      if pharmaAuthors != [] {
        filtered := filtered + [FilteredPaper(
          paper.pmid.GetOr(""),
          paper.title.GetOr(""),
          paper.publicationDate.GetOr(""),
          Join("; ", pharmaAuthors),
          companyAffiliations,
          correspondingEmail)];
      }
    }
    assert papers[..|papers|] == papers;
  }

  // ---------------------------------------------------------------------
  // What the filter promises

  /** The output holds at most one record per input paper, in input
      order: record `k` is the record of paper `idx[k]`, the indices
      increase, and every paper that yields a record is among them. */
  lemma FilteredPapersInOrder(papers: seq<Paper>)
    ensures var filtered := FilterMap(papers, PaperRecord);
            var idx := SomeIndices(papers, PaperRecord);
            && |filtered| == |idx| <= |papers|
            && (forall k :: 0 <= k < |idx| ==>
                  idx[k] < |papers| && PaperRecord(papers[idx[k]]) == Some(filtered[k]))
            && (forall k, l :: 0 <= k < l < |idx| ==> idx[k] < idx[l])
            && (forall i :: 0 <= i < |papers| ==> (PaperRecord(papers[i]).Some? <==> i in idx))
  {
    FilterMapSelects(papers, PaperRecord);
  }

  /** A paper is kept exactly when it has an `authors` key and one of its
      authors has an industry affiliation. */
  lemma PaperKeptIff(paper: Paper)
    ensures PaperRecord(paper).Some? <==>
            && paper.authors.Some?
            && exists i :: 0 <= i < |paper.authors.value| && AuthorQualifies(paper.authors.value[i])
  {
    if paper.authors.Some? {
      FilterMapEmpty(paper.authors.value, PharmaAuthorName);
    }
  }

  /** `non_academic_authors` lists the display name of every qualifying
      author, once per author and in author order; duplicates are kept. */
  lemma PharmaAuthorNamesInOrder(authors: seq<Author>)
    ensures var names := FilterMap(authors, PharmaAuthorName);
            var idx := SomeIndices(authors, PharmaAuthorName);
            && |names| == |idx|
            && (forall k :: 0 <= k < |idx| ==>
                  idx[k] < |authors| && AuthorQualifies(authors[idx[k]])
                  && names[k] == DisplayName(authors[idx[k]]))
            && (forall k, l :: 0 <= k < l < |idx| ==> idx[k] < idx[l])
            && (forall i :: 0 <= i < |authors| ==> (AuthorQualifies(authors[i]) <==> i in idx))
  {
    FilterMapSelects(authors, PharmaAuthorName);
  }

  /** `company_affiliations` holds exactly the non-empty names extracted
      from the industry affiliations of the paper's authors. */
  lemma PaperCompaniesMembers(authors: seq<Author>, c: string)
    ensures c in UnionOver(authors, AuthorCompanies) <==>
            && c != ""
            && exists i, j :: && 0 <= i < |authors| && 0 <= j < |AffiliationsOf(authors[i])|
                              && IsPharmaAffiliation(AffiliationsOf(authors[i])[j])
                              && ExtractCompanyName(AffiliationsOf(authors[i])[j]) == c
  {
    UnionOverMembers(authors, AuthorCompanies, c);
    forall i | 0 <= i < |authors| {
      UnionOverMembers(AffiliationsOf(authors[i]), CompanyOf, c);
    }
  }

  /** A qualifying author with a non-empty `email` key. */
  predicate HasUsableEmail(author: Author) {
    AuthorQualifies(author) && author.email.Some? && author.email.value != ""
  }

  lemma QualifyingEmailUsable(author: Author)
    ensures QualifyingEmail(author) != "" <==> HasUsableEmail(author)
    ensures HasUsableEmail(author) ==> QualifyingEmail(author) == author.email.value
  {
  }

  /** `corresponding_author_email` is the email of the first qualifying
      author that has a non-empty one, and "" when there is none; other
      authors' emails are never used. */
  lemma CorrespondingEmailIsFirst(authors: seq<Author>)
    ensures var e := FirstNonEmpty(authors, QualifyingEmail);
            && (e == "" <==> forall i :: 0 <= i < |authors| ==> !HasUsableEmail(authors[i]))
            && (e != "" ==> exists i :: && 0 <= i < |authors| && HasUsableEmail(authors[i])
                                        && authors[i].email.value == e
                                        && forall j :: 0 <= j < i ==> !HasUsableEmail(authors[j]))
  {
    var e := FirstNonEmpty(authors, QualifyingEmail);
    FirstNonEmptyIsFirst(authors, QualifyingEmail);
    forall i | 0 <= i < |authors|
      ensures QualifyingEmail(authors[i]) != "" <==> HasUsableEmail(authors[i])
      ensures HasUsableEmail(authors[i]) ==> QualifyingEmail(authors[i]) == authors[i].email.value
    {
      QualifyingEmailUsable(authors[i]);
    }
    if e != "" {
      var i :| && 0 <= i < |authors| && QualifyingEmail(authors[i]) == e
               && forall j :: 0 <= j < i ==> QualifyingEmail(authors[j]) == "";
      assert HasUsableEmail(authors[i]) && authors[i].email.value == e;
    }
  }
}
