/** The record shaping inside the PubMed XML parser: which element texts
    become dictionary fields, how the publication date is joined, and how
    an author's email is cut out of an affiliation. The XML traversal
    itself is not modelled: each element arrives as an optional text,
    `None` standing for a missing element or an element without text. */
module PubMed {
  import opened Wrappers
  import opened Text
  import opened Seqs
  import opened Records

  /** The `PubDate` element's `Year`, `Month` and `Day` children. */
  datatype DateElem = DateElem(year: Option<string>, month: Option<string>, day: Option<string>)

  /** An `Author` element: its `LastName` and `ForeName` children and the
      texts of its `Affiliation` descendants, in document order. */
  datatype AuthorElem = AuthorElem(
    lastName: Option<string>,
    foreName: Option<string>,
    affiliations: seq<Option<string>>)

  /** A `PubmedArticle` element: `PMID`, `ArticleTitle`, `PubDate` and the
      `Author` elements of its `AuthorList`, when these exist. */
  datatype ArticleElem = ArticleElem(
    pmid: Option<string>,
    title: Option<string>,
    pubDate: Option<DateElem>,
    authorList: Option<seq<AuthorElem>>)

  /** An element text that counts: present and non-empty (Python's
      `elem is not None and elem.text`). */
  function NonEmptyText(text: Option<string>): Option<string> {
    if text.Some? && text.value != "" then text else None
  }

  // ---------------------------------------------------------------------
  // Publication date

  /** The non-empty date parts in the order year, month, day. */
  function DateParts(date: DateElem): seq<string> {
    FilterMap([date.year, date.month, date.day], NonEmptyText)
  }

  /** The `publication_date` field: the parts joined with "-", absent when
      there is no `PubDate` element or none of its parts has text. */
  function PublicationDate(pubDate: Option<DateElem>): Option<string> {
    if pubDate.None? || DateParts(pubDate.value) == [] then None
    else Some(Join("-", DateParts(pubDate.value)))
  }

  /** Builds `date_parts` by appending each present part, then joins it. */
  method JoinDate(pubDate: Option<DateElem>) returns (date: Option<string>)
    ensures date == PublicationDate(pubDate)
  {
    date := None;
    if pubDate.Some? {
      var d := pubDate.value;
      var parts: seq<string> := [];
      if d.year.Some? && d.year.value != "" {
        parts := parts + [d.year.value];
      }
      if d.month.Some? && d.month.value != "" {
        parts := parts + [d.month.value];
      }
      if d.day.Some? && d.day.value != "" {
        parts := parts + [d.day.value];
      }
      assert parts == DateParts(d) by { DatePartsSpelledOut(d); }
      if parts != [] {
        date := Some(Join("-", parts));
      }
    }
  }

  /** The part appended for one optional text. */
  function PartOf(text: Option<string>): seq<string> {
    Emit(NonEmptyText(text))
  }

  /** The date parts are exactly the year, month and day that have text,
      in that order. */
  lemma DatePartsSpelledOut(date: DateElem)
    ensures DateParts(date) == PartOf(date.year) + PartOf(date.month) + PartOf(date.day)
  {
    var xs := [date.year, date.month, date.day];
    var ym, y := xs[..2], xs[..2][..1];
    assert y[..0] == [];
    assert FilterMap(y, NonEmptyText) == Emit(NonEmptyText(date.year));
    assert FilterMap(ym, NonEmptyText) == FilterMap(y, NonEmptyText) + Emit(NonEmptyText(date.month));
    assert FilterMap(xs, NonEmptyText) == FilterMap(ym, NonEmptyText) + Emit(NonEmptyText(date.day));
  }

  /** The date is absent exactly when no part has text; when present it
      splits on "-" back into the year, month and day that have text,
      provided none of them contains a "-". */
  lemma PublicationDateRoundTrip(date: DateElem)
    requires forall k :: 0 <= k < |DateParts(date)| ==> '-' !in DateParts(date)[k]
    ensures PublicationDate(Some(date)).None? <==>
            NonEmptyText(date.year).None? && NonEmptyText(date.month).None? && NonEmptyText(date.day).None?
    ensures PublicationDate(Some(date)).Some? ==>
            Split(PublicationDate(Some(date)).value, '-') ==
            PartOf(date.year) + PartOf(date.month) + PartOf(date.day)
  {
    DatePartsSpelledOut(date);
    var parts := DateParts(date);
    if parts != [] {
      assert "-" == ['-'];
      SplitOfJoin(parts, '-');
    }
  }

  // ---------------------------------------------------------------------
  // Email scan

  /** The characters that end an email on either side. */
  predicate IsBoundary(c: char) {
    c == ' ' || c == ',' || c == ';' || c == '(' || c == ')'
  }

  /** `aff[start..end + 1]` is the maximal run around index `at` whose
      characters other than `aff[at]` are not boundary characters. */
  predicate IsEmailSpan(aff: string, at: int, start: int, end: int) {
    && 0 <= start <= at <= end < |aff|
    && (forall k :: start <= k <= end && k != at ==> !IsBoundary(aff[k]))
    && (start == 0 || IsBoundary(aff[start - 1]))
    && (end == |aff| - 1 || IsBoundary(aff[end + 1]))
  }

  /** The two index loops: step `start` left and `end` right from `at`
      while the next character is not a boundary. */
  method ScanEmail(aff: string, at: nat) returns (start: nat, end: nat)
    requires at < |aff|
    ensures IsEmailSpan(aff, at, start, end)
  {
    start := at;
    while start > 0 && !IsBoundary(aff[start - 1])
      invariant start <= at
      invariant forall k :: start <= k < at ==> !IsBoundary(aff[k])
      decreases start
    {
      start := start - 1;
    }
    end := at;
    while end < |aff| - 1 && !IsBoundary(aff[end + 1])
      invariant at <= end < |aff|
      invariant forall k :: at < k <= end ==> !IsBoundary(aff[k])
      decreases |aff| - end
    {
      end := end + 1;
    }
  }

  /** The span around a given index is unique. */
  lemma EmailSpanUnique(aff: string, at: int, s1: int, e1: int, s2: int, e2: int)
    requires IsEmailSpan(aff, at, s1, e1) && IsEmailSpan(aff, at, s2, e2)
    ensures s1 == s2 && e1 == e2
  {
    assert s2 <= s1;
    assert s1 <= s2;
    assert e1 <= e2;
    assert e2 <= e1;
  }

  /** `i` is the first affiliation that contains an "@". */
  predicate FirstWithAt(affiliations: seq<string>, i: int) {
    && 0 <= i < |affiliations|
    && '@' in affiliations[i]
    && forall j :: 0 <= j < i ==> '@' !in affiliations[j]
  }

  /** `email` is the span around the first "@" of `aff`. */
  ghost predicate IsEmailOf(aff: string, email: string) {
    exists start, end ::
      && IsEmailSpan(aff, IndexOfChar(aff, '@'), start, end)
      && email == aff[start..end + 1]
  }

  /** `email` is what the scan yields for these kept affiliations: nothing
      when none contains "@", and otherwise the span around the first "@"
      of the first affiliation that has one. */
  ghost predicate IsExtractedEmail(affiliations: seq<string>, email: Option<string>) {
    && (email.None? <==> forall i :: 0 <= i < |affiliations| ==> '@' !in affiliations[i])
    && (email.Some? ==>
          exists i :: FirstWithAt(affiliations, i) && IsEmailOf(affiliations[i], email.value))
  }

  /** The loop over the kept affiliations that stops at the first one
      containing "@". */
  method ExtractEmail(affiliations: seq<string>) returns (email: Option<string>)
    ensures IsExtractedEmail(affiliations, email)
  {
    email := None;
    var i := 0;
    while i < |affiliations|
      invariant 0 <= i <= |affiliations|
      invariant email.None?
      invariant forall j :: 0 <= j < i ==> '@' !in affiliations[j]
    {
      var aff := affiliations[i];
      if '@' in aff {
        var at := IndexOfChar(aff, '@');
        var start, end := ScanEmail(aff, at);
        email := Some(aff[start..end + 1]);
        assert IsEmailOf(aff, email.value);
        assert FirstWithAt(affiliations, i);
        break;
      }
      i := i + 1;
    }
  }

  lemma FirstWithAtUnique(affiliations: seq<string>, i1: int, i2: int)
    requires FirstWithAt(affiliations, i1) && FirstWithAt(affiliations, i2)
    ensures i1 == i2
  {
    assert i1 <= i2;
    assert i2 <= i1;
  }

  /** At most one email satisfies the description. */
  lemma ExtractedEmailUnique(affiliations: seq<string>, e1: Option<string>, e2: Option<string>)
    requires IsExtractedEmail(affiliations, e1) && IsExtractedEmail(affiliations, e2)
    ensures e1 == e2
  {
    if e1.Some? && e2.Some? {
      var i1 :| FirstWithAt(affiliations, i1) && IsEmailOf(affiliations[i1], e1.value);
      var i2 :| FirstWithAt(affiliations, i2) && IsEmailOf(affiliations[i2], e2.value);
      FirstWithAtUnique(affiliations, i1, i2);
      EmailOfUnique(affiliations[i1], e1.value, e2.value);
    }
  }

  lemma EmailOfUnique(aff: string, x: string, y: string)
    requires IsEmailOf(aff, x) && IsEmailOf(aff, y)
    ensures x == y
  {
    var at := IndexOfChar(aff, '@');
    var s1, n1 :| IsEmailSpan(aff, at, s1, n1) && x == aff[s1..n1 + 1];
    var s2, n2 :| IsEmailSpan(aff, at, s2, n2) && y == aff[s2..n2 + 1];
    EmailSpanUnique(aff, at, s1, n1, s2, n2);
  }

  /** An extracted email is a non-empty stretch of one affiliation that
      holds its first "@" and no boundary character. */
  lemma ExtractedEmailShape(affiliations: seq<string>, email: string)
    requires IsExtractedEmail(affiliations, Some(email))
    ensures '@' in email
    ensures forall k :: 0 <= k < |email| ==> !IsBoundary(email[k])
  {
    var i :| FirstWithAt(affiliations, i) && IsEmailOf(affiliations[i], email);
    EmailOfShape(affiliations[i], email);
  }

  lemma EmailOfShape(aff: string, email: string)
    requires '@' in aff && IsEmailOf(aff, email)
    ensures '@' in email
    ensures forall k :: 0 <= k < |email| ==> !IsBoundary(email[k])
  {
    var at := IndexOfChar(aff, '@');
    var start, end :| IsEmailSpan(aff, at, start, end) && email == aff[start..end + 1];
    assert email[at - start] == aff[at] == '@';
    forall k | 0 <= k < |email| ensures !IsBoundary(email[k]) {
      assert email[k] == aff[start + k];
    }
  }

  // ---------------------------------------------------------------------
  // Authors, articles and the whole result set

  /** The kept affiliation texts: the non-empty ones, in document order. */
  function KeptAffiliations(elem: AuthorElem): seq<string> {
    FilterMap(elem.affiliations, NonEmptyText)
  }

  /** Every kept affiliation is non-empty, and they are exactly the
      non-empty texts in document order. */
  lemma KeptAffiliationsExactly(elem: AuthorElem)
    ensures forall k :: 0 <= k < |KeptAffiliations(elem)| ==> KeptAffiliations(elem)[k] != ""
    ensures SelectedAt(elem.affiliations, NonEmptyText, SomeIndices(elem.affiliations, NonEmptyText),
                       KeptAffiliations(elem))
  {
    FilterMapSelects(elem.affiliations, NonEmptyText);
    var idx := SomeIndices(elem.affiliations, NonEmptyText);
    forall k | 0 <= k < |KeptAffiliations(elem)| ensures KeptAffiliations(elem)[k] != "" {
      assert NonEmptyText(elem.affiliations[idx[k]]) == Some(KeptAffiliations(elem)[k]);
    }
  }

  /** The author dictionary built from an `Author` element: name keys only
      for non-empty texts, `affiliations` always present, `email` as the
      scan gives it. */
  ghost predicate ParsedAuthor(elem: AuthorElem, author: Author) {
    && author.lastName == NonEmptyText(elem.lastName)
    && author.foreName == NonEmptyText(elem.foreName)
    && author.affiliations == Some(KeptAffiliations(elem))
    && IsExtractedEmail(KeptAffiliations(elem), author.email)
  }

  method ParseAuthor(elem: AuthorElem) returns (author: Author)
    ensures ParsedAuthor(elem, author)
  {
    var affiliations: seq<string> := [];
    for j := 0 to |elem.affiliations|
      invariant affiliations == FilterMap(elem.affiliations[..j], NonEmptyText)
    {
      FilterMapSnoc(elem.affiliations, j, NonEmptyText);
      var text := elem.affiliations[j];
      if text.Some? && text.value != "" {
        affiliations := affiliations + [text.value];
      }
    }
    assert elem.affiliations[..|elem.affiliations|] == elem.affiliations;
    var email := ExtractEmail(affiliations);
    var kept := None;
    if email.Some? && email.value != "" {
      kept := email;
    }
    assert kept == email by {
      if email.Some? { ExtractedEmailShape(affiliations, email.value); }
    }
    author := Author(NonEmptyText(elem.foreName), NonEmptyText(elem.lastName), Some(affiliations), kept);
  }

  /** The `email` key is present exactly when some kept affiliation holds
      an "@", and it is then a non-empty string holding an "@". */
  lemma ParsedAuthorEmail(elem: AuthorElem, author: Author)
    requires ParsedAuthor(elem, author)
    ensures author.email.Some? <==>
            exists k :: 0 <= k < |KeptAffiliations(elem)| && '@' in KeptAffiliations(elem)[k]
    ensures author.email.Some? ==> '@' in author.email.value && author.email.value != ""
  {
    if author.email.Some? {
      ExtractedEmailShape(KeptAffiliations(elem), author.email.value);
    }
  }

  /** The paper dictionary built from a `PubmedArticle` element: `pmid`,
      `title` and `publication_date` only when they have text, `authors`
      always present, with one author per `Author` element. */
  ghost predicate ParsedArticle(article: ArticleElem, paper: Paper) {
    && paper.pmid == NonEmptyText(article.pmid)
    && paper.title == NonEmptyText(article.title)
    && paper.publicationDate == PublicationDate(article.pubDate)
    && paper.authors.Some?
    && var elems := article.authorList.GetOr([]);
       && |paper.authors.value| == |elems|
       && forall k :: 0 <= k < |elems| ==> ParsedAuthor(elems[k], paper.authors.value[k])
  }

  method ParseArticle(article: ArticleElem) returns (paper: Paper)
    ensures ParsedArticle(article, paper)
  {
    var date := JoinDate(article.pubDate);
    var authors: seq<Author> := [];
    var elems := article.authorList.GetOr([]);
    for i := 0 to |elems|
      invariant |authors| == i
      invariant forall k :: 0 <= k < i ==> ParsedAuthor(elems[k], authors[k])
    {
      var author := ParseAuthor(elems[i]);
      authors := authors + [author];
    }
    paper := Paper(NonEmptyText(article.pmid), NonEmptyText(article.title), date, Some(authors));
  }

  /** One paper per `PubmedArticle` element, in document order. */
  method ParsePubMed(articles: seq<ArticleElem>) returns (papers: seq<Paper>)
    ensures |papers| == |articles|
    ensures forall i :: 0 <= i < |articles| ==> ParsedArticle(articles[i], papers[i])
  {
    papers := [];
    for i := 0 to |articles|
      invariant |papers| == i
      invariant forall k :: 0 <= k < i ==> ParsedArticle(articles[k], papers[k])
    {
      var paper := ParseArticle(articles[i]);
      papers := papers + [paper];
    }
  }
}
