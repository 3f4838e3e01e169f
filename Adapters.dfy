/** The four provider adapters, each turning the items its provider returned
    (already parsed into optional fields) into common records. A field marked
    `Option` is one the provider may leave out: `None` stands for a missing
    key or a missing XML element. */
module Adapters {
  import opened Text
  import opened Records

  datatype Option<T> = None | Some(value: T) {
    /** `d.get(key, default)`. */
    function GetOr(default: T): T {
      if Some? then value else default
    }
  }

  /** The Python exceptions the record-building expressions can raise. None
      of them is caught, so any of them ends the whole run. The `subject`
      names the lookup whose result caused it: an element tag or a JSON
      key. */
  datatype Crash =
    | AttributeError(subject: string)
    | TypeError(subject: string)
    | IndexError(subject: string)

  datatype Result<T> = Ok(value: T) | Err(crash: Crash) {
    predicate IsFailure() {
      Err?
    }

    function PropagateFailure<U>(): Result<U>
      requires Err?
    {
      Err(crash)
    }

    function Extract(): T
      requires Ok?
    {
      value
    }
  }

  /** Builds the records of `xs` in order, stopping at the first item whose
      record cannot be built. */
  function MapResults<T>(f: T -> Result<Record>, xs: seq<T>): (r: Result<seq<Record>>)
    ensures r.Ok? <==> forall i :: 0 <= i < |xs| ==> f(xs[i]).Ok?
    ensures r.Ok? ==> |r.value| == |xs| && forall i :: 0 <= i < |xs| ==> r.value[i] == f(xs[i]).value
    ensures r.Err? ==> exists i :: 0 <= i < |xs| && f(xs[i]) == Err(r.crash) && forall j :: 0 <= j < i ==> f(xs[j]).Ok?
    decreases |xs|
  {
    if xs == [] then Ok([])
    else
      var init := xs[..|xs| - 1];
      assert forall i :: 0 <= i < |init| ==> init[i] == xs[i];
      var done :- MapResults(f, init);
      var last :- f(xs[|xs| - 1]);
      Ok(done + [last])
  }

  /** When every item up to `i` builds and item `i` crashes, the run stops
      with that crash. */
  lemma MapResultsFirstCrash<T>(f: T -> Result<Record>, xs: seq<T>, i: nat)
    requires i < |xs| && f(xs[i]).Err?
    requires forall j :: 0 <= j < i ==> f(xs[j]).Ok?
    ensures MapResults(f, xs) == Err(f(xs[i]).crash)
  {
    var r := MapResults(f, xs);
    var k :| 0 <= k < |xs| && f(xs[k]) == Err(r.crash) && forall j :: 0 <= j < k ==> f(xs[j]).Ok?;
    assert k == i;
  }

  /** When every item builds, the run gives their records in order. */
  lemma MapResultsAllBuilt<T>(f: T -> Result<Record>, xs: seq<T>, rs: seq<Record>)
    requires |rs| == |xs|
    requires forall i :: 0 <= i < |xs| ==> f(xs[i]) == Ok(rs[i])
    ensures MapResults(f, xs) == Ok(rs)
  {
    var r := MapResults(f, xs);
    assert r.value == rs;
  }

  /** One more step of a loop that appends the records of `all` in order. */
  lemma PrefixStep(all: seq<Record>, i: nat, r: Record)
    requires i < |all| && all[i] == r
    ensures all[..i + 1] == all[..i] + [r]
  {
  }

  // ---------------------------------------------------------------- PubMed

  /** A MEDLINE record as the MEDLINE reader returns it: a dictionary from
      field tags to values, any of which may be missing. */
  datatype MedlineRecord = MedlineRecord(
    ti: Option<string>,       // title
    au: Option<seq<string>>,  // authors, in publication order
    dp: Option<string>,       // publication date, such as "2023 Jan 5"
    ab: Option<string>,       // abstract
    lid: Option<string>,      // location identifier
    pmid: Option<string>)     // PubMed identifier

  const PUBMED_URL_PREFIX: string := "https://pubmed.ncbi.nlm.nih.gov/"

  /** The record `search_pubmed` appends for one MEDLINE record. */
  function FromMedline(rec: MedlineRecord): (r: Record)
    ensures r.source == PUBMED
    ensures r.title == Strip(rec.ti.GetOr("")) && IsStripped(r.title)
    ensures r.authors == Join(rec.au.GetOr([]), AUTHOR_SEPARATOR)
    ensures IsFirstField(rec.dp.GetOr(""), ' ', r.year)
    ensures r.year <= rec.dp.GetOr("") && ' ' !in r.year
    ensures rec.dp.GetOr("") == "" ==> r.year == ""
    ensures r.abstractText == rec.ab.GetOr("") && r.doi == rec.lid.GetOr("")
    ensures r.url == PUBMED_URL_PREFIX + rec.pmid.GetOr("") + "/"
  {
    Record(
      PUBMED,
      Strip(rec.ti.GetOr("")),
      Join(rec.au.GetOr([]), AUTHOR_SEPARATOR),
      Split(rec.dp.GetOr(""), ' ')[0],
      rec.ab.GetOr(""),
      rec.lid.GetOr(""),
      PUBMED_URL_PREFIX + rec.pmid.GetOr("") + "/")
  }

  /** One record per MEDLINE record, in order. */
  function PubMedRecords(recs: seq<MedlineRecord>): (rs: seq<Record>)
    ensures |rs| == |recs|
    ensures forall i :: 0 <= i < |recs| ==> rs[i] == FromMedline(recs[i])
  {
    seq(|recs|, i requires 0 <= i < |recs| => FromMedline(recs[i]))
  }

  /** The loop of `search_pubmed`: one record per fetched MEDLINE record. */
  method SearchPubMed(recs: seq<MedlineRecord>) returns (found: seq<Record>)
    ensures found == PubMedRecords(recs)
  {
    ghost var all := PubMedRecords(recs);
    found := [];
    for i := 0 to |recs|
      invariant found == all[..i]
    {
      var r := FromMedline(recs[i]);
      PrefixStep(all, i, r);
      found := found + [r];
    }
    assert all[..|recs|] == all;
  }

  // ----------------------------------------------------------------- arXiv

  /** An Atom element returned by `find`, with its `.text`, which is `None`
      for an element without character content. */
  datatype Element = Element(text: Option<string>)

  datatype AtomAuthor = AtomAuthor(name: Option<Element>)

  /** One `atom:entry` of the arXiv feed: the results of its `find` lookups
      (`None` when the child element is missing) and its `atom:author`
      children in document order. */
  datatype AtomEntry = AtomEntry(
    title: Option<Element>,
    authors: seq<AtomAuthor>,
    published: Option<Element>,
    summary: Option<Element>,
    id: Option<Element>)

  const TITLE_TAG: string := "atom:title"
  const NAME_TAG: string := "atom:name"
  const PUBLISHED_TAG: string := "atom:published"
  const SUMMARY_TAG: string := "atom:summary"
  const ID_TAG: string := "atom:id"

  predicate HasText(e: Option<Element>) {
    e.Some? && e.value.text.Some?
  }

  /** `entry.find(tag).text`: a missing element is `None`, which has no
      `text` attribute. */
  function FindText(e: Option<Element>, tag: string): (r: Result<Option<string>>)
    ensures r.Ok? <==> e.Some?
    ensures r.Ok? ==> r.value == e.value.text
    ensures r.Err? ==> r.crash == AttributeError(tag)
  {
    match e
    case None => Err(AttributeError(tag))
    case Some(el) => Ok(el.text)
  }

  /** `entry.find(tag).text` used as a string (`.strip()`, `.split(...)`):
      a missing text is `None`, which has no such method either. */
  function FindString(e: Option<Element>, tag: string): (r: Result<string>)
    ensures r.Ok? <==> HasText(e)
    ensures r.Ok? ==> r.value == e.value.text.value
  {
    var t :- FindText(e, tag);
    match t
    case None => Err(AttributeError(tag))
    case Some(s) => Ok(s)
  }

  /** The author comprehension of `search_arxiv` followed by the join: the
      comprehension raises `AttributeError` at an author without a name
      element; `join` raises `TypeError` at a name whose text is `None`.
      The first kind of failure wins, because the comprehension runs before
      the join. */
  function AtomAuthorNames(authors: seq<AtomAuthor>): (r: Result<seq<string>>)
    ensures r.Ok? <==> forall i :: 0 <= i < |authors| ==> HasText(authors[i].name)
    ensures r.Ok? ==> |r.value| == |authors| &&
                      forall i :: 0 <= i < |authors| ==> r.value[i] == authors[i].name.value.text.value
    ensures (exists i :: 0 <= i < |authors| && authors[i].name.None?) ==> r == Err(AttributeError(NAME_TAG))
    ensures (forall i :: 0 <= i < |authors| ==> authors[i].name.Some?) && !r.Ok? ==> r == Err(TypeError(NAME_TAG))
  {
    if exists i :: 0 <= i < |authors| && authors[i].name.None? then
      Err(AttributeError(NAME_TAG))
    else if exists i :: 0 <= i < |authors| && authors[i].name.value.text.None? then
      Err(TypeError(NAME_TAG))
    else
      Ok(seq(|authors|, i requires 0 <= i < |authors| && HasText(authors[i].name) =>
               authors[i].name.value.text.value))
  }

  /** Everything `search_arxiv` needs of an entry to build its record
      without an exception. */
  predicate AtomEntryComplete(e: AtomEntry) {
    && HasText(e.title)
    && (forall i :: 0 <= i < |e.authors| ==> HasText(e.authors[i].name))
    && HasText(e.published)
    && e.summary.Some?
    && e.id.Some?
  }

  /** The record `search_arxiv` appends for one feed entry. An element
      without text in `atom:summary` or `atom:id` gives `None`, which the
      export writes as an empty field; it is modelled as the empty string. */
  function FromAtomEntry(e: AtomEntry): (r: Result<Record>)
    ensures r.Ok? <==> AtomEntryComplete(e)
    ensures !HasText(e.title) ==> r == Err(AttributeError(TITLE_TAG))
    ensures r.Ok? ==> && r.value.source == ARXIV
                      && r.value.title == Strip(e.title.value.text.value)
                      && IsStripped(r.value.title)
                      && r.value.authors == Join(AtomAuthorNames(e.authors).value, AUTHOR_SEPARATOR)
                      && IsFirstField(e.published.value.text.value, '-', r.value.year)
                      && r.value.year <= e.published.value.text.value && '-' !in r.value.year
                      && (e.published.value.text.value == "" ==> r.value.year == "")
                      && r.value.abstractText == e.summary.value.text.GetOr("")
                      && r.value.doi == ""
                      && r.value.url == e.id.value.text.GetOr("")
  {
    var title :- FindString(e.title, TITLE_TAG);
    var names :- AtomAuthorNames(e.authors);
    var published :- FindString(e.published, PUBLISHED_TAG);
    var summary :- FindText(e.summary, SUMMARY_TAG);
    var id :- FindText(e.id, ID_TAG);
    Ok(Record(
         ARXIV,
         Strip(title),
         Join(names, AUTHOR_SEPARATOR),
         Split(published, '-')[0],
         summary.GetOr(""),
         "",
         id.GetOr("")))
  }

  /** The inner loop of `search_arxiv` over the entries of all pages, in
      page order; the first entry that raises ends the run. */
  method SearchArxiv(entries: seq<AtomEntry>) returns (found: Result<seq<Record>>)
    ensures found == MapResults(FromAtomEntry, entries)
  {
    var acc: seq<Record> := [];
    for i := 0 to |entries|
      invariant |acc| == i
      invariant forall k :: 0 <= k < i ==> FromAtomEntry(entries[k]) == Ok(acc[k])
    {
      var r := FromAtomEntry(entries[i]);
      if r.Err? {
        MapResultsFirstCrash(FromAtomEntry, entries, i);
        found := Err(r.crash);
        return;
      }
      acc := acc + [r.value];
    }
    MapResultsAllBuilt(FromAtomEntry, entries, acc);
    found := Ok(acc);
  }

  // -------------------------------------------------------------- CrossRef

  /** One entry of a CrossRef work's `author` list. */
  datatype CrossRefAuthor = CrossRefAuthor(given: Option<string>, family: Option<string>)

  /** A work's `issued` object; `date-parts` is a list of date lists whose
      first element is the year, or `null`. */
  datatype Issued = Issued(dateParts: Option<seq<seq<Option<int>>>>)

  /** One element of `message.items` of a CrossRef works response. */
  datatype CrossRefItem = CrossRefItem(
    title: Option<seq<string>>,
    author: Option<seq<CrossRefAuthor>>,
    issued: Option<Issued>,
    doi: Option<string>,
    url: Option<string>)

  datatype CrossRefMessage = CrossRefMessage(items: Option<seq<CrossRefItem>>)

  /** The HTTP status of the single CrossRef request and its decoded body. */
  datatype CrossRefResponse = CrossRefResponse(status: int, message: Option<CrossRefMessage>)

  /** The name parts of a CrossRef author: given name, then family name,
      each only when present. */
  function NameParts(a: CrossRefAuthor): (parts: seq<string>)
    ensures |parts| == (if a.given.Some? then 1 else 0) + (if a.family.Some? then 1 else 0)
    ensures a.given.Some? ==> parts[0] == a.given.value
    ensures a.family.Some? ==> parts[|parts| - 1] == a.family.value
  {
    (if a.given.Some? then [a.given.value] else []) + (if a.family.Some? then [a.family.value] else [])
  }

  /** `" ".join(name_parts)`. */
  function CrossRefName(a: CrossRefAuthor): (name: string)
    ensures a.given.Some? && a.family.Some? ==> name == a.given.value + " " + a.family.value
    ensures a.given.Some? && a.family.None? ==> name == a.given.value
    ensures a.given.None? && a.family.Some? ==> name == a.family.value
    ensures a.given.None? && a.family.None? ==> name == ""
  {
    var parts := NameParts(a);
    assert |parts| == 2 ==> Join(parts, " ") == parts[0] + " " + parts[1];
    Join(parts, " ")
  }

  /** One display name per `author` entry, in the provider's order. */
  function CrossRefNames(authors: seq<CrossRefAuthor>): (names: seq<string>)
    ensures |names| == |authors|
    ensures forall i :: 0 <= i < |authors| ==> names[i] == CrossRefName(authors[i])
  {
    if authors == [] then [] else [CrossRefName(authors[0])] + CrossRefNames(authors[1..])
  }

  /** `item.get("title", [""])[0]`: an empty title list raises `IndexError`. */
  function CrossRefTitle(title: Option<seq<string>>): (r: Result<string>)
    ensures title.None? ==> r == Ok("")
    ensures r.Err? <==> title == Some([])
    ensures title.Some? && r.Ok? ==> r.value == title.value[0]
  {
    match title
    case None => Ok("")
    case Some(ts) => if ts == [] then Err(IndexError("title")) else Ok(ts[0])
  }

  /** The date lists of `item.get("issued", {}).get("date-parts", [[None]])`. */
  function DateParts(issued: Option<Issued>): (parts: seq<seq<Option<int>>>)
    ensures issued.None? || issued.value.dateParts.None? ==> parts == [[None]]
    ensures issued.Some? && issued.value.dateParts.Some? ==> parts == issued.value.dateParts.value
  {
    match issued
    case None => [[None]]
    case Some(i) => i.dateParts.GetOr([[None]])
  }

  /** `str(... [0][0])` of the date lists: `"None"` when the year is missing
      or `null`, its canonical decimal numeral otherwise (which numeral that
      is, `IntDecimalOfCanonical` pins down); an empty list raises
      `IndexError`. */
  function CrossRefYear(issued: Option<Issued>): (r: Result<string>)
    ensures issued.None? || issued.value.dateParts.None? ==> r == Ok("None")
    ensures r.Err? <==> |DateParts(issued)| == 0 || |DateParts(issued)[0]| == 0
    ensures r.Ok? && DateParts(issued)[0][0].None? ==> r.value == "None"
    ensures r.Ok? && DateParts(issued)[0][0].Some? ==>
              IsCanonicalDecimal(r.value) && IsDecimal(r.value) && ParseInt(r.value) == DateParts(issued)[0][0].value
  {
    var parts := DateParts(issued);
    if |parts| == 0 || |parts[0]| == 0 then
      Err(IndexError("date-parts"))
    else
      match parts[0][0]
      case None => Ok("None")
      case Some(y) => Ok(IntDecimal(y))
  }

  /** The record `search_crossref` appends for one item. */
  function FromCrossRefItem(item: CrossRefItem): (r: Result<Record>)
    ensures r.Ok? <==> CrossRefTitle(item.title).Ok? && CrossRefYear(item.issued).Ok?
    ensures r.Ok? ==> && r.value.source == CROSSREF
                      && r.value.title == Strip(CrossRefTitle(item.title).value)
                      && IsStripped(r.value.title)
                      && r.value.authors == Join(CrossRefNames(item.author.GetOr([])), AUTHOR_SEPARATOR)
                      && r.value.year == CrossRefYear(item.issued).value
                      && r.value.abstractText == ""
                      && r.value.doi == item.doi.GetOr("")
                      && r.value.url == item.url.GetOr("")
  {
    var title :- CrossRefTitle(item.title);
    var names := CrossRefNames(item.author.GetOr([]));
    var year :- CrossRefYear(item.issued);
    Ok(Record(
         CROSSREF,
         Strip(title),
         Join(names, AUTHOR_SEPARATOR),
         year,
         "",
         item.doi.GetOr(""),
         item.url.GetOr("")))
  }

  /** `data.get("message", {}).get("items", [])`. */
  function CrossRefItems(resp: CrossRefResponse): (items: seq<CrossRefItem>)
    ensures resp.message.None? || resp.message.value.items.None? ==> items == []
    ensures resp.message.Some? && resp.message.value.items.Some? ==> items == resp.message.value.items.value
  {
    match resp.message
    case None => []
    case Some(m) => m.items.GetOr([])
  }

  /** `search_crossref`: a status other than 200 contributes no records. */
  function CrossRefRecords(resp: CrossRefResponse): (r: Result<seq<Record>>)
    ensures resp.status != 200 ==> r == Ok([])
    ensures resp.status == 200 ==> r == MapResults(FromCrossRefItem, CrossRefItems(resp))
  {
    if resp.status != 200 then Ok([]) else MapResults(FromCrossRefItem, CrossRefItems(resp))
  }

  /** The loop of `search_crossref`. */
  method SearchCrossRef(resp: CrossRefResponse) returns (found: Result<seq<Record>>)
    ensures found == CrossRefRecords(resp)
  {
    if resp.status != 200 {
      return Ok([]);
    }
    var items := CrossRefItems(resp);
    var acc: seq<Record> := [];
    for i := 0 to |items|
      invariant |acc| == i
      invariant forall k :: 0 <= k < i ==> FromCrossRefItem(items[k]) == Ok(acc[k])
    {
      var r := FromCrossRefItem(items[i]);
      if r.Err? {
        MapResultsFirstCrash(FromCrossRefItem, items, i);
        found := Err(r.crash);
        return;
      }
      acc := acc + [r.value];
    }
    MapResultsAllBuilt(FromCrossRefItem, items, acc);
    found := Ok(acc);
  }

  // ------------------------------------------------------------ Europe PMC

  datatype EpmcAuthor = EpmcAuthor(fullName: Option<string>)

  datatype EpmcAuthorList = EpmcAuthorList(author: Option<seq<EpmcAuthor>>)

  /** One element of `resultList.result` of a Europe PMC search page. */
  datatype EpmcHit = EpmcHit(
    title: Option<string>,
    authorList: Option<EpmcAuthorList>,
    pubYear: Option<string>,
    abstractText: Option<string>,
    doi: Option<string>,
    source: Option<string>,
    id: Option<string>)

  const EUROPE_PMC_URL_PREFIX: string := "https://europepmc.org/article/"

  /** The `fullName` of every author of a hit, `""` where it is missing. */
  function EpmcNames(hit: EpmcHit): (names: seq<string>)
    ensures hit.authorList.None? ==> names == []
    ensures hit.authorList.Some? ==>
              var authors := hit.authorList.value.author.GetOr([]);
              |names| == |authors| && forall i :: 0 <= i < |authors| ==> names[i] == authors[i].fullName.GetOr("")
  {
    var authors := match hit.authorList
                   case None => []
                   case Some(l) => l.author.GetOr([]);
    seq(|authors|, i requires 0 <= i < |authors| => authors[i].fullName.GetOr(""))
  }

  /** The record `search_europe_pmc` appends for one hit. */
  function FromEpmcHit(hit: EpmcHit): (r: Record)
    ensures r.source == EUROPE_PMC
    ensures r.title == Strip(hit.title.GetOr("")) && IsStripped(r.title)
    ensures r.authors == Join(EpmcNames(hit), AUTHOR_SEPARATOR)
    ensures r.year == hit.pubYear.GetOr("")
    ensures r.abstractText == hit.abstractText.GetOr("") && r.doi == hit.doi.GetOr("")
    ensures r.url == EUROPE_PMC_URL_PREFIX + hit.source.GetOr("") + "/" + hit.id.GetOr("")
  {
    Record(
      EUROPE_PMC,
      Strip(hit.title.GetOr("")),
      Join(EpmcNames(hit), AUTHOR_SEPARATOR),
      hit.pubYear.GetOr(""),
      hit.abstractText.GetOr(""),
      hit.doi.GetOr(""),
      EUROPE_PMC_URL_PREFIX + hit.source.GetOr("") + "/" + hit.id.GetOr(""))
  }

  /** One record per hit, in order. */
  function EuropePmcRecords(hits: seq<EpmcHit>): (rs: seq<Record>)
    ensures |rs| == |hits|
    ensures forall i :: 0 <= i < |hits| ==> rs[i] == FromEpmcHit(hits[i])
  {
    seq(|hits|, i requires 0 <= i < |hits| => FromEpmcHit(hits[i]))
  }

  /** The inner loop of `search_europe_pmc` over the hits of all pages. */
  method SearchEuropePmc(hits: seq<EpmcHit>) returns (found: seq<Record>)
    ensures found == EuropePmcRecords(hits)
  {
    ghost var all := EuropePmcRecords(hits);
    found := [];
    for i := 0 to |hits|
      invariant found == all[..i]
    {
      var r := FromEpmcHit(hits[i]);
      PrefixStep(all, i, r);
      found := found + [r];
    }
    assert all[..|hits|] == all;
  }
}
