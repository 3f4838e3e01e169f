/** The common record every provider adapter produces, and the key the
    deduplicator compares records by. */
module Records {
  import opened Text

  /** One entry of the combined result list: the seven columns of the export,
      all plain strings. */
  datatype Record = Record(
    source: string,
    title: string,
    authors: string,
    year: string,
    abstractText: string,
    doi: string,
    url: string)

  /** The `Source` value each adapter writes. */
  const PUBMED: string := "PubMed"
  const ARXIV: string := "arXiv"
  const CROSSREF: string := "CrossRef"
  const EUROPE_PMC: string := "Europe PMC"

  /** The separator the adapters put between author names. */
  const AUTHOR_SEPARATOR: string := "; "

  /** The deduplication key `(Title.lower(), Year)`. */
  datatype Key = Key(title: string, year: string)

  /** The key of a record: its year unchanged and a title of the same
      length; `KeyTitleIsLowerCase` says that title is the record's title
      up to letter case, with no upper-case letter left. */
  function KeyOf(r: Record): (k: Key)
    ensures k.year == r.year
    ensures |k.title| == |r.title|
  {
    Key(Lower(r.title), r.year)
  }

  lemma KeyTitleIsLowerCase(r: Record)
    ensures EqualIgnoringCase(KeyOf(r).title, r.title)
    ensures forall i :: 0 <= i < |KeyOf(r).title| ==> !IsAsciiUpper(KeyOf(r).title[i])
  {
    LowerHasNoUpper(r.title);
    forall i | 0 <= i < |r.title|
      ensures SameLetterIgnoringCase(Lower(r.title)[i], r.title[i])
    {
      SameLetterIffSameLower(Lower(r.title)[i], r.title[i]);
    }
  }

  /** Two records collide exactly when their titles agree up to the case of
      ASCII letters and their year strings are identical character for
      character. */
  lemma SameKeyIff(r: Record, s: Record)
    ensures KeyOf(r) == KeyOf(s) <==> EqualIgnoringCase(r.title, s.title) && r.year == s.year
  {
    LowerEqualIff(r.title, s.title);
  }

  /** The author list is recoverable from the joined `Authors` string when
      no name contains `;`: splitting at `;` gives one piece per author, in
      order, each later one behind the space of the separator. */
  lemma AuthorsRecoverable(names: seq<string>)
    requires |names| >= 1
    requires forall i :: 0 <= i < |names| ==> ';' !in names[i]
    ensures |Split(Join(names, AUTHOR_SEPARATOR), ';')| == |names|
    ensures Split(Join(names, AUTHOR_SEPARATOR), ';')[0] == names[0]
    ensures forall i :: 1 <= i < |names| ==>
              Split(Join(names, AUTHOR_SEPARATOR), ';')[i] == " " + names[i]
  {
    assert AUTHOR_SEPARATOR == [';'] + " ";
    JoinSplit(names, ';', " ");
    var pieces := Split(Join(names, AUTHOR_SEPARATOR), ';');
    assert pieces == [names[0]] + Behind(" ", names[1..]);
    forall i | 1 <= i < |names|
      ensures pieces[i] == " " + names[i]
    {
      assert pieces[i] == Behind(" ", names[1..])[i - 1];
      assert names[1..][i - 1] == names[i];
    }
  }
}
