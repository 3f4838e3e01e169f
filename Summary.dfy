/** The script around the adapters: aggregation in a fixed provider order,
    the per-source `Counter` before and after deduplication, and the run as
    a whole. */
module Summary {
  import opened Text
  import opened Records
  import opened Adapters
  import opened Deduplication

  /** `[r["Source"] for r in rs]`. */
  function Sources(rs: seq<Record>): (ss: seq<string>)
    ensures |ss| == |rs|
    ensures forall i :: 0 <= i < |rs| ==> ss[i] == rs[i].source
  {
    if rs == [] then [] else [rs[0].source] + Sources(rs[1..])
  }

  /** `Counter(...)` of the sources: a multiset maps each source to the
      number of records that carry it, so the counts sum to the number of
      records, which is the `Total` line. */
  function SourceCounts(rs: seq<Record>): (c: multiset<string>)
    ensures |c| == |rs|
  {
    multiset(Sources(rs))
  }

  /** A source is counted exactly when some record carries it. */
  lemma CountedIff(rs: seq<Record>, s: string)
    ensures s in SourceCounts(rs) <==> exists i :: 0 <= i < |rs| && rs[i].source == s
  {
    var ss := Sources(rs);
    if s in SourceCounts(rs) {
      assert s in ss;
    }
    if exists i :: 0 <= i < |rs| && rs[i].source == s {
      var i :| 0 <= i < |rs| && rs[i].source == s;
      assert ss[i] == s;
    }
  }

  lemma {:induction false} SourcesConcat(a: seq<Record>, b: seq<Record>)
    ensures Sources(a + b) == Sources(a) + Sources(b)
    decreases |a|
  {
    if a == [] {
      assert a + b == b;
    } else {
      assert (a + b)[1..] == a[1..] + b;
      SourcesConcat(a[1..], b);
    }
  }

  /** Counting a concatenation adds the counts of its parts. */
  lemma CountsConcat(a: seq<Record>, b: seq<Record>)
    ensures SourceCounts(a + b) == SourceCounts(a) + SourceCounts(b)
  {
    SourcesConcat(a, b);
  }

  /** A list whose records all come from source `s` counts only `s`, once
      per record. */
  lemma {:induction false} CountsOfOneSource(rs: seq<Record>, s: string)
    requires forall i :: 0 <= i < |rs| ==> rs[i].source == s
    ensures SourceCounts(rs) == multiset{}[s := |rs|]
    decreases |rs|
  {
    if rs != [] {
      CountsOfOneSource(rs[1..], s);
      assert Sources(rs) == [s] + Sources(rs[1..]);
    }
  }

  lemma SourcesSnoc(rs: seq<Record>, r: Record)
    ensures multiset(Sources(rs + [r])) == multiset(Sources(rs)) + multiset{r.source}
  {
    SourcesConcat(rs, [r]);
    assert Sources([r]) == [r.source];
  }

  lemma SourcesSplitLast(rs: seq<Record>)
    requires rs != []
    ensures multiset(Sources(rs)) == multiset(Sources(rs[..|rs| - 1])) + multiset{rs[|rs| - 1].source}
  {
    var init, r := rs[..|rs| - 1], rs[|rs| - 1];
    assert init + [r] == rs;
    SourcesSnoc(init, r);
  }

  lemma {:induction false} DedupSourcesBounded(rs: seq<Record>)
    ensures multiset(Sources(Dedup(rs))) <= multiset(Sources(rs))
    decreases |rs|
  {
    if rs != [] {
      var init := rs[..|rs| - 1];
      var r := rs[|rs| - 1];
      var d := Dedup(init);
      DedupSourcesBounded(init);
      SourcesSplitLast(rs);
      DedupLast(rs);
      if KeyOf(r) !in KeySet(d) {
        SourcesSnoc(d, r);
      }
    }
  }

  /** Deduplication never raises the count of a source: the records it
      keeps form a sub-multiset of its input. */
  lemma DedupCountsBounded(rs: seq<Record>)
    ensures SourceCounts(Dedup(rs)) <= SourceCounts(rs)
    ensures forall s :: SourceCounts(Dedup(rs))[s] <= SourceCounts(rs)[s]
  {
    DedupSourcesBounded(rs);
  }

  /** The aggregated list: the adapters' records in the order the script
      calls the adapters. */
  function Aggregate(pubmed: seq<Record>, arxiv: seq<Record>, crossref: seq<Record>, europe: seq<Record>): (rs: seq<Record>)
    ensures |rs| == |pubmed| + |arxiv| + |crossref| + |europe|
    ensures rs[..|pubmed|] == pubmed
    ensures rs[|pubmed|..|pubmed| + |arxiv|] == arxiv
    ensures rs[|pubmed| + |arxiv|..|pubmed| + |arxiv| + |crossref|] == crossref
    ensures rs[|pubmed| + |arxiv| + |crossref|..] == europe
  {
    pubmed + arxiv + crossref + europe
  }

  /** What the script reports: the counts before deduplication, the unique
      records it exports and the counts after. */
  datatype RunSummary = RunSummary(before: multiset<string>, unique: seq<Record>, after: multiset<string>)

  /** The two `Counter`s around the deduplication of the aggregated list:
      the exported records have every key of the raw list once, and each
      tally sums to the length of the list it counts. */
  function Summarize(raw: seq<Record>): (s: RunSummary)
    ensures DistinctKeys(s.unique) && KeySet(s.unique) == KeySet(raw)
    ensures |s.before| == |raw| && |s.after| == |s.unique|
  {
    var unique := Dedup(raw);
    RunSummary(SourceCounts(raw), unique, SourceCounts(unique))
  }

  /** Deduplication shortens the list and raises no source's count. */
  lemma SummarizeCounts(raw: seq<Record>)
    ensures |Summarize(raw).unique| <= |raw|
    ensures Summarize(raw).after <= Summarize(raw).before
    ensures forall s :: Summarize(raw).after[s] <= Summarize(raw).before[s]
  {
    DedupCountsBounded(raw);
  }

  /** `search_pubmed()`, `search_arxiv()`, `search_crossref()` and
      `search_europe_pmc()` in that order, then the deduplication and both
      counts. A crash while building a record ends the run: the run
      completes exactly when every arXiv entry has the elements its record
      needs and, when the CrossRef request succeeded, every CrossRef item
      has a non-empty title list and a readable year; an arXiv crash comes
      first. */
  function Pipeline(pubmed: seq<MedlineRecord>, arxiv: seq<AtomEntry>,
                    crossref: CrossRefResponse, europe: seq<EpmcHit>): (r: Result<RunSummary>)
    ensures r.Ok? <==>
              && (forall i :: 0 <= i < |arxiv| ==> AtomEntryComplete(arxiv[i]))
              && (crossref.status == 200 ==>
                    forall i :: 0 <= i < |CrossRefItems(crossref)| ==> FromCrossRefItem(CrossRefItems(crossref)[i]).Ok?)
    ensures MapResults(FromAtomEntry, arxiv).Err? ==> r == Err(MapResults(FromAtomEntry, arxiv).crash)
  {
    var a :- MapResults(FromAtomEntry, arxiv);
    var c :- CrossRefRecords(crossref);
    Ok(Summarize(Aggregate(PubMedRecords(pubmed), a, c, EuropePmcRecords(europe))))
  }

  /** The script itself: each adapter's loop, then the deduplication loop. */
  method RunPipeline(pubmed: seq<MedlineRecord>, arxiv: seq<AtomEntry>,
                     crossref: CrossRefResponse, europe: seq<EpmcHit>) returns (run: Result<RunSummary>)
    ensures run == Pipeline(pubmed, arxiv, crossref, europe)
  {
    var p := SearchPubMed(pubmed);
    assert p == PubMedRecords(pubmed);
    var a := SearchArxiv(arxiv);
    if a.Err? {
      return Err(a.crash);
    }
    var c := SearchCrossRef(crossref);
    if c.Err? {
      return Err(c.crash);
    }
    var e := SearchEuropePmc(europe);
    assert e == EuropePmcRecords(europe);
    var raw := p + a.value + c.value + e;
    var unique := Deduplicate(raw);
    run := Ok(RunSummary(SourceCounts(raw), unique, SourceCounts(unique)));
  }

  /** The records of each adapter carry that adapter's source, so before
      deduplication each source counts exactly the records its adapter
      produced; the count sum and the bound after deduplication are those
      of `SummarizeCounts`. */
  lemma AggregateCounts(p: seq<Record>, a: seq<Record>, c: seq<Record>, e: seq<Record>)
    requires forall i :: 0 <= i < |p| ==> p[i].source == PUBMED
    requires forall i :: 0 <= i < |a| ==> a[i].source == ARXIV
    requires forall i :: 0 <= i < |c| ==> c[i].source == CROSSREF
    requires forall i :: 0 <= i < |e| ==> e[i].source == EUROPE_PMC
    ensures SourceCounts(Aggregate(p, a, c, e)) ==
              multiset{}[PUBMED := |p|] + multiset{}[ARXIV := |a|] +
              multiset{}[CROSSREF := |c|] + multiset{}[EUROPE_PMC := |e|]
  {
    CountsOfOneSource(p, PUBMED);
    CountsOfOneSource(a, ARXIV);
    CountsOfOneSource(c, CROSSREF);
    CountsOfOneSource(e, EUROPE_PMC);
    CountsConcat(p, a);
    CountsConcat(p + a, c);
    CountsConcat(p + a + c, e);
  }

  /** The `Counter` of a completed run before deduplication: one PubMed
      count per MEDLINE record, one arXiv count per feed entry, one CrossRef
      count per item of a response with status 200 (none otherwise) and one
      Europe PMC count per hit. */
  lemma PipelineCounts(pubmed: seq<MedlineRecord>, arxiv: seq<AtomEntry>,
                       crossref: CrossRefResponse, europe: seq<EpmcHit>)
    requires Pipeline(pubmed, arxiv, crossref, europe).Ok?
    ensures Pipeline(pubmed, arxiv, crossref, europe).value.before ==
              multiset{}[PUBMED := |pubmed|] + multiset{}[ARXIV := |arxiv|] +
              multiset{}[CROSSREF := if crossref.status == 200 then |CrossRefItems(crossref)| else 0] +
              multiset{}[EUROPE_PMC := |europe|]
  {
    var p := PubMedRecords(pubmed);
    var a := MapResults(FromAtomEntry, arxiv).value;
    var c := CrossRefRecords(crossref).value;
    var e := EuropePmcRecords(europe);
    assert Pipeline(pubmed, arxiv, crossref, europe).value.before == SourceCounts(Aggregate(p, a, c, e));
    CrossRefCount(crossref);
    AggregateCounts(p, a, c, e);
  }

  /** A successful CrossRef response gives one CrossRef record per item. */
  lemma CrossRefCount(resp: CrossRefResponse)
    requires CrossRefRecords(resp).Ok?
    ensures |CrossRefRecords(resp).value| == if resp.status == 200 then |CrossRefItems(resp)| else 0
    ensures forall i :: 0 <= i < |CrossRefRecords(resp).value| ==> CrossRefRecords(resp).value[i].source == CROSSREF
  {
    if resp.status == 200 {
      var items := CrossRefItems(resp);
      var c := CrossRefRecords(resp).value;
      assert forall i :: 0 <= i < |c| ==> c[i] == FromCrossRefItem(items[i]).value;
    }
  }

  /** The four `Source` values are different strings. */
  lemma DistinctSourceNames()
    ensures PUBMED != ARXIV && PUBMED != CROSSREF && PUBMED != EUROPE_PMC
    ensures ARXIV != CROSSREF && ARXIV != EUROPE_PMC && CROSSREF != EUROPE_PMC
  {
    assert |PUBMED| == 6 && |ARXIV| == 5 && |CROSSREF| == 8 && |EUROPE_PMC| == 10;
  }

  /** The deduplication of the scenario below: the CrossRef record repeats
      the key of the first PubMed record and is dropped. */
  lemma ScenarioUnique(p1: Record, p2: Record, p3: Record, a1: Record, a2: Record, c1: Record)
    requires DistinctKeys([p1, p2, p3, a1, a2])
    requires EqualIgnoringCase(c1.title, p1.title) && c1.year == p1.year
    ensures Dedup([p1, p2, p3, a1, a2, c1]) == [p1, p2, p3, a1, a2]
  {
    var kept := [p1, p2, p3, a1, a2];
    DedupOfDistinct(kept);
    SameKeyIff(c1, p1);
    assert p1 in kept;
    assert KeyOf(c1) in KeySet(kept);
    DedupSnoc(kept, c1);
    assert kept + [c1] == [p1, p2, p3, a1, a2, c1];
  }

  /** Three PubMed records, two arXiv records and a CrossRef record whose
      title repeats the first PubMed title up to letter case, with the same
      year: six records go in and five come out, and CrossRef disappears
      from the counts after deduplication. */
  lemma ScenarioCounts(p1: Record, p2: Record, p3: Record, a1: Record, a2: Record, c1: Record)
    requires p1.source == PUBMED && p2.source == PUBMED && p3.source == PUBMED
    requires a1.source == ARXIV && a2.source == ARXIV && c1.source == CROSSREF
    requires DistinctKeys([p1, p2, p3, a1, a2])
    requires EqualIgnoringCase(c1.title, p1.title) && c1.year == p1.year
    ensures var raw := [p1, p2, p3, a1, a2, c1];
            && Summarize(raw).before == multiset{}[PUBMED := 3] + multiset{}[ARXIV := 2] + multiset{}[CROSSREF := 1]
            && |Summarize(raw).before| == 6
            && Summarize(raw).unique == [p1, p2, p3, a1, a2]
            && Summarize(raw).after == multiset{}[PUBMED := 3] + multiset{}[ARXIV := 2]
  {
    ScenarioUnique(p1, p2, p3, a1, a2, c1);
    var pubmed := [p1, p2, p3];
    var arxiv := [a1, a2];
    var kept := pubmed + arxiv;
    assert kept == [p1, p2, p3, a1, a2];
    assert kept + [c1] == [p1, p2, p3, a1, a2, c1];
    CountsOfOneSource(pubmed, PUBMED);
    CountsOfOneSource(arxiv, ARXIV);
    CountsOfOneSource([c1], CROSSREF);
    CountsConcat(pubmed, arxiv);
    CountsConcat(kept, [c1]);
  }
}
