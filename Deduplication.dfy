/** The deduplicator: one scan over the aggregated records that keeps a
    record only when no record kept before it has the same key
    `(lower-cased title, year)`. */
module Deduplication {
  import opened Text
  import opened Records

  /** The keys of a list of records. */
  function KeySet(rs: seq<Record>): set<Key> {
    set r | r in rs :: KeyOf(r)
  }

  /** No two records of `rs` share a key. */
  predicate DistinctKeys(rs: seq<Record>) {
    forall i, j :: 0 <= i < j < |rs| ==> KeyOf(rs[i]) != KeyOf(rs[j])
  }

  lemma KeySetAppend(rs: seq<Record>, r: Record)
    ensures KeySet(rs + [r]) == KeySet(rs) + {KeyOf(r)}
  {
    assert forall x :: x in rs + [r] <==> x in rs || x == r;
  }

  lemma KeySetSplitLast(rs: seq<Record>)
    requires rs != []
    ensures KeySet(rs) == KeySet(rs[..|rs| - 1]) + {KeyOf(rs[|rs| - 1])}
  {
    assert rs == rs[..|rs| - 1] + [rs[|rs| - 1]];
    KeySetAppend(rs[..|rs| - 1], rs[|rs| - 1]);
  }

  /** The records the scan keeps, defined record by record as the loop adds
      them: the last record survives when its key is not among the keys of
      what the earlier records left. The result is no longer than the input,
      has every input key, and no key twice. */
  function Dedup(rs: seq<Record>): (d: seq<Record>)
    ensures |d| <= |rs|
    ensures KeySet(d) == KeySet(rs)
    ensures DistinctKeys(d)
    decreases |rs|
  {
    if rs == [] then []
    else
      var kept := Dedup(rs[..|rs| - 1]);
      var r := rs[|rs| - 1];
      KeySetSplitLast(rs);
      if KeyOf(r) in KeySet(kept) then kept
      else
        KeySetAppend(kept, r);
        assert forall i :: 0 <= i < |kept| ==> KeyOf(kept[i]) in KeySet(kept);
        kept + [r]
  }

  /** The scan of the source, with its `seen` set of keys. After each step
      `seen` holds exactly the keys of the records kept so far. */
  method Deduplicate(results: seq<Record>) returns (unique: seq<Record>)
    ensures unique == Dedup(results)
  {
    var seen: set<Key> := {};
    unique := [];
    for i := 0 to |results|
      invariant unique == Dedup(results[..i])
      invariant seen == KeySet(unique)
    {
      var r := results[i];
      var key := Key(Lower(r.title), r.year);
      assert results[..i + 1][..i] == results[..i];
      if key !in seen {
        seen := seen + {key};
        KeySetAppend(unique, r);
        unique := unique + [r];
      }
    }
    assert results[..|results|] == results;
  }

  /** Record `i` is the earliest record of `rs` with its key. */
  predicate IsFirst(rs: seq<Record>, i: nat)
    requires i < |rs|
  {
    forall m :: 0 <= m < i ==> KeyOf(rs[m]) != KeyOf(rs[i])
  }

  /** The positions of the first occurrences of the keys of `rs`, in
      increasing order: an independent description of what the scan keeps. */
  function FirstPositions(rs: seq<Record>): seq<nat>
    decreases |rs|
  {
    if rs == [] then []
    else FirstPositions(rs[..|rs| - 1]) + (if IsFirst(rs, |rs| - 1) then [|rs| - 1] else [])
  }

  /** `xs` is the subsequence of `ys` at the strictly increasing positions `idx`. */
  predicate SubsequenceAt(xs: seq<Record>, ys: seq<Record>, idx: seq<nat>) {
    && |idx| == |xs|
    && (forall j :: 0 <= j < |idx| ==> idx[j] < |ys| && xs[j] == ys[idx[j]])
    && (forall j, k :: 0 <= j < k < |idx| ==> idx[j] < idx[k])
  }

  lemma FirstOfPrefix(rs: seq<Record>, i: nat)
    requires i < |rs| - 1
    ensures IsFirst(rs, i) <==> IsFirst(rs[..|rs| - 1], i)
  {
    assert forall m :: 0 <= m <= i ==> rs[..|rs| - 1][m] == rs[m];
  }

  lemma FirstOfLast(rs: seq<Record>)
    requires rs != []
    ensures IsFirst(rs, |rs| - 1) <==> KeyOf(rs[|rs| - 1]) !in KeySet(rs[..|rs| - 1])
  {
    var init := rs[..|rs| - 1];
    if !IsFirst(rs, |rs| - 1) {
      var m :| 0 <= m < |rs| - 1 && KeyOf(rs[m]) == KeyOf(rs[|rs| - 1]);
      assert init[m] == rs[m];
    }
    if KeyOf(rs[|rs| - 1]) in KeySet(init) {
      var r :| r in init && KeyOf(r) == KeyOf(rs[|rs| - 1]);
      var m :| 0 <= m < |init| && init[m] == r;
      assert rs[m] == r;
    }
  }

  /** One step of the scan: the last record is kept exactly when its key is
      not among the keys of what the earlier records left. */
  lemma DedupLast(rs: seq<Record>)
    requires rs != []
    ensures Dedup(rs) == if KeyOf(rs[|rs| - 1]) in KeySet(Dedup(rs[..|rs| - 1]))
                         then Dedup(rs[..|rs| - 1]) else Dedup(rs[..|rs| - 1]) + [rs[|rs| - 1]]
  {
  }

  lemma SubsequenceGrow(xs: seq<Record>, ys: seq<Record>, idx: seq<nat>, y: Record)
    requires SubsequenceAt(xs, ys, idx)
    ensures SubsequenceAt(xs, ys + [y], idx)
    ensures SubsequenceAt(xs + [y], ys + [y], idx + [|ys|])
  {
    assert forall j :: 0 <= j < |idx| ==> (ys + [y])[idx[j]] == ys[idx[j]];
  }

  /** The first positions are, in increasing order, exactly the positions
      `i` at which `IsFirst(rs, i)` holds. */
  lemma {:induction false} FirstPositionsExact(rs: seq<Record>)
    ensures forall j :: 0 <= j < |FirstPositions(rs)| ==>
              FirstPositions(rs)[j] < |rs| && IsFirst(rs, FirstPositions(rs)[j])
    ensures forall i :: 0 <= i < |rs| && IsFirst(rs, i) ==> i in FirstPositions(rs)
    decreases |rs|
  {
    if rs != [] {
      var init := rs[..|rs| - 1];
      FirstPositionsExact(init);
      forall i | 0 <= i < |rs| - 1
        ensures IsFirst(rs, i) <==> IsFirst(init, i)
      {
        FirstOfPrefix(rs, i);
      }
    }
  }

  /** The scan keeps exactly the first occurrence of every key, in input
      order: its output is the subsequence of the input at the positions of
      the first occurrences, and every first occurrence is among them. */
  lemma {:induction false} DedupKeepsFirstOccurrences(rs: seq<Record>)
    ensures SubsequenceAt(Dedup(rs), rs, FirstPositions(rs))
    ensures forall j :: 0 <= j < |FirstPositions(rs)| ==>
              FirstPositions(rs)[j] < |rs| && IsFirst(rs, FirstPositions(rs)[j])
    ensures forall i :: 0 <= i < |rs| && IsFirst(rs, i) ==> i in FirstPositions(rs)
    decreases |rs|
  {
    FirstPositionsExact(rs);
    if rs != [] {
      var init := rs[..|rs| - 1];
      var r := rs[|rs| - 1];
      DedupKeepsFirstOccurrences(init);
      FirstOfLast(rs);
      DedupLast(rs);
      assert init + [r] == rs;
      SubsequenceGrow(Dedup(init), init, FirstPositions(init), r);
    }
  }

  /** First-occurrence-wins, record by record: each kept record is the
      earliest input record with its key, and the earliest input record of
      every key is kept. */
  lemma DedupKeepsEarliest(rs: seq<Record>)
    ensures forall j :: 0 <= j < |Dedup(rs)| ==>
              exists i :: 0 <= i < |rs| && IsFirst(rs, i) && Dedup(rs)[j] == rs[i]
    ensures forall i :: 0 <= i < |rs| && IsFirst(rs, i) ==> rs[i] in Dedup(rs)
  {
    DedupKeepsFirstOccurrences(rs);
    var d, idx := Dedup(rs), FirstPositions(rs);
    forall j | 0 <= j < |d|
      ensures exists i :: 0 <= i < |rs| && IsFirst(rs, i) && d[j] == rs[i]
    {
      assert IsFirst(rs, idx[j]) && d[j] == rs[idx[j]];
    }
    forall i | 0 <= i < |rs| && IsFirst(rs, i)
      ensures rs[i] in d
    {
      var j :| 0 <= j < |idx| && idx[j] == i;
      assert d[j] == rs[i];
    }
  }

  /** A list without repeated keys passes the scan unchanged. */
  lemma {:induction false} DedupOfDistinct(rs: seq<Record>)
    requires DistinctKeys(rs)
    ensures Dedup(rs) == rs
    decreases |rs|
  {
    if rs != [] {
      var init := rs[..|rs| - 1];
      assert DistinctKeys(init) by {
        assert forall i :: 0 <= i < |init| ==> init[i] == rs[i];
      }
      DedupOfDistinct(init);
      FirstOfLast(rs);
      assert IsFirst(rs, |rs| - 1);
      DedupLast(rs);
      assert init + [rs[|rs| - 1]] == rs;
    }
  }

  /** Running the scan again on its own output changes nothing. */
  lemma DedupIdempotent(rs: seq<Record>)
    ensures Dedup(Dedup(rs)) == Dedup(rs)
  {
    DedupOfDistinct(Dedup(rs));
  }

  /** The number of kept records is the number of distinct keys. */
  lemma {:induction false} DedupLength(rs: seq<Record>)
    ensures |Dedup(rs)| == |KeySet(rs)|
    decreases |rs|
  {
    if rs != [] {
      var init := rs[..|rs| - 1];
      var r := rs[|rs| - 1];
      DedupLength(init);
      KeySetSplitLast(rs);
      if KeyOf(r) !in KeySet(Dedup(init)) {
        assert KeySet(rs) == KeySet(init) + {KeyOf(r)};
        assert |KeySet(rs)| == |KeySet(init)| + 1;
      }
    }
  }

  // ------------------------------------------------------ concrete cases

  /** The scan on one more record: it survives exactly when its key is not
      among the keys of the records before it. */
  lemma DedupSnoc(rs: seq<Record>, r: Record)
    ensures Dedup(rs + [r]) == if KeyOf(r) in KeySet(rs) then Dedup(rs) else Dedup(rs) + [r]
  {
    assert (rs + [r])[..|rs|] == rs;
  }

  /** The scan on two records: the second survives exactly when its key
      differs from the first's. */
  lemma DedupPair(first: Record, second: Record)
    ensures Dedup([first, second]) == if KeyOf(first) == KeyOf(second) then [first] else [first, second]
  {
    assert [first, second][..1] == [first];
    assert [first][..0] == [];
    assert KeySet([first]) == {KeyOf(first)};
  }

  /** Titles that differ only in letter case collide, so only the first of
      the two records survives. */
  lemma CaseVariantsCollide()
    ensures Dedup([Record(PUBMED, "Digital Twins in Medicine", "", "2022", "", "", ""),
                   Record(CROSSREF, "digital twins in medicine", "", "2022", "", "", "")])
         == [Record(PUBMED, "Digital Twins in Medicine", "", "2022", "", "", "")]
  {
    var first := Record(PUBMED, "Digital Twins in Medicine", "", "2022", "", "", "");
    var second := Record(CROSSREF, "digital twins in medicine", "", "2022", "", "", "");
    assert EqualIgnoringCase(first.title, second.title);
    LowerEqualIff(first.title, second.title);
    DedupPair(first, second);
  }

  /** Years are compared character for character: `"2022"` and `"2022 "`
      are different keys, so both records survive. */
  lemma YearsCompareExactly()
    ensures Dedup([Record(PUBMED, "Digital Twins in Medicine", "", "2022", "", "", ""),
                   Record(ARXIV, "Digital Twins in Medicine", "", "2022 ", "", "", "")])
         == [Record(PUBMED, "Digital Twins in Medicine", "", "2022", "", "", ""),
             Record(ARXIV, "Digital Twins in Medicine", "", "2022 ", "", "", "")]
  {
    var first := Record(PUBMED, "Digital Twins in Medicine", "", "2022", "", "", "");
    var second := Record(ARXIV, "Digital Twins in Medicine", "", "2022 ", "", "", "");
    assert |first.year| != |second.year|;
    DedupPair(first, second);
  }
}
