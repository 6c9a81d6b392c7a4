/**
 * `analyze_data` and `main`: count the distinct drug names, the bigrams of
 * kept words across every "Uses" text and the kept words across every
 * "Side Effects" text, then report the five most common bigrams and the
 * most common side-effect word.
 *
 * `nltk.word_tokenize` is the parameter `tokenize`; the English stopword
 * corpus is the parameter `english`.
 */
module Analysis {
  import opened Wrappers
  import opened Dedup
  import opened Extraction
  import opened Normalize
  import opened Frequency

  /** How many entries `most_common` is asked for at lines 79 and 87. */
  const TopUses: nat := 5
  const TopSideEffects: nat := 1

  /** The kept tokens of one text (lines 75-76 and 84-85). */
  function Words(text: string, tokenize: string -> seq<string>, stop: set<string>): seq<string> {
    FilterTokens(tokenize(text), stop)
  }

  /** Everything the uses counter is fed, row by row (lines 74-78). */
  function UsesBigrams(table: seq<DrugRecord>, tokenize: string -> seq<string>, stop: set<string>): seq<string> {
    if table == [] then []
    else
      UsesBigrams(table[..|table| - 1], tokenize, stop)
      + Bigrams(Words(table[|table| - 1].uses, tokenize, stop))
  }

  /** Everything the side-effects counter is fed, row by row (lines 83-86). */
  function SideEffectWords(table: seq<DrugRecord>, tokenize: string -> seq<string>, stop: set<string>): seq<string> {
    if table == [] then []
    else
      SideEffectWords(table[..|table| - 1], tokenize, stop)
      + Words(table[|table| - 1].sideEffects, tokenize, stop)
  }

  /** How often `w` occurs among the tokens of all side-effect texts, before filtering. */
  function SideEffectTokenCount(table: seq<DrugRecord>, tokenize: string -> seq<string>, w: string): nat {
    if table == [] then 0
    else
      SideEffectTokenCount(table[..|table| - 1], tokenize, w)
      + multiset(tokenize(table[|table| - 1].sideEffects))[w]
  }

  /** Two kept words joined by one space. */
  ghost predicate IsKeptBigram(x: string, stop: set<string>) {
    exists a, b :: Kept(a, stop) && Kept(b, stop) && x == a + " " + b
  }

  /** Every counted uses item is a bigram of two alphabetic non-stopwords. */
  lemma {:induction false} UsesBigramsKept(table: seq<DrugRecord>, tokenize: string -> seq<string>, stop: set<string>)
    ensures forall i :: 0 <= i < |UsesBigrams(table, tokenize, stop)| ==>
              IsKeptBigram(UsesBigrams(table, tokenize, stop)[i], stop)
    decreases |table|
  {
    if table != [] {
      var init := table[..|table| - 1];
      UsesBigramsKept(init, tokenize, stop);
      var prev := UsesBigrams(init, tokenize, stop);
      var t := Words(table[|table| - 1].uses, tokenize, stop);
      var last := Bigrams(t);
      forall i | 0 <= i < |UsesBigrams(table, tokenize, stop)|
        ensures IsKeptBigram(UsesBigrams(table, tokenize, stop)[i], stop)
      {
        if i >= |prev| {
          var k := i - |prev|;
          assert UsesBigrams(table, tokenize, stop)[i] == t[k] + " " + t[k + 1];
          assert Kept(t[k], stop) && Kept(t[k + 1], stop);
        } else {
          assert UsesBigrams(table, tokenize, stop)[i] == prev[i];
        }
      }
    }
  }

  /** Every counted side-effect item is an alphabetic non-stopword. */
  lemma {:induction false} SideEffectWordsKept(table: seq<DrugRecord>, tokenize: string -> seq<string>, stop: set<string>)
    ensures forall i :: 0 <= i < |SideEffectWords(table, tokenize, stop)| ==>
              Kept(SideEffectWords(table, tokenize, stop)[i], stop)
    decreases |table|
  {
    if table != [] {
      SideEffectWordsKept(table[..|table| - 1], tokenize, stop);
    }
  }

  /**
   * The side-effects counter counts a word exactly as often as it occurs among
   * all the side-effect tokens when the word is kept, and never otherwise.
   */
  lemma {:induction false} SideEffectWordsCount(table: seq<DrugRecord>, tokenize: string -> seq<string>, stop: set<string>)
    ensures forall w :: multiset(SideEffectWords(table, tokenize, stop))[w] ==
              if Kept(w, stop) then SideEffectTokenCount(table, tokenize, w) else 0
    decreases |table|
  {
    if table != [] {
      var init := table[..|table| - 1];
      SideEffectWordsCount(init, tokenize, stop);
      var t := Words(table[|table| - 1].sideEffects, tokenize, stop);
      FilterTokensCount(tokenize(table[|table| - 1].sideEffects), stop);
      assert multiset(SideEffectWords(table, tokenize, stop))
          == multiset(SideEffectWords(init, tokenize, stop)) + multiset(t);
    }
  }

  /** A non-empty sequence has a non-empty tally. */
  lemma TallyNonEmpty(s: seq<string>)
    requires s != []
    ensures Tally(s) != []
  {
    KeepFirstCovers(s, Id);
  }

  /**
   * `most_common(n)` of a counter fed `s` reports up to `n` entries, each an
   * element of `s` with its exact number of occurrences.
   */
  lemma TopKTallyEntries(s: seq<string>, n: nat)
    ensures |TopK(Tally(s), n)| == Min(n, |Distinct(s)|)
    ensures forall e :: e in TopK(Tally(s), n) ==> e.key in s && e.count == multiset(s)[e.key] >= 1
  {
    var t := Tally(s);
    TallySpec(s);
    forall e | e in TopK(t, n)
      ensures e.key in s && e.count == multiset(s)[e.key] >= 1
    {
      assert e in multiset(t);
      var j :| 0 <= j < |t| && t[j] == e;
    }
  }

  /** No element of `s` left out of `most_common(n)` occurs more often than a reported one. */
  lemma TopKTallyDominates(s: seq<string>, n: nat)
    ensures forall x :: (x in s && Entry(x, multiset(s)[x]) !in TopK(Tally(s), n)) ==>
              forall e :: e in TopK(Tally(s), n) ==> multiset(s)[x] <= e.count
  {
    var t := Tally(s);
    TallySpec(s);
    forall x | x in s && Entry(x, multiset(s)[x]) !in TopK(t, n)
      ensures forall e :: e in TopK(t, n) ==> multiset(s)[x] <= e.count
    {
      var i :| 0 <= i < |t| && t[i].key == x;
      assert t[i] == Entry(x, multiset(s)[x]);
    }
  }

  /**
   * `most_common(1)` of the side-effects counter: empty exactly when no word
   * was kept; otherwise one kept word with its full token count, and no kept
   * word occurs more often.
   */
  lemma MostCommonSideEffect(table: seq<DrugRecord>, tokenize: string -> seq<string>, stop: set<string>)
    ensures TopK(Tally(SideEffectWords(table, tokenize, stop)), TopSideEffects) == []
            <==> SideEffectWords(table, tokenize, stop) == []
    ensures |TopK(Tally(SideEffectWords(table, tokenize, stop)), TopSideEffects)| <= 1
    ensures forall e :: e in TopK(Tally(SideEffectWords(table, tokenize, stop)), TopSideEffects) ==>
              Kept(e.key, stop) && e.count == SideEffectTokenCount(table, tokenize, e.key) &&
              forall w :: Kept(w, stop) ==> SideEffectTokenCount(table, tokenize, w) <= e.count
  {
    var s := SideEffectWords(table, tokenize, stop);
    var top := TopK(Tally(s), TopSideEffects);
    TopKTallyEntries(s, TopSideEffects);
    TopKTallyDominates(s, TopSideEffects);
    SideEffectWordsKept(table, tokenize, stop);
    SideEffectWordsCount(table, tokenize, stop);
    if s != [] {
      TallyNonEmpty(s);
    }
    forall e | e in top
      ensures Kept(e.key, stop) && e.count == SideEffectTokenCount(table, tokenize, e.key)
      ensures forall w :: Kept(w, stop) ==> SideEffectTokenCount(table, tokenize, w) <= e.count
    {
      var p :| 0 <= p < |s| && s[p] == e.key;
      assert top == [e];
      forall w | Kept(w, stop)
        ensures SideEffectTokenCount(table, tokenize, w) <= e.count
      {
        if w in s && Entry(w, multiset(s)[w]) != e {
          assert Entry(w, multiset(s)[w]) !in top;
        }
      }
    }
  }

  /**
   * `most_common(5)` of the uses counter: as many entries as there are
   * distinct bigrams, up to five; each a bigram of kept words with its exact
   * count; and no bigram left out is more frequent than one reported.
   */
  lemma MostCommonUses(table: seq<DrugRecord>, tokenize: string -> seq<string>, stop: set<string>)
    ensures |TopK(Tally(UsesBigrams(table, tokenize, stop)), TopUses)|
            == Min(TopUses, |Distinct(UsesBigrams(table, tokenize, stop))|)
    ensures forall e :: e in TopK(Tally(UsesBigrams(table, tokenize, stop)), TopUses) ==>
              IsKeptBigram(e.key, stop) &&
              e.count == multiset(UsesBigrams(table, tokenize, stop))[e.key] >= 1
    ensures forall x :: (x in UsesBigrams(table, tokenize, stop) &&
              Entry(x, multiset(UsesBigrams(table, tokenize, stop))[x])
                !in TopK(Tally(UsesBigrams(table, tokenize, stop)), TopUses)) ==>
              forall e :: e in TopK(Tally(UsesBigrams(table, tokenize, stop)), TopUses) ==>
                multiset(UsesBigrams(table, tokenize, stop))[x] <= e.count
  {
    var s := UsesBigrams(table, tokenize, stop);
    TopKTallyEntries(s, TopUses);
    TopKTallyDominates(s, TopUses);
    UsesBigramsKept(table, tokenize, stop);
    forall e | e in TopK(Tally(s), TopUses)
      ensures IsKeptBigram(e.key, stop)
    {
      var p :| 0 <= p < |s| && s[p] == e.key;
    }
  }

  /** Lines 73-79: feed every row's bigrams of kept "Uses" words to a fresh counter, then ask for the top five. */
  method CountUses(table: seq<DrugRecord>, tokenize: string -> seq<string>, stop: set<string>)
    returns (top: seq<Entry>)
    ensures top == TopK(Tally(UsesBigrams(table, tokenize, stop)), TopUses)
  {
    var counter := new Counter();
    for i := 0 to |table|
      invariant counter.Valid()
      invariant counter.seen == UsesBigrams(table[..i], tokenize, stop)
    {
      var tokens := tokenize(table[i].uses);
      var filtered := FilterTokens(tokens, stop);
      var bigrams := Bigrams(filtered);
      counter.Update(bigrams);
      assert table[..i + 1][..i] == table[..i];
    }
    assert table[..|table|] == table;
    top := counter.MostCommon(TopUses);
  }

  /** Lines 82-87: feed every row's kept "Side Effects" words to a fresh counter, then ask for the top one. */
  method CountSideEffects(table: seq<DrugRecord>, tokenize: string -> seq<string>, stop: set<string>)
    returns (top: seq<Entry>)
    ensures top == TopK(Tally(SideEffectWords(table, tokenize, stop)), TopSideEffects)
  {
    var counter := new Counter();
    for i := 0 to |table|
      invariant counter.Valid()
      invariant counter.seen == SideEffectWords(table[..i], tokenize, stop)
    {
      var tokens := tokenize(table[i].sideEffects);
      var filtered := FilterTokens(tokens, stop);
      counter.Update(filtered);
      assert table[..i + 1][..i] == table[..i];
    }
    assert table[..|table|] == table;
    top := counter.MostCommon(TopSideEffects);
  }

  /**
   * `analyze_data`: the number of distinct names, the five most common uses
   * bigrams and the most common side-effect word.
   */
  method AnalyzeData(table: seq<DrugRecord>, tokenize: string -> seq<string>, stop: set<string>)
    returns (uniqueNames: nat, topUses: seq<Entry>, topSideEffect: seq<Entry>)
    ensures uniqueNames == |NameSet(table)|
    ensures topUses == TopK(Tally(UsesBigrams(table, tokenize, stop)), TopUses)
    ensures topSideEffect == TopK(Tally(SideEffectWords(table, tokenize, stop)), TopSideEffects)
  {
    uniqueNames := |NameSet(table)|;
    topUses := CountUses(table, tokenize, stop);
    topSideEffect := CountSideEffects(table, tokenize, stop);
  }

  /** What `main` produces: nothing when no record was scraped, else the clean table and the analysis. */
  datatype Report =
    | NoData
    | Done(table: seq<DrugRecord>, uniqueNames: nat, topUses: seq<Entry>, topSideEffect: seq<Entry>)

  /** Cleaning a non-empty table leaves at least one record. */
  lemma NormalizedNonEmpty(rows: seq<DrugRecord>)
    requires rows != []
    ensures Normalized(rows) != []
  {
    KeepFirstCovers(CleanColumns(rows), NameOf);
  }

  /**
   * `main`: scrape, and when the raw table is not empty clean it and analyse
   * the clean table with the English stopwords extended by the domain words.
   */
  method RunPipeline(listing: Option<seq<Anchor>>, fetch: string -> Page,
                     tokenize: string -> seq<string>, english: set<string>)
    returns (report: Report)
    ensures report.NoData? <==> ScrapedRows(listing, fetch) == []
    ensures report.Done? ==>
              && report.table == Normalized(ScrapedRows(listing, fetch))
              && 0 < report.uniqueNames == |report.table| <= MaxLinks
              && report.uniqueNames == |NameSet(report.table)|
              && (forall a, b :: 0 <= a < b < |report.table| ==> report.table[a].name != report.table[b].name)
              && report.topUses == TopK(Tally(UsesBigrams(report.table, tokenize, StopWords(english))), TopUses)
              && report.topSideEffect
                 == TopK(Tally(SideEffectWords(report.table, tokenize, StopWords(english))), TopSideEffects)
  {
    var rows := ScrapeDrugs(listing, fetch);
    if rows == [] {
      return NoData;
    }
    var df := new DrugRecord[|rows|](i requires 0 <= i < |rows| => rows[i]);
    assert df[..] == rows;
    var table := CleanData(df);
    NormalizedSpec(rows);
    NormalizedUniqueCount(rows);
    NormalizedNonEmpty(rows);
    var uniqueNames, topUses, topSideEffect := AnalyzeData(table, tokenize, StopWords(english));
    report := Done(table, uniqueNames, topUses, topSideEffect);
  }
}
