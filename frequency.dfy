/**
 * Frequency analysis (`analyze_data`): stopword filtering, bigram formation,
 * a `collections.Counter` and its `most_common(n)`.
 */
module Frequency {
  import opened Text
  import opened Dedup

  /** The domain words added to the English stopword list at line 16. */
  const AdditionalStopWords: set<string> := {
    "used", "use", "treat", "treatment", "including", "common", "drugs", "may",
    "cause", "causes", "help", "also", "works", "side", "effects", "effect"
  }

  /** The stopword set: the given English list extended with the domain words. */
  function StopWords(english: set<string>): (stop: set<string>)
    ensures english <= stop && AdditionalStopWords <= stop
    ensures forall w :: w in stop ==> w in english || w in AdditionalStopWords
  {
    english + AdditionalStopWords
  }

  /** The test of the token comprehension at lines 76 and 85. */
  predicate Kept(w: string, stop: set<string>) {
    w !in stop && IsAlpha(w)
  }

  /** `[word for word in tokens if word not in stop_words and word.isalpha()]` */
  function FilterTokens(tokens: seq<string>, stop: set<string>): (r: seq<string>)
    ensures |r| <= |tokens|
    ensures forall i :: 0 <= i < |r| ==> Kept(r[i], stop)
  {
    if tokens == [] then []
    else (if Kept(tokens[0], stop) then [tokens[0]] else []) + FilterTokens(tokens[1..], stop)
  }

  /** Filtering keeps every occurrence of a kept word and no occurrence of any other. */
  lemma {:induction false} FilterTokensCount(tokens: seq<string>, stop: set<string>)
    ensures forall w :: multiset(FilterTokens(tokens, stop))[w] ==
              if Kept(w, stop) then multiset(tokens)[w] else 0
  {
    if tokens != [] {
      FilterTokensCount(tokens[1..], stop);
      assert tokens == [tokens[0]] + tokens[1..];
    }
  }

  /** Filtering works token by token, keeping order: it distributes over concatenation. */
  lemma {:induction false} FilterTokensAppend(a: seq<string>, b: seq<string>, stop: set<string>)
    ensures FilterTokens(a + b, stop) == FilterTokens(a, stop) + FilterTokens(b, stop)
  {
    if a == [] {
      assert a + b == b;
    } else {
      assert (a + b)[0] == a[0];
      assert (a + b)[1..] == a[1..] + b;
      FilterTokensAppend(a[1..], b, stop);
      var head := if Kept(a[0], stop) then [a[0]] else [];
      calc {
        FilterTokens(a + b, stop);
        head + FilterTokens(a[1..] + b, stop);
        head + (FilterTokens(a[1..], stop) + FilterTokens(b, stop));
        (head + FilterTokens(a[1..], stop)) + FilterTokens(b, stop);
      }
    }
  }

  /** `[' '.join(gram) for gram in ngrams(tokens, 2)]` */
  function Bigrams(t: seq<string>): (r: seq<string>)
    ensures |r| == if |t| < 2 then 0 else |t| - 1
    ensures forall i :: 0 <= i < |r| ==> r[i] == t[i] + " " + t[i + 1]
  {
    if |t| < 2 then [] else [t[0] + " " + t[1]] + Bigrams(t[1..])
  }

  /** One `(key, count)` pair as `most_common` reports it. */
  datatype Entry = Entry(key: string, count: nat)

  function Id(w: string): string { w }

  /** The distinct elements of `s` in first-occurrence order (the order a dict keeps its keys in). */
  function Distinct(s: seq<string>): seq<string> {
    KeepFirst(s, Id)
  }

  lemma KeysId(s: seq<string>)
    ensures Keys(s, Id) == s
  {
  }

  /** Each distinct element with its number of occurrences, in first-occurrence order. */
  function Tally(s: seq<string>): (t: seq<Entry>)
    ensures |t| == |Distinct(s)|
    ensures forall i :: 0 <= i < |t| ==> t[i].key == Distinct(s)[i] && t[i].count == multiset(s)[t[i].key]
  {
    var d := Distinct(s);
    seq(|d|, i requires 0 <= i < |d| => Entry(d[i], multiset(s)[d[i]]))
  }

  /**
   * The tally of `s` holds each element of `s` exactly once, with its exact
   * number of occurrences (at least one), in the order of first occurrence.
   */
  lemma TallySpec(s: seq<string>)
    ensures forall w :: w in s <==> exists i :: 0 <= i < |Tally(s)| && Tally(s)[i].key == w
    ensures forall i, j :: 0 <= i < j < |Tally(s)| ==> Tally(s)[i].key != Tally(s)[j].key
    ensures forall i, j :: 0 <= i < j < |Tally(s)| ==>
              Tally(s)[i].key in s && Tally(s)[j].key in s &&
              FirstIndex(s, Id, Tally(s)[i].key) < FirstIndex(s, Id, Tally(s)[j].key)
    ensures forall i :: 0 <= i < |Tally(s)| ==>
              Tally(s)[i].count == multiset(s)[Tally(s)[i].key] >= 1
  {
    KeepFirstSpec(s, Id);
    KeysId(s);
    KeysId(Distinct(s));
    KeepFirstElements(s, Id);
    var t := Tally(s);
    forall w | w in s
      ensures exists i :: 0 <= i < |t| && t[i].key == w
    {
      var j :| 0 <= j < |s| && s[j] == w;
      assert Id(s[j]) in Keys(Distinct(s), Id);
      var i :| 0 <= i < |Distinct(s)| && Distinct(s)[i] == w;
      assert t[i].key == w;
    }
  }

  /** Counts never increase along `s`. */
  predicate Descending(s: seq<Entry>) {
    forall i, j :: 0 <= i < j < |s| ==> s[i].count >= s[j].count
  }

  /** The entries of `s` whose count is `c`, in order. */
  function WithCount(s: seq<Entry>, c: nat): (r: seq<Entry>)
    ensures |r| <= |s|
  {
    if s == [] then []
    else (if s[0].count == c then [s[0]] else []) + WithCount(s[1..], c)
  }

  lemma {:induction false} WithCountAppend(a: seq<Entry>, b: seq<Entry>, c: nat)
    ensures WithCount(a + b, c) == WithCount(a, c) + WithCount(b, c)
  {
    if a == [] {
      assert a + b == b;
    } else {
      assert (a + b)[0] == a[0];
      assert (a + b)[1..] == a[1..] + b;
      WithCountAppend(a[1..], b, c);
      var head := if a[0].count == c then [a[0]] else [];
      calc {
        WithCount(a + b, c);
        head + WithCount(a[1..] + b, c);
        head + (WithCount(a[1..], c) + WithCount(b, c));
        (head + WithCount(a[1..], c)) + WithCount(b, c);
      }
    }
  }

  /** Places `x` in front of the first entry whose count is not larger than its own. */
  function Insert(x: Entry, s: seq<Entry>): (r: seq<Entry>)
    ensures |r| == |s| + 1
    ensures multiset(r) == multiset(s) + multiset{x}
  {
    if s == [] || s[0].count <= x.count then [x] + s
    else
      assert s == [s[0]] + s[1..];
      [s[0]] + Insert(x, s[1..])
  }

  /** Stable sort by count, largest first: the order of `sorted(..., reverse=True)` by count. */
  function SortDesc(s: seq<Entry>): (r: seq<Entry>)
    ensures |r| == |s|
    ensures multiset(r) == multiset(s)
  {
    if s == [] then []
    else
      assert s == [s[0]] + s[1..];
      Insert(s[0], SortDesc(s[1..]))
  }

  lemma {:induction false} InsertDescending(x: Entry, s: seq<Entry>)
    requires Descending(s)
    ensures Descending(Insert(x, s))
    decreases |s|
  {
    if s != [] && s[0].count > x.count {
      InsertDescending(x, s[1..]);
      var r := Insert(x, s[1..]);
      forall e | e in r
        ensures e.count <= s[0].count
      {
        assert e in multiset(r);
        if e != x {
          assert e in multiset(s[1..]);
        }
      }
    }
  }

  /** Inserting `x` puts it in front of every entry of equal count: the earlier one stays first. */
  lemma {:induction false} InsertWithCount(x: Entry, s: seq<Entry>, c: nat)
    ensures WithCount(Insert(x, s), c) == (if x.count == c then [x] else []) + WithCount(s, c)
    decreases |s|
  {
    if s == [] || s[0].count <= x.count {
      assert ([x] + s)[1..] == s;
    } else {
      InsertWithCount(x, s[1..], c);
      assert ([s[0]] + Insert(x, s[1..]))[1..] == Insert(x, s[1..]);
    }
  }

  /** The sort orders by count and keeps entries of equal count in their input order. */
  lemma {:induction false} SortDescSpec(s: seq<Entry>)
    ensures Descending(SortDesc(s))
    ensures forall c: nat :: WithCount(SortDesc(s), c) == WithCount(s, c)
    decreases |s|
  {
    if s != [] {
      SortDescSpec(s[1..]);
      InsertDescending(s[0], SortDesc(s[1..]));
      forall c: nat
        ensures WithCount(SortDesc(s), c) == WithCount(s, c)
      {
        InsertWithCount(s[0], SortDesc(s[1..]), c);
      }
    }
  }

  function Min(a: nat, b: nat): nat { if a <= b then a else b }

  /** Ties of a prefix of the sorted entries are a prefix of the input's ties. */
  lemma SortedPrefixTies(es: seq<Entry>, m: nat)
    requires m <= |es|
    ensures forall c: nat :: WithCount(SortDesc(es)[..m], c) <= WithCount(es, c)
  {
    var sorted := SortDesc(es);
    SortDescSpec(es);
    assert sorted == sorted[..m] + sorted[m..];
    forall c: nat
      ensures WithCount(sorted[..m], c) <= WithCount(es, c)
    {
      WithCountAppend(sorted[..m], sorted[m..], c);
    }
  }

  /** In a descending sequence, whatever a prefix leaves out has no larger count than what it keeps. */
  lemma DescendingPrefixDominates(s: seq<Entry>, m: nat, e: Entry)
    requires Descending(s) && m <= |s|
    requires e in s && e !in s[..m]
    ensures forall i :: 0 <= i < m ==> e.count <= s[i].count
  {
    var p :| 0 <= p < |s| && s[p] == e;
  }

  /** A prefix of the sorted entries takes each entry at most as often as the input has it. */
  lemma SortedPrefixSub(es: seq<Entry>, m: nat)
    requires m <= |es|
    ensures multiset(SortDesc(es)[..m]) <= multiset(es)
  {
    PrefixSub(SortDesc(es), m);
  }

  lemma PrefixSub(s: seq<Entry>, m: nat)
    requires m <= |s|
    ensures multiset(s[..m]) <= multiset(s)
  {
    assert s == s[..m] + s[m..];
  }

  /** Whatever a prefix of the sorted entries leaves out has no larger count than what it keeps. */
  lemma SortedPrefixDominates(es: seq<Entry>, m: nat)
    requires m <= |es|
    ensures forall e :: e in es && e !in SortDesc(es)[..m] ==>
              forall i :: 0 <= i < m ==> e.count <= SortDesc(es)[i].count
  {
    var sorted := SortDesc(es);
    SortDescSpec(es);
    forall e | e in es && e !in sorted[..m]
      ensures forall i :: 0 <= i < m ==> e.count <= sorted[i].count
    {
      assert e in multiset(es);
      assert e in multiset(sorted);
      DescendingPrefixDominates(sorted, m, e);
    }
  }

  /**
   * `most_common(n)` over entries in insertion order: the `n` largest counts
   * (all entries if there are fewer), largest first, ties in insertion order,
   * and no entry left out has a larger count than any entry kept.
   */
  function TopK(es: seq<Entry>, n: nat): (r: seq<Entry>)
    ensures |r| == Min(n, |es|)
    ensures Descending(r)
    ensures multiset(r) <= multiset(es)
    ensures forall e :: e in es && e !in r ==> forall i :: 0 <= i < |r| ==> e.count <= r[i].count
    ensures forall c: nat :: WithCount(r, c) <= WithCount(es, c)
  {
    var m := Min(n, |es|);
    SortDescSpec(es);
    SortedPrefixTies(es, m);
    SortedPrefixSub(es, m);
    SortedPrefixDominates(es, m);
    SortDesc(es)[..m]
  }

  /** An entry whose count beats every other entry's is reported first. */
  lemma TopKLeader(es: seq<Entry>, n: nat, lead: nat)
    requires n >= 1 && lead < |es|
    requires forall i :: 0 <= i < |es| && i != lead ==> es[i].count < es[lead].count
    ensures TopK(es, n)[0] == es[lead]
  {
    var r := TopK(es, n);
    assert r[0] in multiset(es);
    var j :| 0 <= j < |es| && es[j] == r[0];
    assert es[lead].count <= r[0].count by {
      if es[lead] in r {
        var k :| 0 <= k < |r| && r[k] == es[lead];
        assert k == 0 || r[0].count >= r[k].count;
      }
    }
    assert j == lead;
  }

  /** The entries of a counter's keys, in key order. */
  function EntriesOf(keys: seq<string>, counts: map<string, nat>): (es: seq<Entry>)
    requires forall w :: w in keys ==> w in counts
    ensures |es| == |keys|
    ensures forall i :: 0 <= i < |keys| ==> es[i] == Entry(keys[i], counts[keys[i]])
  {
    seq(|keys|, i requires 0 <= i < |keys| => Entry(keys[i], counts[keys[i]]))
  }

  /** A counter's fields agree with the elements counted so far. */
  ghost predicate Consistent(counts: map<string, nat>, order: seq<string>, seen: seq<string>) {
    && order == Distinct(seen)
    && (forall w :: w in counts <==> w in seen)
    && (forall w :: w in counts ==> counts[w] == multiset(seen)[w])
  }

  /** Counting one more element: bump its count, or register it at the end of the key order. */
  lemma CountOne(counts: map<string, nat>, order: seq<string>, seen: seq<string>, w: string)
    requires Consistent(counts, order, seen)
    ensures w in counts ==> Consistent(counts[w := counts[w] + 1], order, seen + [w])
    ensures w !in counts ==> Consistent(counts[w := 1], order + [w], seen + [w])
  {
    KeysId(seen);
    assert (seen + [w])[..|seen|] == seen;
    assert multiset(seen + [w]) == multiset(seen) + multiset{w};
  }

  /**
   * `collections.Counter` over strings: a count per key and the keys in
   * first-insertion order. `seen` is every element counted so far.
   */
  class Counter {
    var counts: map<string, nat>
    var order: seq<string>
    ghost var seen: seq<string>

    ghost predicate Valid()
      reads this
    {
      Consistent(counts, order, seen)
    }

    /** `Counter()` */
    constructor ()
      ensures Valid() && seen == []
    {
      counts := map[];
      order := [];
      seen := [];
    }

    /** `counter[w] = counter.get(w, 0) + 1`: a new key goes to the end of the key order. */
    method Add(w: string)
      requires Valid()
      modifies this
      ensures Valid() && seen == old(seen) + [w]
    {
      CountOne(counts, order, seen, w);
      if w in counts {
        counts := counts[w := counts[w] + 1];
      } else {
        counts := counts[w := 1];
        order := order + [w];
      }
      seen := seen + [w];
    }

    /** `counter.update(items)`: count every element in turn. */
    method Update(items: seq<string>)
      requires Valid()
      modifies this
      ensures Valid() && seen == old(seen) + items
    {
      for i := 0 to |items|
        invariant Valid()
        invariant seen == old(seen) + items[..i]
      {
        Add(items[i]);
        assert items[..i + 1] == items[..i] + [items[i]];
      }
      assert items[..|items|] == items;
    }

    /** The `(key, count)` pairs in insertion order: the tally of everything counted. */
    function Items(): (items: seq<Entry>)
      reads this
      requires Valid()
      ensures items == Tally(seen)
    {
      KeepFirstElements(seen, Id);
      EntriesOf(order, counts)
    }

    /** `counter.most_common(n)` */
    function MostCommon(n: nat): (top: seq<Entry>)
      reads this
      requires Valid()
      ensures top == TopK(Tally(seen), n)
    {
      TopK(Items(), n)
    }
  }
}
