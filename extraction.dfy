/**
 * Listing and record extraction (`scrape_drugs`, `scrape_drug_info`).
 *
 * A parsed page is given as its tags in document order (the order in which
 * BeautifulSoup's `find`/`find_next` visit them). Each tag records its name,
 * its `id` attribute, its `.string` (the single string inside the tag,
 * following chains of single children; absent otherwise), its `.text` (all
 * descendant text), and the
 * position of its parent tag (absent for a tag at the top of the document).
 * Siblings are tags that share a parent; `find_next_sibling()` is the first
 * later tag with the same parent.
 */
module Extraction {
  import opened Wrappers
  import opened Text

  datatype Element = Element(
    tag: string,
    id: Option<string>,
    str: Option<string>,
    text: string,
    parent: Option<nat>)

  type Page = seq<Element>

  /** One scraped drug page. */
  datatype DrugRecord = DrugRecord(name: string, uses: string, sideEffects: string)

  /** The sentinel stored in a field whose anchor is missing. */
  const NotAvailable: string := "N/A"
  const UsesMarker: string := "What is"
  const SideEffectsId: string := "side-effects"
  const SectionTag: string := "h2"
  const SiteRoot: string := "https://www.drugs.com"
  const MaxLinks: nat := 50

  /** The first position at or after `start` whose tag satisfies `p`. */
  function FindFrom(page: Page, start: nat, p: Element -> bool): (r: Option<nat>)
    ensures r.Some? ==> start <= r.value < |page| && p(page[r.value])
    ensures r.Some? ==> forall j :: start <= j < r.value ==> !p(page[j])
    ensures r.None? ==> forall j :: start <= j < |page| ==> !p(page[j])
    decreases |page| - start
  {
    if start >= |page| then None
    else if p(page[start]) then Some(start)
    else FindFrom(page, start + 1, p)
  }

  predicate IsTitle(e: Element) { e.tag == "h1" }

  /** `soup.find('h2', string=lambda text: text and 'What is' in text)` */
  predicate IsUsesHeading(e: Element) {
    e.tag == SectionTag && e.str.Some? && e.str.value != "" && Contains(e.str.value, UsesMarker)
  }

  predicate IsParagraph(e: Element) { e.tag == "p" }

  /** `soup.find('h2', id='side-effects')` */
  predicate IsSideEffectsHeading(e: Element) {
    e.tag == SectionTag && e.id == Some(SideEffectsId)
  }

  /** The first tag at or after `start` whose parent is `par`. */
  function NextWithParent(page: Page, start: nat, par: Option<nat>): (r: Option<nat>)
    ensures r.Some? ==> start <= r.value < |page| && page[r.value].parent == par
    ensures r.Some? ==> forall j :: start <= j < r.value ==> page[j].parent != par
    ensures r.None? ==> forall j :: start <= j < |page| ==> page[j].parent != par
    decreases |page| - start
  {
    if start >= |page| then None
    else if page[start].parent == par then Some(start)
    else NextWithParent(page, start + 1, par)
  }

  /** `element.find_next_sibling()` */
  function NextSibling(page: Page, i: nat): (r: Option<nat>)
    requires i < |page|
  {
    NextWithParent(page, i + 1, page[i].parent)
  }

  /** The name: the stripped text of the first `h1`, or the sentinel. */
  function NameField(page: Page): string {
    match FindFrom(page, 0, IsTitle)
    case None => NotAvailable
    case Some(i) => Strip(page[i].text)
  }

  /**
   * The uses: the stripped text of the first `p` after the first "What is"
   * heading, or the sentinel when either is missing.
   */
  function UsesField(page: Page): string {
    match FindFrom(page, 0, IsUsesHeading)
    case None => NotAvailable
    case Some(h) =>
      match FindFrom(page, h + 1, IsParagraph)
      case None => NotAvailable
      case Some(p) => Strip(page[p].text)
  }

  /**
   * The positions the side-effects walk visits: starting at the first tag at
   * or after `start` with parent `par`, each such sibling in turn, stopping
   * before the first `h2` among them or at the end of the page.
   */
  function Walk(page: Page, par: Option<nat>, start: nat): (r: seq<nat>)
    ensures forall k :: 0 <= k < |r| ==>
              start <= r[k] < |page| && page[r[k]].parent == par && page[r[k]].tag != SectionTag
    decreases |page| - start
  {
    match NextWithParent(page, start, par)
    case None => []
    case Some(i) => if page[i].tag == SectionTag then [] else [i] + Walk(page, par, i + 1)
  }

  /** No tag with parent `par` from `start` up to and including `j` is an `h2`. */
  predicate NoBreakUpTo(page: Page, par: Option<nat>, start: nat, j: nat)
    requires j < |page|
  {
    forall k :: start <= k <= j && page[k].parent == par ==> page[k].tag != SectionTag
  }

  /** `j` is a tag with parent `par`, at or after `start`, with no `h2` sibling before it from `start` on. */
  predicate Reached(page: Page, par: Option<nat>, start: nat, j: nat) {
    start <= j < |page| && page[j].parent == par && NoBreakUpTo(page, par, start, j)
  }

  /** Whether `j` is a sibling after `h` with no `h2` sibling in between (or at `j`). */
  predicate InSection(page: Page, h: nat, j: nat)
    requires h < |page|
  {
    && h < j < |page|
    && page[j].parent == page[h].parent
    && forall k :: h < k <= j && page[k].parent == page[h].parent ==> page[k].tag != SectionTag
  }

  /** The siblings of heading `h` that make up its section. */
  function SectionIndices(page: Page, h: nat): seq<nat>
    requires h < |page|
  {
    Walk(page, page[h].parent, h + 1)
  }

  /** The stripped text of each listed tag. */
  function Texts(page: Page, idx: seq<nat>): (r: seq<string>)
    requires forall k :: 0 <= k < |idx| ==> idx[k] < |page|
    ensures |r| == |idx|
  {
    if idx == [] then [] else [Strip(page[idx[0]].text)] + Texts(page, idx[1..])
  }

  /** Part `k` is the stripped text of the `k`-th listed tag. */
  lemma {:induction false} TextsAt(page: Page, idx: seq<nat>)
    requires forall k :: 0 <= k < |idx| ==> idx[k] < |page|
    ensures forall k :: 0 <= k < |idx| ==> Texts(page, idx)[k] == Strip(page[idx[k]].text)
  {
    if idx != [] {
      TextsAt(page, idx[1..]);
    }
  }

  /** The side-effects text of heading `h`: joined with single spaces, newlines replaced. */
  function SectionText(page: Page, h: nat): string
    requires h < |page|
  {
    ReplaceNewlines(Join(" ", Texts(page, SectionIndices(page, h))))
  }

  function SideEffectsField(page: Page): string {
    match FindFrom(page, 0, IsSideEffectsHeading)
    case None => NotAvailable
    case Some(h) => SectionText(page, h)
  }

  /** The record `scrape_drug_info` returns for a page. */
  function DrugInfo(page: Page): DrugRecord {
    DrugRecord(NameField(page), UsesField(page), SideEffectsField(page))
  }

  /**
   * The walk visits exactly the siblings after `start` that come before the
   * first `h2` sibling, in increasing document order.
   */
  lemma {:induction false} WalkSpec(page: Page, par: Option<nat>, start: nat)
    ensures forall j :: j in Walk(page, par, start) <==> Reached(page, par, start, j)
    ensures forall a, b :: 0 <= a < b < |Walk(page, par, start)| ==>
              Walk(page, par, start)[a] < Walk(page, par, start)[b]
    decreases |page| - start
  {
    var next := NextWithParent(page, start, par);
    if next.None? {
      forall j: nat ensures !Reached(page, par, start, j) { }
    } else {
      var i := next.value;
      if page[i].tag == SectionTag {
        forall j: nat ensures !Reached(page, par, start, j) {
          if start <= j < |page| && page[j].parent == par {
            assert i <= j;
          }
        }
      } else {
        WalkSpec(page, par, i + 1);
        var w := Walk(page, par, i + 1);
        assert Walk(page, par, start) == [i] + w;
        forall j: nat ensures j in Walk(page, par, start) <==> Reached(page, par, start, j) {
          if j != i && start <= j < |page| && page[j].parent == par {
            assert i < j;
            assert NoBreakUpTo(page, par, start, j) <==> NoBreakUpTo(page, par, i + 1, j);
          }
        }
      }
    }
  }

  /**
   * The section of heading `h` is exactly the siblings strictly between `h`
   * and the first later `h2` sibling (or the end of the page), in document
   * order; so no `h2` is ever part of it.
   */
  lemma SectionIndicesSpec(page: Page, h: nat)
    requires h < |page|
    ensures forall j :: j in SectionIndices(page, h) <==> InSection(page, h, j)
    ensures forall a, b :: 0 <= a < b < |SectionIndices(page, h)| ==>
              SectionIndices(page, h)[a] < SectionIndices(page, h)[b]
    ensures forall j :: j in SectionIndices(page, h) ==> page[j].tag != SectionTag
  {
    WalkSpec(page, page[h].parent, h + 1);
    forall j ensures j in SectionIndices(page, h) <==> InSection(page, h, j) {
      assert Reached(page, page[h].parent, h + 1, j) <==> InSection(page, h, j);
    }
  }

  /**
   * The loop of `scrape_drug_info` run from cursor position `start` with the
   * texts `acc` already collected: what the list holds when the loop stops.
   */
  function CollectFrom(page: Page, par: Option<nat>, start: nat, acc: seq<string>): seq<string>
    decreases |page| - start
  {
    match NextWithParent(page, start, par)
    case None => acc
    case Some(i) =>
      if page[i].tag == SectionTag then acc
      else CollectFrom(page, par, i + 1, acc + [Strip(page[i].text)])
  }

  /** The loop appends the stripped texts of exactly the visited positions, in order. */
  lemma {:induction false} CollectFromTexts(page: Page, par: Option<nat>, start: nat, acc: seq<string>)
    ensures CollectFrom(page, par, start, acc) == acc + Texts(page, Walk(page, par, start))
    decreases |page| - start
  {
    match NextWithParent(page, start, par)
    case None =>
    case Some(i) =>
      if page[i].tag != SectionTag {
        var x := Strip(page[i].text);
        CollectFromTexts(page, par, i + 1, acc + [x]);
        var w := Walk(page, par, i + 1);
        assert Walk(page, par, start) == [i] + w;
        assert ([i] + w)[1..] == w;
        assert Texts(page, [i] + w) == [x] + Texts(page, w);
        assert (acc + [x]) + Texts(page, w) == acc + ([x] + Texts(page, w));
      }
  }

  /**
   * The side-effects walk of `scrape_drug_info`: from heading `h`, advance a
   * cursor from sibling to sibling, collecting stripped texts until an `h2`
   * sibling or the last sibling; then join with spaces and replace newlines.
   */
  method CollectSection(page: Page, h: nat) returns (text: string)
    requires h < |page|
    ensures text == SectionText(page, h)
    ensures '\n' !in text
  {
    var par := page[h].parent;
    var parts: seq<string> := [];
    var element := NextSibling(page, h);
    ghost var pos: nat := h + 1;
    while element.Some?
      invariant pos <= |page|
      invariant element == NextWithParent(page, pos, par)
      invariant CollectFrom(page, par, pos, parts) == CollectFrom(page, par, h + 1, [])
      decreases |page| - pos
    {
      var i := element.value;
      if page[i].tag == SectionTag {
        assert CollectFrom(page, par, pos, parts) == parts;
        break;
      }
      parts := parts + [Strip(page[i].text)];
      element := NextSibling(page, i);
      pos := i + 1;
    }
    assert CollectFrom(page, par, pos, parts) == parts;
    CollectFromTexts(page, par, h + 1, []);
    assert parts == Texts(page, SectionIndices(page, h));
    text := ReplaceNewlines(Join(" ", parts));
  }

  /** `scrape_drug_info` on an already parsed page. */
  method ScrapeDrugInfo(page: Page) returns (record: DrugRecord)
    ensures record == DrugInfo(page)
    ensures FindFrom(page, 0, IsTitle).None? ==> record.name == NotAvailable
    ensures FindFrom(page, 0, IsUsesHeading).None? ==> record.uses == NotAvailable
    ensures var hd := FindFrom(page, 0, IsUsesHeading);
              hd.Some? && FindFrom(page, hd.value + 1, IsParagraph).None? ==> record.uses == NotAvailable
    ensures FindFrom(page, 0, IsSideEffectsHeading).None? ==> record.sideEffects == NotAvailable
    ensures '\n' !in record.sideEffects
  {
    var name := NameField(page);
    var description := UsesField(page);
    var sideEffects: string;
    var heading := FindFrom(page, 0, IsSideEffectsHeading);
    if heading.Some? {
      sideEffects := CollectSection(page, heading.value);
    } else {
      sideEffects := NotAvailable;
    }
    record := DrugRecord(name, description, sideEffects);
  }

  /** One anchor of the listing container; `href` is absent when the tag has none. */
  datatype Anchor = Anchor(href: Option<string>)

  /** `find_all('a', href=True)` followed by `link['href']`: the targets in document order. */
  function Hrefs(anchors: seq<Anchor>): (r: seq<string>)
    ensures |r| <= |anchors|
  {
    if anchors == [] then []
    else (if anchors[0].href.Some? then [anchors[0].href.value] else []) + Hrefs(anchors[1..])
  }

  /** The links `scrape_drugs` follows: the first fifty targets. */
  function DrugLinks(anchors: seq<Anchor>): (links: seq<string>)
  {
    var all := Hrefs(anchors);
    if |all| <= MaxLinks then all else all[..MaxLinks]
  }

  /** Targets of consecutive runs of anchors concatenate. */
  lemma {:induction false} HrefsAppend(a: seq<Anchor>, b: seq<Anchor>)
    ensures Hrefs(a + b) == Hrefs(a) + Hrefs(b)
  {
    if a == [] {
      assert a + b == b;
    } else {
      assert (a + b)[0] == a[0];
      assert (a + b)[1..] == a[1..] + b;
      HrefsAppend(a[1..], b);
      var head := if a[0].href.Some? then [a[0].href.value] else [];
      calc {
        Hrefs(a + b);
        head + Hrefs(a[1..] + b);
        head + (Hrefs(a[1..]) + Hrefs(b));
        (head + Hrefs(a[1..])) + Hrefs(b);
        Hrefs(a) + Hrefs(b);
      }
    }
  }

  /** One anchor contributes its target when it has one, and nothing otherwise. */
  lemma HrefsOne(a: Anchor)
    ensures Hrefs([a]) == if a.href.Some? then [a.href.value] else []
  {
    assert [a][1..] == [];
  }

  /** When every anchor has a target, the targets are taken in order. */
  lemma {:induction false} HrefsAllPresent(anchors: seq<Anchor>)
    requires forall i :: 0 <= i < |anchors| ==> anchors[i].href.Some?
    ensures |Hrefs(anchors)| == |anchors|
    ensures forall i :: 0 <= i < |anchors| ==> Hrefs(anchors)[i] == anchors[i].href.value
  {
    if anchors != [] {
      HrefsAllPresent(anchors[1..]);
    }
  }

  /**
   * The link list holds min(50, n) of the n targets, and they are the first
   * ones in document order: anchors after the fiftieth target never matter.
   */
  lemma DrugLinksSpec(anchors: seq<Anchor>, more: seq<Anchor>)
    ensures |DrugLinks(anchors)| == if |Hrefs(anchors)| <= MaxLinks then |Hrefs(anchors)| else MaxLinks
    ensures DrugLinks(anchors) <= Hrefs(anchors)
    ensures |Hrefs(anchors)| >= MaxLinks ==> DrugLinks(anchors + more) == DrugLinks(anchors)
  {
    HrefsAppend(anchors, more);
    var h := Hrefs(anchors);
    if |h| >= MaxLinks {
      assert (h + Hrefs(more))[..MaxLinks] == h[..MaxLinks];
    }
  }

  /** The URL fetched for one link. */
  function DrugUrl(link: string): string { SiteRoot + link }

  /** The record of every link, in link order: one fetch and one extraction per link. */
  function RowsFor(links: seq<string>, fetch: string -> Page): (rows: seq<DrugRecord>)
    ensures |rows| == |links|
    ensures forall i :: 0 <= i < |links| ==> rows[i] == DrugInfo(fetch(DrugUrl(links[i])))
  {
    if links == [] then []
    else RowsFor(links[..|links| - 1], fetch) + [DrugInfo(fetch(DrugUrl(links[|links| - 1])))]
  }

  /** The raw table: one record per followed link; none without a listing. */
  function ScrapedRows(listing: Option<seq<Anchor>>, fetch: string -> Page): seq<DrugRecord> {
    match listing
    case None => []
    case Some(anchors) => RowsFor(DrugLinks(anchors), fetch)
  }

  /**
   * `scrape_drugs`: `listing` is the anchors of the `ddc-list-column-4`
   * container, absent when the page has none; `fetch` gives the parsed page
   * behind a URL.
   */
  method ScrapeDrugs(listing: Option<seq<Anchor>>, fetch: string -> Page) returns (rows: seq<DrugRecord>)
    ensures rows == ScrapedRows(listing, fetch)
    ensures listing.None? ==> rows == []
    ensures |rows| <= MaxLinks
  {
    if listing.None? {
      return [];
    }
    var links := DrugLinks(listing.value);
    rows := [];
    for i := 0 to |links|
      invariant rows == RowsFor(links[..i], fetch)
    {
      var info := ScrapeDrugInfo(fetch(DrugUrl(links[i])));
      assert links[..i + 1][..i] == links[..i];
      rows := rows + [info];
    }
    assert links[..|links|] == links;
  }
}
