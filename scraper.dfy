/**
 * The NeurIPS listing scraper: turning the `<li>` items of the listing page
 * into paper records, and retrying the whole scrape until it yields papers.
 * The page fetch is an oracle: each attempt is given the parsed items of the
 * page, or None when the request raised.
 */
module Scraper {
  import opened Wrappers
  import opened Text

  /** The first `<a>` tag of an item: its text and its `href` attribute, if present. */
  datatype Anchor = Anchor(text: string, href: Option<string>)

  /** One `<li>` item: its first `<a>` tag and the text of its first `<i>` tag, if present. */
  datatype Item = Item(anchor: Option<Anchor>, italic: Option<string>)

  /** A scraped paper: `{'title', 'authors', 'link', 'year'}`. */
  datatype PaperRecord = PaperRecord(title: string, authors: seq<string>, link: string, year: int)

  const Host: string := "https://papers.nips.cc"

  /** Makes a relative link absolute by prefixing the host; leaves empty and `http...` links alone. */
  function AbsoluteLink(link: string): (r: string)
    ensures link == [] ==> r == []
    ensures StartsWith(link, "http") ==> r == link
    ensures link != [] && !StartsWith(link, "http") ==> r == Host + link
    ensures link != [] ==> StartsWith(r, "http")
  {
    if link != [] && !StartsWith(link, "http") then Host + link else link
  }

  /**
   * The author list: the stripped text of the `<i>` tag split at every comma,
   * each part stripped; no `<i>` tag gives no authors.
   */
  function Authors(italic: Option<string>): (r: seq<string>)
    ensures italic.None? ==> r == []
    ensures italic.Some? ==> |r| == Count(Strip(italic.value), ',') + 1
    ensures forall i :: 0 <= i < |r| ==> Trimmed(r[i]) && ',' !in r[i]
  {
    match italic
    case None => []
    case Some(t) =>
      var parts := Split(Strip(t), ',');
      seq(|parts|, i requires 0 <= i < |parts| => Strip(parts[i]))
  }

  /** An `<i>` tag with only whitespace yields one empty author, not none. */
  lemma BlankAuthorTag(t: string)
    requires AllSpace(t)
    ensures Authors(Some(t)) == [""]
  {
    assert Strip(t) == [];
  }

  /** Each author is the stripped form of one comma-separated piece of the tag text. */
  lemma AuthorsArePieces(t: string)
    ensures |Authors(Some(t))| == |Split(Strip(t), ',')|
    ensures forall i :: 0 <= i < |Authors(Some(t))| ==> Authors(Some(t))[i] == Strip(Split(Strip(t), ',')[i])
    ensures Join(Split(Strip(t), ','), [',']) == Strip(t)
  {
    JoinSplit(Strip(t), ',');
  }

  /** The record built from one item, or None when the item is skipped. */
  function ExtractItem(item: Item, year: int): (r: Option<PaperRecord>)
    ensures r.Some? <==>
      item.anchor.Some? && Strip(item.anchor.value.text) != [] && item.anchor.value.href.GetOr("") != []
    ensures r.Some? ==>
      && r.value.title == Strip(item.anchor.value.text)
      && r.value.link == AbsoluteLink(item.anchor.value.href.GetOr(""))
      && r.value.authors == Authors(item.italic)
      && r.value.year == year
  {
    match item.anchor
    case None => None
    case Some(a) =>
      var title := Strip(a.text);
      var link := AbsoluteLink(a.href.GetOr(""));
      if title != [] && link != [] then Some(PaperRecord(title, Authors(item.italic), link, year))
      else None
  }

  /** What one item contributes to the list: its record, or nothing. */
  function Emitted(item: Item, year: int): seq<PaperRecord> {
    match ExtractItem(item, year)
    case Some(p) => [p]
    case None => []
  }

  /** The pieces `f` gives for each element, concatenated in element order. */
  function FlatMap<X, R>(xs: seq<X>, f: X -> seq<R>): seq<R> {
    if xs == [] then [] else FlatMap(xs[..|xs| - 1], f) + f(xs[|xs| - 1])
  }

  lemma {:induction false} FlatMapAppend<X, R>(a: seq<X>, b: seq<X>, f: X -> seq<R>)
    ensures FlatMap(a + b, f) == FlatMap(a, f) + FlatMap(b, f)
  {
    if b != [] {
      var ab := a + b;
      assert ab[|ab| - 1] == b[|b| - 1];
      assert ab[..|ab| - 1] == a + b[..|b| - 1];
      FlatMapAppend(a, b[..|b| - 1], f);
    } else {
      assert a + b == a;
    }
  }

  /** The records of the items, in item order. */
  function ExtractPapers(items: seq<Item>, year: int): seq<PaperRecord> {
    FlatMap(items, (item: Item) => Emitted(item, year))
  }

  /** A well-formed record for every item that has one, and only those. */
  predicate WellFormed(p: PaperRecord, year: int) {
    Trimmed(p.title) && p.title != [] && StartsWith(p.link, "http") && p.year == year
  }

  lemma {:induction false} ExtractPapersWellFormed(items: seq<Item>, year: int)
    ensures |ExtractPapers(items, year)| <= |items|
    ensures forall j :: 0 <= j < |ExtractPapers(items, year)| ==> WellFormed(ExtractPapers(items, year)[j], year)
  {
    if items != [] {
      ExtractPapersWellFormed(items[..|items| - 1], year);
    }
  }

  /** Extraction works item by item: the records of a concatenation are the concatenated records. */
  lemma ExtractPapersAppend(a: seq<Item>, b: seq<Item>, year: int)
    ensures ExtractPapers(a + b, year) == ExtractPapers(a, year) + ExtractPapers(b, year)
  {
    FlatMapAppend(a, b, (item: Item) => Emitted(item, year));
  }

  lemma ExtractPapersSingle(item: Item, year: int)
    ensures ExtractPapers([item], year) == Emitted(item, year)
  {
    assert [item][..0] == [];
    assert FlatMap([item], (it: Item) => Emitted(it, year)) == FlatMap([], (it: Item) => Emitted(it, year)) + Emitted(item, year);
  }

  class NipsScraper {
    const year: int

    constructor (year: int)
      ensures this.year == year
    {
      this.year := year;
    }

    /** What one scrape yields for a fetched page; a failed request yields nothing. */
    function Scrape(page: Option<seq<Item>>): seq<PaperRecord> {
      match page
      case None => []
      case Some(items) => ExtractPapers(items, year)
    }

    /** `scrape_papers`, given the parsed items of the page (None: the request raised). */
    method ScrapePapers(page: Option<seq<Item>>) returns (papers: seq<PaperRecord>)
      ensures papers == Scrape(page)
    {
      papers := [];
      if page.None? {
        return;
      }
      var items := page.value;
      for i := 0 to |items|
        invariant papers == ExtractPapers(items[..i], year)
      {
        assert items[..i + 1][..i] == items[..i];
        var r := ExtractItem(items[i], year);
        if r.Some? {
          papers := papers + [r.value];
        }
        assert papers == ExtractPapers(items[..i], year) + Emitted(items[i], year);
      }
      assert items[..|items|] == items;
    }

    /**
     * `scrape_with_retry`: `outcomes[i]` is what the i-th call of `scrape_papers`
     * returns (the page changes between attempts, so each call is an oracle).
     * Returns the papers and how many attempts were made.
     */
    method ScrapeWithRetry(outcomes: seq<seq<PaperRecord>>, maxRetries: int) returns (papers: seq<PaperRecord>, attempts: nat)
      requires maxRetries <= |outcomes|
      ensures attempts <= Min0(maxRetries)
      ensures forall i :: 0 <= i < attempts - 1 ==> outcomes[i] == []
      ensures papers != [] ==> attempts >= 1 && papers == outcomes[attempts - 1]
      ensures papers == [] ==> attempts == Min0(maxRetries) && forall i :: 0 <= i < attempts ==> outcomes[i] == []
    {
      attempts := 0;
      while attempts < maxRetries
        invariant attempts <= Min0(maxRetries)
        invariant forall i :: 0 <= i < attempts ==> outcomes[i] == []
      {
        var found := outcomes[attempts];
        attempts := attempts + 1;
        if found != [] {
          return found, attempts;
        }
      }
      papers := [];
    }
  }

  /** `range(n)` is empty for negative n: the number of attempts allowed. */
  function Min0(n: int): nat {
    if n < 0 then 0 else n
  }
}
