/**
  The bookkeeping around `extract_urls`: the per-source record of `process_source`
  with its category tally, the zero-filled summary rows and the flattened
  `(Source, URL, URL Type, Category)` rows of the exports, and the grand total and
  alphabetical per-source breakdown of the console summary.
*/
module Aggregator {
  import opened Wrappers
  import opened Patterns
  import opened Categorizer
  import opened Extractor

  /** The error message of a source whose content could not be retrieved. */
  const FailureMessage: string := "Failed to retrieve content"

  /** The dictionary `process_source` returns. */
  datatype SourceResult = SourceResult(
    filename: string,
    totalUrls: nat,
    urls: seq<Entry>,
    categoryCounts: map<Category, nat>,
    error: Option<string>)

  /** `counts.get(c, 0)`. */
  function Get(counts: map<Category, nat>, c: Category): nat {
    if c in counts then counts[c] else 0
  }

  /** How many tuples have category `c`. */
  function Occurrences(xs: seq<Entry>, c: Category): nat {
    if xs == [] then 0
    else Occurrences(xs[..|xs| - 1], c) + (if xs[|xs| - 1].category == c then 1 else 0)
  }

  /** The `category_counts` dictionary after counting the tuples `xs` in order. */
  function Tally(xs: seq<Entry>): (r: map<Category, nat>)
    ensures forall c :: c in r ==> 1 <= r[c] <= |xs|
  {
    if xs == [] then map[]
    else
      var counts := Tally(xs[..|xs| - 1]);
      var c := xs[|xs| - 1].category;
      counts[c := Get(counts, c) + 1]
  }

  /** All categories, each once. */
  const AllCategories: seq<Category> := Precedence + [Webpage]

  /** The sum of the counts of `cats`, absent ones counting 0. */
  function SumCounts(counts: map<Category, nat>, cats: seq<Category>): nat {
    if cats == [] then 0 else Get(counts, cats[0]) + SumCounts(counts, cats[1..])
  }

  /** The sum of all the counts of a dictionary keyed by category. */
  function CountsTotal(counts: map<Category, nat>): nat {
    SumCounts(counts, AllCategories)
  }

  /** A record whose total and counts agree with its tuples. */
  predicate Consistent(r: SourceResult) {
    r.totalUrls == |r.urls| && r.categoryCounts == Tally(r.urls)
  }

  // ---------------------------------------------------------------------------
  // process_source, from the content on.

  /** `process_source` once the content of `source` is known: empty content is a
      failure; otherwise the record holds the extracted tuples and their tally. */
  method ProcessSource(source: string, content: string) returns (r: SourceResult)
    ensures r.filename == source
    ensures |content| == 0 ==>
      r.totalUrls == 0 && r.urls == [] && r.categoryCounts == map[] && r.error == Some(FailureMessage)
    ensures |content| > 0 ==>
      r.urls == Extract(content) && r.totalUrls == |r.urls| && r.categoryCounts == Tally(r.urls) && r.error == None
    ensures Consistent(r) && CountsTotal(r.categoryCounts) == r.totalUrls
  {
    if |content| == 0 {
      TallyTotal([]);
      return SourceResult(source, 0, [], map[], Some(FailureMessage));
    }
    var urls := ExtractUrls(content);
    var counts := CountCategories(urls);
    TallyTotal(urls);
    r := SourceResult(source, |urls|, urls, counts, None);
  }

  /** The counting loop of `process_source`: `category_counts[c] = category_counts.get(c, 0) + 1`. */
  method CountCategories(urls: seq<Entry>) returns (counts: map<Category, nat>)
    ensures counts == Tally(urls)
  {
    counts := map[];
    var i := 0;
    while i < |urls|
      invariant 0 <= i <= |urls|
      invariant counts == Tally(urls[..i])
    {
      assert urls[..i + 1][..i] == urls[..i];
      var category := urls[i].category;
      counts := counts[category := Get(counts, category) + 1];
      i := i + 1;
    }
    assert urls[..i] == urls;
  }

  /** The tally has a key exactly for each category that occurs, with its number of occurrences. */
  lemma {:induction false} TallyCounts(xs: seq<Entry>)
    ensures forall c :: c in Tally(xs) <==> Occurrences(xs, c) > 0
    ensures forall c :: Get(Tally(xs), c) == Occurrences(xs, c)
  {
    if xs != [] {
      TallyCounts(xs[..|xs| - 1]);
    }
  }

  /** The counts of a record sum to the number of its tuples. */
  lemma TallyTotal(xs: seq<Entry>)
    ensures CountsTotal(Tally(xs)) == |xs|
  {
    TallyCounts(xs);
    OccurrencesSum(xs);
    SumCountsOccurrences(Tally(xs), xs, AllCategories);
  }

  lemma {:induction false} SumCountsOccurrences(counts: map<Category, nat>, xs: seq<Entry>, cats: seq<Category>)
    requires forall c :: Get(counts, c) == Occurrences(xs, c)
    ensures SumCounts(counts, cats) == SumOccurrences(xs, cats)
  {
    if cats != [] {
      SumCountsOccurrences(counts, xs, cats[1..]);
    }
  }

  function SumOccurrences(xs: seq<Entry>, cats: seq<Category>): nat {
    if cats == [] then 0 else Occurrences(xs, cats[0]) + SumOccurrences(xs, cats[1..])
  }

  /** How often `c` is listed in `cats`. */
  function Multiplicity(cats: seq<Category>, c: Category): nat {
    if cats == [] then 0 else (if cats[0] == c then 1 else 0) + Multiplicity(cats[1..], c)
  }

  lemma {:induction false} SumOccurrencesAppend(p: seq<Entry>, x: Entry, cats: seq<Category>)
    ensures SumOccurrences(p + [x], cats) == SumOccurrences(p, cats) + Multiplicity(cats, x.category)
  {
    assert (p + [x])[..|p + [x]| - 1] == p;
    if cats != [] {
      SumOccurrencesAppend(p, x, cats[1..]);
    }
  }

  /** Every category is listed once in `AllCategories`. */
  lemma AllCategoriesOnce(c: Category)
    ensures Multiplicity(AllCategories, c) == 1
  {
    assert AllCategories[c.Rank()] == c;
    MultiplicityDistinct(AllCategories, c);
  }

  /** In a list without repetitions a listed element occurs once. */
  lemma {:induction false} MultiplicityDistinct(cats: seq<Category>, c: Category)
    requires forall i, j :: 0 <= i < j < |cats| ==> cats[i] != cats[j]
    ensures Multiplicity(cats, c) == if c in cats then 1 else 0
  {
    if cats != [] {
      MultiplicityDistinct(cats[1..], c);
      if cats[0] == c {
        assert c !in cats[1..];
      }
    }
  }

  /** Counting every category once counts every tuple once. */
  lemma {:induction false} OccurrencesSum(xs: seq<Entry>)
    ensures SumOccurrences(xs, AllCategories) == |xs|
  {
    if xs == [] {
      OccurrencesNone(AllCategories);
    } else {
      var p := xs[..|xs| - 1];
      var x := xs[|xs| - 1];
      assert xs == p + [x];
      OccurrencesSum(p);
      SumOccurrencesAppend(p, x, AllCategories);
      AllCategoriesOnce(x.category);
    }
  }

  lemma {:induction false} OccurrencesNone(cats: seq<Category>)
    ensures SumOccurrences([], cats) == 0
  {
    if cats != [] {
      OccurrencesNone(cats[1..]);
    }
  }

  // ---------------------------------------------------------------------------
  // The summary sheet.

  /** `all_categories`: every category that has a count in some source. */
  function Vocabulary(results: seq<SourceResult>): (r: set<Category>)
    ensures forall i :: 0 <= i < |results| ==> results[i].categoryCounts.Keys <= r
  {
    if results == [] then {}
    else Vocabulary(results[..|results| - 1]) + results[|results| - 1].categoryCounts.Keys
  }

  lemma {:induction false} VocabularyMember(results: seq<SourceResult>, c: Category)
    ensures c in Vocabulary(results) <==> exists i :: 0 <= i < |results| && c in results[i].categoryCounts
  {
    if results != [] {
      var p := results[..|results| - 1];
      VocabularyMember(p, c);
      if exists i :: 0 <= i < |p| && c in p[i].categoryCounts {
        var i :| 0 <= i < |p| && c in p[i].categoryCounts;
        assert results[i] == p[i];
      }
    }
  }

  /** One row of the summary sheet: `Source`, `Total URLs` and a count per category. */
  datatype SummaryRow = SummaryRow(source: string, totalUrls: nat, counts: map<Category, nat>)

  /** The summary rows of `export_to_excel`: one per source, in order; each has a column
      for every category of every source, holding that source's count or 0. */
  method BuildSummary(results: seq<SourceResult>) returns (summaryData: seq<SummaryRow>)
    ensures |summaryData| == |results|
    ensures forall k :: 0 <= k < |results| ==>
      && summaryData[k].source == results[k].filename
      && summaryData[k].totalUrls == results[k].totalUrls
      && summaryData[k].counts.Keys == Vocabulary(results)
      && forall c :: c in summaryData[k].counts ==> summaryData[k].counts[c] == Get(results[k].categoryCounts, c)
  {
    summaryData := [];
    var i := 0;
    while i < |results|
      invariant 0 <= i <= |results|
      invariant |summaryData| == i
      invariant forall k :: 0 <= k < i ==>
        && summaryData[k].source == results[k].filename
        && summaryData[k].totalUrls == results[k].totalUrls
        && summaryData[k].counts.Keys == Vocabulary(results)
        && forall c :: c in summaryData[k].counts ==> summaryData[k].counts[c] == Get(results[k].categoryCounts, c)
    {
      var result := results[i];
      var allCategories := CollectCategories(results);
      var row := ZeroFilledCounts(result.categoryCounts, allCategories);
      summaryData := summaryData + [SummaryRow(result.filename, result.totalUrls, row)];
      i := i + 1;
    }
  }

  /** The inner loop building `all_categories` from every source's keys. */
  method CollectCategories(results: seq<SourceResult>) returns (allCategories: set<Category>)
    ensures allCategories == Vocabulary(results)
  {
    allCategories := {};
    var j := 0;
    while j < |results|
      invariant 0 <= j <= |results|
      invariant allCategories == Vocabulary(results[..j])
    {
      assert results[..j + 1][..j] == results[..j];
      allCategories := allCategories + results[j].categoryCounts.Keys;
      j := j + 1;
    }
    assert results[..j] == results;
  }

  /** The loop `for cat in all_categories: summary_row[cat] = counts.get(cat, 0)`. */
  method ZeroFilledCounts(counts: map<Category, nat>, allCategories: set<Category>) returns (row: map<Category, nat>)
    ensures row.Keys == allCategories
    ensures forall c :: c in row ==> row[c] == Get(counts, c)
  {
    row := map[];
    var rest := allCategories;
    while rest != {}
      invariant rest <= allCategories
      invariant row.Keys == allCategories - rest
      invariant forall c :: c in row ==> row[c] == Get(counts, c)
      decreases rest
    {
      var cat :| cat in rest;
      row := row[cat := Get(counts, cat)];
      rest := rest - {cat};
    }
  }

  // ---------------------------------------------------------------------------
  // The "All URLs" sheet and the CSV export.

  /** One exported row, holding the program's strings for type and category. */
  datatype Row = Row(source: string, url: string, urlType: string, category: string)

  function RowOf(source: string, e: Entry): Row {
    Row(source, e.url, e.urlType.Label(), e.category.Name())
  }

  /** The rows of one source, in the order of its tuples. */
  function RowsOf(r: SourceResult): seq<Row> {
    seq(|r.urls|, k requires 0 <= k < |r.urls| => RowOf(r.filename, r.urls[k]))
  }

  /** All rows: the sources in order, each with its tuples in order. */
  function Flatten(results: seq<SourceResult>): (r: seq<Row>)
    ensures |results| > 0 ==>
      |RowsOf(results[|results| - 1])| <= |r| && r[|r| - |RowsOf(results[|results| - 1])|..] == RowsOf(results[|results| - 1])
  {
    if results == [] then [] else Flatten(results[..|results| - 1]) + RowsOf(results[|results| - 1])
  }

  /** The nested loops that build `data` in `export_to_csv` and `export_to_excel`. */
  method FlattenRows(results: seq<SourceResult>) returns (data: seq<Row>)
    ensures data == Flatten(results)
  {
    data := [];
    var i := 0;
    while i < |results|
      invariant 0 <= i <= |results|
      invariant data == Flatten(results[..i])
    {
      var result := results[i];
      var k := 0;
      while k < |result.urls|
        invariant 0 <= k <= |result.urls|
        invariant data == Flatten(results[..i]) + RowsOf(result)[..k]
      {
        var entry := result.urls[k];
        data := data + [Row(result.filename, entry.url, entry.urlType.Label(), entry.category.Name())];
        k := k + 1;
      }
      assert RowsOf(result)[..k] == RowsOf(result);
      assert results[..i + 1][..i] == results[..i];
      i := i + 1;
    }
    assert results[..i] == results;
  }

  // ---------------------------------------------------------------------------
  // The console summary.

  /** `sum(r['total_urls'] for r in results)`. */
  function GrandTotal(results: seq<SourceResult>): (r: nat)
    ensures forall i :: 0 <= i < |results| ==> results[i].totalUrls <= r
  {
    if results == [] then 0 else GrandTotal(results[..|results| - 1]) + results[|results| - 1].totalUrls
  }

  /** For consistent records the grand total is the number of exported rows. */
  lemma {:induction false} GrandTotalRows(results: seq<SourceResult>)
    requires forall i :: 0 <= i < |results| ==> Consistent(results[i])
    ensures GrandTotal(results) == |Flatten(results)|
  {
    if results != [] {
      GrandTotalRows(results[..|results| - 1]);
    }
  }

  /** The exported rows are exactly the tuples of the sources, each with its source. */
  lemma {:induction false} FlattenMember(results: seq<SourceResult>, row: Row)
    ensures row in Flatten(results) <==>
      exists i, k :: 0 <= i < |results| && 0 <= k < |results[i].urls| && row == RowOf(results[i].filename, results[i].urls[k])
  {
    if results != [] {
      var p := results[..|results| - 1];
      var last := results[|results| - 1];
      FlattenMember(p, row);
      if row in RowsOf(last) {
        var k :| 0 <= k < |RowsOf(last)| && RowsOf(last)[k] == row;
        assert row == RowOf(results[|results| - 1].filename, results[|results| - 1].urls[k]);
      }
      if exists i, k :: 0 <= i < |results| && 0 <= k < |results[i].urls| && row == RowOf(results[i].filename, results[i].urls[k]) {
        var i, k :| 0 <= i < |results| && 0 <= k < |results[i].urls| && row == RowOf(results[i].filename, results[i].urls[k]);
        if i < |p| {
          assert results[i] == p[i];
        } else {
          assert RowsOf(last)[k] == row;
        }
      }
    }
  }

  /** For consistent records the grand total is also the sum of all category counts. */
  lemma {:induction false} GrandTotalCounts(results: seq<SourceResult>)
    requires forall i :: 0 <= i < |results| ==> Consistent(results[i])
    ensures GrandTotal(results) == SumAllCounts(results)
  {
    if results != [] {
      GrandTotalCounts(results[..|results| - 1]);
      TallyTotal(results[|results| - 1].urls);
    }
  }

  /** The sum, over the sources, of all their category counts. */
  function SumAllCounts(results: seq<SourceResult>): nat {
    if results == [] then 0
    else SumAllCounts(results[..|results| - 1]) + CountsTotal(results[|results| - 1].categoryCounts)
  }

  /** Python's string order: code point by code point, a proper prefix first. */
  predicate StrLess(a: string, b: string) {
    if a == [] then b != []
    else if b == [] then false
    else if a[0] != b[0] then a[0] < b[0]
    else StrLess(a[1..], b[1..])
  }

  lemma {:induction false} StrLessTransitive(a: string, b: string, c: string)
    requires StrLess(a, b) && StrLess(b, c)
    ensures StrLess(a, c)
  {
    if a != [] && b != [] && c != [] && a[0] == b[0] && b[0] == c[0] {
      StrLessTransitive(a[1..], b[1..], c[1..]);
    }
  }

  /** The categories sorted by their names. */
  const AlphabeticalOrder: seq<Category> :=
    [AnchorLink, Archive, Audio, Document, EmailLink, Image, PhoneLink, ScriptStyle, Video, Webpage]

  /** A list of categories whose names strictly increase. */
  predicate SortedByName(cats: seq<Category>) {
    forall i, j :: 0 <= i < j < |cats| ==> StrLess(cats[i].Name(), cats[j].Name())
  }

  /** Two strings that agree up to `k` and differ there are ordered by that character. */
  lemma {:induction false} StrLessAt(a: string, b: string, k: nat)
    requires k < |a| && k < |b| && a[..k] == b[..k] && a[k] < b[k]
    ensures StrLess(a, b)
  {
    if k > 0 {
      assert a[0] == a[..k][0] == b[..k][0] == b[0];
      assert a[1..][..k - 1] == a[..k][1..] && b[1..][..k - 1] == b[..k][1..];
      StrLessAt(a[1..], b[1..], k - 1);
    }
  }

  lemma AlphabeticalOrderSorted()
    ensures SortedByName(AlphabeticalOrder)
  {
    var a := AlphabeticalOrder;
    StrLessAt("Anchor Link", "Archive", 1);
    StrLessAt("Archive", "Audio", 1);
    StrLessAt("Audio", "Document", 0);
    StrLessAt("Document", "Email Link", 0);
    StrLessAt("Email Link", "Image", 0);
    StrLessAt("Image", "Phone Link", 0);
    StrLessAt("Phone Link", "Script/Style", 0);
    StrLessAt("Script/Style", "Video", 0);
    StrLessAt("Video", "Webpage", 0);
    forall i, j | 0 <= i < j < |a|
      ensures StrLess(a[i].Name(), a[j].Name())
    {
      ChainSorted(a, i, j);
    }
  }

  lemma {:induction false} ChainSorted(cats: seq<Category>, i: nat, j: nat)
    requires forall k :: 0 <= k < |cats| - 1 ==> StrLess(cats[k].Name(), cats[k + 1].Name())
    requires i < j < |cats|
    ensures StrLess(cats[i].Name(), cats[j].Name())
    decreases j - i
  {
    if i + 1 < j {
      ChainSorted(cats, i + 1, j);
      StrLessTransitive(cats[i].Name(), cats[i + 1].Name(), cats[j].Name());
    }
  }

  /** `sorted(category_counts.items())`, restricted to the categories `cats`. */
  function BreakdownOver(counts: map<Category, nat>, cats: seq<Category>): (r: seq<(string, nat)>)
    ensures |r| <= |cats|
  {
    if cats == [] then []
    else (if cats[0] in counts then [(cats[0].Name(), counts[cats[0]])] else []) + BreakdownOver(counts, cats[1..])
  }

  /** The per-source breakdown of `print_summary`: `(category, count)` pairs sorted by name. */
  function Breakdown(counts: map<Category, nat>): (r: seq<(string, nat)>)
    ensures forall i, j :: 0 <= i < j < |r| ==> StrLess(r[i].0, r[j].0)
  {
    AlphabeticalOrderSorted();
    BreakdownOverSorted(counts, AlphabeticalOrder);
    BreakdownOver(counts, AlphabeticalOrder)
  }

  lemma {:induction false} BreakdownOverMember(counts: map<Category, nat>, cats: seq<Category>, p: (string, nat))
    ensures p in BreakdownOver(counts, cats) <==> exists c :: c in cats && c in counts && p == (c.Name(), counts[c])
  {
    if cats != [] {
      BreakdownOverMember(counts, cats[1..], p);
      if exists c :: c in cats && c in counts && p == (c.Name(), counts[c]) {
        var c :| c in cats && c in counts && p == (c.Name(), counts[c]);
        if c != cats[0] {
          assert c in cats[1..];
        }
      }
    }
  }

  lemma {:induction false} BreakdownOverSorted(counts: map<Category, nat>, cats: seq<Category>)
    requires SortedByName(cats)
    ensures forall i, j :: 0 <= i < j < |BreakdownOver(counts, cats)| ==>
      StrLess(BreakdownOver(counts, cats)[i].0, BreakdownOver(counts, cats)[j].0)
  {
    if cats != [] {
      var rest := BreakdownOver(counts, cats[1..]);
      assert SortedByName(cats[1..]) by {
        forall i, j | 0 <= i < j < |cats| - 1
          ensures StrLess(cats[1..][i].Name(), cats[1..][j].Name())
        {
          assert cats[1..][i] == cats[i + 1] && cats[1..][j] == cats[j + 1];
        }
      }
      BreakdownOverSorted(counts, cats[1..]);
      forall j | 0 <= j < |rest|
        ensures StrLess(cats[0].Name(), rest[j].0)
      {
        BreakdownOverMember(counts, cats[1..], rest[j]);
        var c :| c in cats[1..] && c in counts && rest[j] == (c.Name(), counts[c]);
        var m :| 0 <= m < |cats[1..]| && cats[1..][m] == c;
        assert cats[m + 1] == c;
      }
    }
  }

  /** The breakdown lists each category with a count, with that count, in name order. */
  lemma BreakdownSpec(counts: map<Category, nat>)
    ensures forall p :: p in Breakdown(counts) <==> exists c :: c in counts && p == (c.Name(), counts[c])
    ensures forall i, j :: 0 <= i < j < |Breakdown(counts)| ==> StrLess(Breakdown(counts)[i].0, Breakdown(counts)[j].0)
  {
    AlphabeticalOrderSorted();
    forall p
      ensures p in Breakdown(counts) <==> exists c :: c in counts && p == (c.Name(), counts[c])
    {
      BreakdownOverMember(counts, AlphabeticalOrder, p);
    }
    BreakdownOverSorted(counts, AlphabeticalOrder);
  }
}
