/**
  `extract_urls`: three scanning passes (complete URLs, protocol-relative URLs,
  absolute paths) appended in that order, the absolute-path pass dropping values
  that already look like full URLs, then removal of repeated URLs keeping the
  first occurrence.
*/
module Extractor {
  import opened Text
  import opened Patterns
  import opened Categorizer

  /** One `(URL, URL Type, Category)` tuple of the result. */
  datatype Entry = Entry(url: string, urlType: UrlType, category: Category)

  /** The prefixes `url.startswith(...)` tests, case-sensitively, in the third pass. */
  const FullUrlPrefixes: seq<string> := ["http://", "https://", "ftp://", "//"]

  predicate AlreadyFullUrl(u: string) {
    exists k | 0 <= k < |FullUrlPrefixes| :: StartsWith(u, FullUrlPrefixes[k])
  }

  /** The tuples a pass produces from the values its pattern captured. */
  function Tag(values: seq<string>, t: UrlType): seq<Entry> {
    seq(|values|, i requires 0 <= i < |values| => Entry(values[i], t, Categorize(values[i])))
  }

  /** The values of the third pass that are kept: those not already full URLs. */
  function KeepPaths(values: seq<string>): (r: seq<string>)
    ensures forall v :: v in r <==> v in values && !AlreadyFullUrl(v)
  {
    if values == [] then []
    else
      var rest := KeepPaths(values[..|values| - 1]);
      var v := values[|values| - 1];
      assert values == values[..|values| - 1] + [v];
      if AlreadyFullUrl(v) then rest else rest + [v]
  }

  /** `extracted_urls` before duplicates are removed. */
  function Candidates(content: string): (r: seq<Entry>)
    ensures forall e :: e in r ==> e.category == Categorize(e.url)
  {
    Tag(FindIter(content, CompleteUrl), CompleteUrl)
      + Tag(FindIter(content, ProtocolRelative), ProtocolRelative)
      + Tag(KeepPaths(FindIter(content, AbsolutePath)), AbsolutePath)
  }

  /** The URL strings of a list of tuples (the `seen` set once all are seen). */
  function Urls(xs: seq<Entry>): set<string> {
    set e | e in xs :: e.url
  }

  /** Keeps each tuple whose URL no earlier tuple had. */
  function Dedup(xs: seq<Entry>): (r: seq<Entry>)
    ensures |r| <= |xs|
    ensures forall e :: e in r ==> e in xs
  {
    if xs == [] then []
    else
      var prefix := Dedup(xs[..|xs| - 1]);
      var x := xs[|xs| - 1];
      if x.url in Urls(prefix) then prefix else prefix + [x]
  }

  /** The result of `extract_urls`. */
  function Extract(content: string): (r: seq<Entry>)
    ensures |r| <= |Candidates(content)|
    ensures forall e :: e in r ==> e.category == Categorize(e.url)
  {
    Dedup(Candidates(content))
  }

  /** The position of the first tuple with URL `u`. */
  function FirstIndex(xs: seq<Entry>, u: string): (i: nat)
    requires u in Urls(xs)
    ensures i < |xs| && xs[i].url == u
    ensures forall j :: 0 <= j < i ==> xs[j].url != u
  {
    if xs[0].url == u then 0
    else
      var e :| e in xs && e.url == u;
      assert e in xs[1..];
      1 + FirstIndex(xs[1..], u)
  }

  // ---------------------------------------------------------------------------
  // The method.

  /** `extract_urls`, with its three passes and its `seen`-set loop. */
  method ExtractUrls(htmlContent: string) returns (uniqueUrls: seq<Entry>)
    ensures uniqueUrls == Extract(htmlContent)
  {
    var extracted: seq<Entry> := [];
    var complete := FindIter(htmlContent, CompleteUrl);
    var relative := FindIter(htmlContent, ProtocolRelative);
    var paths := FindIter(htmlContent, AbsolutePath);
    extracted := AppendPass(extracted, complete, CompleteUrl);
    assert extracted == Tag(complete, CompleteUrl);
    extracted := AppendPass(extracted, relative, ProtocolRelative);
    extracted := AppendPaths(extracted, paths);
    assert extracted == Candidates(htmlContent);
    uniqueUrls := RemoveDuplicates(extracted);
  }

  /** One of the first two `finditer` loops: every captured value is appended with
      the pass's type and its category. */
  method AppendPass(extracted: seq<Entry>, values: seq<string>, t: UrlType) returns (r: seq<Entry>)
    ensures r == extracted + Tag(values, t)
  {
    r := extracted;
    var i := 0;
    while i < |values|
      invariant 0 <= i <= |values|
      invariant r == extracted + Tag(values[..i], t)
    {
      var url := values[i];
      r := r + [Entry(url, t, Categorize(url))];
      i := i + 1;
    }
    assert values[..i] == values;
  }

  /** The third `finditer` loop: values already looking like full URLs are skipped. */
  method AppendPaths(extracted: seq<Entry>, values: seq<string>) returns (r: seq<Entry>)
    ensures r == extracted + Tag(KeepPaths(values), AbsolutePath)
  {
    r := extracted;
    var i := 0;
    while i < |values|
      invariant 0 <= i <= |values|
      invariant r == extracted + Tag(KeepPaths(values[..i]), AbsolutePath)
    {
      var url := values[i];
      assert values[..i + 1][..i] == values[..i];
      if !AlreadyFullUrl(url) {
        r := r + [Entry(url, AbsolutePath, Categorize(url))];
      }
      i := i + 1;
    }
    assert values[..i] == values;
  }

  /** The `seen`-set loop: a tuple is kept when its URL has not been seen yet. */
  method RemoveDuplicates(extracted: seq<Entry>) returns (uniqueUrls: seq<Entry>)
    ensures uniqueUrls == Dedup(extracted)
  {
    var seen: set<string> := {};
    uniqueUrls := [];
    var j := 0;
    while j < |extracted|
      invariant 0 <= j <= |extracted|
      invariant uniqueUrls == Dedup(extracted[..j])
      invariant seen == Urls(uniqueUrls)
    {
      var entry := extracted[j];
      assert extracted[..j + 1][..j] == extracted[..j];
      if entry.url !in seen {
        UrlsAppend(uniqueUrls, entry);
        seen := seen + {entry.url};
        uniqueUrls := uniqueUrls + [entry];
      }
      j := j + 1;
    }
    assert extracted[..j] == extracted;
  }

  // ---------------------------------------------------------------------------
  // Properties of the deduplication.

  lemma UrlsAppend(xs: seq<Entry>, x: Entry)
    ensures Urls(xs + [x]) == Urls(xs) + {x.url}
  {
    forall u | u in Urls(xs)
      ensures u in Urls(xs + [x])
    {
      var e :| e in xs && e.url == u;
      assert e in xs + [x];
    }
    assert x in xs + [x];
  }

  /** The deduplicated list has exactly the URLs of the input. */
  lemma {:induction false} DedupUrls(xs: seq<Entry>)
    ensures Urls(Dedup(xs)) == Urls(xs)
  {
    if xs != [] {
      var p := xs[..|xs| - 1];
      var x := xs[|xs| - 1];
      assert xs == p + [x];
      DedupUrls(p);
      UrlsAppend(p, x);
      UrlsAppend(Dedup(p), x);
    }
  }

  /** No two tuples of the deduplicated list share a URL. */
  lemma {:induction false} DedupDistinct(xs: seq<Entry>)
    ensures forall i, j :: 0 <= i < j < |Dedup(xs)| ==> Dedup(xs)[i].url != Dedup(xs)[j].url
  {
    if xs != [] {
      var p := xs[..|xs| - 1];
      var x := xs[|xs| - 1];
      DedupDistinct(p);
      var r := Dedup(p);
      if x.url !in Urls(r) {
        forall i | 0 <= i < |r|
          ensures r[i].url != x.url
        {
          assert r[i] in r;
        }
      }
    }
  }

  /** A first occurrence in a prefix stays the first occurrence. */
  lemma FirstIndexAppend(xs: seq<Entry>, x: Entry, u: string)
    requires u in Urls(xs)
    ensures u in Urls(xs + [x]) && FirstIndex(xs + [x], u) == FirstIndex(xs, u)
  {
    UrlsAppend(xs, x);
    FirstIndexIs(xs + [x], u, FirstIndex(xs, u));
  }

  /** `FirstIndex` is the one position holding `u` with none before it. */
  lemma FirstIndexIs(xs: seq<Entry>, u: string, i: nat)
    requires i < |xs| && xs[i].url == u
    requires forall j :: 0 <= j < i ==> xs[j].url != u
    ensures u in Urls(xs) && FirstIndex(xs, u) == i
  {
    assert xs[i] in xs;
  }

  /** Each kept tuple is the first tuple of the input with its URL, and the kept
      tuples appear in the order of those first occurrences. */
  lemma {:induction false} DedupFirstSeen(xs: seq<Entry>)
    ensures forall k :: 0 <= k < |Dedup(xs)| ==>
      Dedup(xs)[k].url in Urls(xs) && Dedup(xs)[k] == xs[FirstIndex(xs, Dedup(xs)[k].url)]
    ensures forall k1, k2 :: 0 <= k1 < k2 < |Dedup(xs)| ==>
      Dedup(xs)[k1].url in Urls(xs) && Dedup(xs)[k2].url in Urls(xs) &&
      FirstIndex(xs, Dedup(xs)[k1].url) < FirstIndex(xs, Dedup(xs)[k2].url)
  {
    if xs != [] {
      var p := xs[..|xs| - 1];
      var x := xs[|xs| - 1];
      assert xs == p + [x];
      DedupFirstSeen(p);
      DedupUrls(p);
      var r := Dedup(p);
      forall k | 0 <= k < |r|
        ensures r[k].url in Urls(xs) && FirstIndex(xs, r[k].url) == FirstIndex(p, r[k].url)
      {
        FirstIndexAppend(p, x, r[k].url);
      }
      if x.url !in Urls(r) {
        FirstIndexIs(xs, x.url, |p|);
      }
    }
  }

  // ---------------------------------------------------------------------------
  // Properties of the extraction.

  /** A tuple of a pass carries the pass's type, one of its values and that value's category. */
  lemma TagMember(values: seq<string>, t: UrlType, e: Entry)
    ensures e in Tag(values, t) <==> e.urlType == t && e.url in values && e.category == Categorize(e.url)
  {
    if e.urlType == t && e.url in values && e.category == Categorize(e.url) {
      var i :| 0 <= i < |values| && values[i] == e.url;
      assert Tag(values, t)[i] == e;
    }
  }

  /** What a candidate tuple is: a value its pass's pattern captured, kept by the
      third pass's filter, with the category `categorize_url` gives it. */
  predicate FromPass(content: string, e: Entry) {
    && e.url in FindIter(content, e.urlType)
    && (e.urlType == AbsolutePath ==> !AlreadyFullUrl(e.url))
    && e.category == Categorize(e.url)
  }

  lemma CandidateMember(content: string, e: Entry)
    ensures e in Candidates(content) <==> FromPass(content, e)
  {
    TagMember(FindIter(content, CompleteUrl), CompleteUrl, e);
    TagMember(FindIter(content, ProtocolRelative), ProtocolRelative, e);
    TagMember(KeepPaths(FindIter(content, AbsolutePath)), AbsolutePath, e);
  }

  /** A value that is not a full URL does not start with two slashes. */
  lemma NotFullUrl(v: string)
    requires 2 <= |v| && !AlreadyFullUrl(v)
    ensures !(v[0] == '/' && v[1] == '/')
  {
    assert FullUrlPrefixes[3] == "//";
    assert !StartsWith(v, "//");
    assert v[..2] == [v[0], v[1]];
  }

  /** A value well formed for two patterns (and not a full URL when one of them is the
      absolute-path pattern) determines the pattern: the three passes never capture the
      same URL. */
  lemma ValueDeterminesType(v: string, t1: UrlType, t2: UrlType)
    requires WellFormedValue(v, t1) && WellFormedValue(v, t2)
    requires t1 == AbsolutePath ==> !AlreadyFullUrl(v)
    requires t2 == AbsolutePath ==> !AlreadyFullUrl(v)
    ensures t1 == t2
  {
    WellFormedStart(v, t1);
    WellFormedStart(v, t2);
    if t1 == AbsolutePath || t2 == AbsolutePath {
      NotFullUrl(v);
    }
  }

  /** Every tuple of the result comes from a pass; its URL is well formed for its type,
      so it starts with `http://`, `https://` or `ftp://` (any case), `//` or `/`, and
      its type is the first pass that captured it. */
  lemma ExtractSound(content: string)
    ensures forall e :: e in Extract(content) ==> FromPass(content, e) && WellFormedValue(e.url, e.urlType)
  {
    forall e | e in Extract(content)
      ensures FromPass(content, e) && WellFormedValue(e.url, e.urlType)
    {
      ExtractedEntry(content, e);
    }
  }

  /** `ExtractSound` for one tuple. */
  lemma ExtractedEntry(content: string, e: Entry)
    requires e in Extract(content)
    ensures FromPass(content, e) && WellFormedValue(e.url, e.urlType)
  {
    var xs := Candidates(content);
    DedupFirstSeen(xs);
    var k :| 0 <= k < |Dedup(xs)| && Dedup(xs)[k] == e;
    assert e in xs;
    CandidateMember(content, e);
    FindIterWellFormed(content, e.urlType);
  }

  /** Every value captured by a pass, and kept by its filter, is in the result with
      that pass's type and its category. */
  lemma ExtractComplete(content: string, t: UrlType, v: string)
    requires v in FindIter(content, t)
    requires t == AbsolutePath ==> !AlreadyFullUrl(v)
    ensures Entry(v, t, Categorize(v)) in Extract(content)
  {
    var xs := Candidates(content);
    var e0 := Entry(v, t, Categorize(v));
    CandidateMember(content, e0);
    assert e0 in xs;
    DedupUrls(xs);
    assert v in Urls(Dedup(xs));
    var e :| e in Extract(content) && e.url == v;
    ExtractedEntry(content, e);
    FindIterWellFormed(content, t);
    ValueDeterminesType(v, t, e.urlType);
  }

  /** The URLs of the result are pairwise distinct. */
  lemma ExtractDistinct(content: string)
    ensures forall i, j :: 0 <= i < j < |Extract(content)| ==> Extract(content)[i].url != Extract(content)[j].url
  {
    DedupDistinct(Candidates(content));
  }

  /** An absolute path has a single leading slash: the filter drops `//` values, and a
      value starting with `/` can never start with a scheme. */
  lemma AbsolutePathSingleSlash(content: string)
    ensures forall e :: e in Extract(content) && e.urlType == AbsolutePath ==>
      2 <= |e.url| && e.url[0] == '/' && e.url[1] != '/'
  {
    forall e | e in Extract(content) && e.urlType == AbsolutePath
      ensures 2 <= |e.url| && e.url[0] == '/' && e.url[1] != '/'
    {
      ExtractedEntry(content, e);
      WellFormedStart(e.url, e.urlType);
      NotFullUrl(e.url);
    }
  }

  /** `mailto:`, `tel:` and `#` links are never extracted: every URL starts with a
      scheme letter `h`/`f` (any case) or with `/`. */
  lemma NoMailtoTelOrFragment(content: string)
    ensures forall e :: e in Extract(content) ==>
      && !CiAt(e.url, 0, "mailto:") && !CiAt(e.url, 0, "tel:") && |e.url| > 0 && e.url[0] != '#'
  {
    forall e | e in Extract(content)
      ensures !CiAt(e.url, 0, "mailto:") && !CiAt(e.url, 0, "tel:") && |e.url| > 0 && e.url[0] != '#'
    {
      ExtractedEntry(content, e);
      WellFormedStart(e.url, e.urlType);
      FirstLetterExcludes(e.url, "mailto:");
      FirstLetterExcludes(e.url, "tel:");
    }
  }

  lemma FirstLetterExcludes(v: string, lit: string)
    requires 0 < |v| && 0 < |lit| && Lower(v[0]) != lit[0]
    ensures !CiAt(v, 0, lit)
  {
  }

  /** Empty content yields no tuples. */
  lemma ExtractEmptyContent()
    ensures Extract("") == []
  {
    FindIterEmptyContent(CompleteUrl);
    FindIterEmptyContent(ProtocolRelative);
    FindIterEmptyContent(AbsolutePath);
    assert Candidates("") == [];
  }
}
