/**
  `categorize_url`: six file-extension rules, then three substring rules, then the
  `Webpage` fallback; the first rule that applies decides the category.
*/
module Categorizer {
  import opened Text

  datatype Category =
    | Image | Video | Audio | Document | ScriptStyle | Archive
    | AnchorLink | EmailLink | PhoneLink | Webpage
  {
    /** The category string the program reports. */
    function Name(): string {
      match this
      case Image => "Image"
      case Video => "Video"
      case Audio => "Audio"
      case Document => "Document"
      case ScriptStyle => "Script/Style"
      case Archive => "Archive"
      case AnchorLink => "Anchor Link"
      case EmailLink => "Email Link"
      case PhoneLink => "Phone Link"
      case Webpage => "Webpage"
    }

    /** The position of the category's rule in the precedence order (`Webpage` last). */
    function Rank(): nat {
      match this
      case Image => 0
      case Video => 1
      case Audio => 2
      case Document => 3
      case ScriptStyle => 4
      case Archive => 5
      case AnchorLink => 6
      case EmailLink => 7
      case PhoneLink => 8
      case Webpage => 9
    }
  }

  /** The rules in the order `categorize_url` tries them; `Webpage` is the fallback. */
  const Precedence: seq<Category> :=
    [Image, Video, Audio, Document, ScriptStyle, Archive, AnchorLink, EmailLink, PhoneLink]

  const ImageExtensions: seq<string> := ["jpg", "jpeg", "png", "gif", "bmp", "svg", "webp", "ico"]
  const VideoExtensions: seq<string> := ["mp4", "avi", "mov", "wmv", "flv", "webm", "mkv"]
  const AudioExtensions: seq<string> := ["mp3", "wav", "ogg", "flac", "aac", "m4a"]
  const DocumentExtensions: seq<string> := ["pdf", "doc", "docx", "xls", "xlsx", "ppt", "pptx", "txt", "csv"]
  const ScriptExtensions: seq<string> := ["js", "css"]
  const ArchiveExtensions: seq<string> := ["zip", "rar", "tar", "gz", "7z"]

  /** `$` without MULTILINE: the end of the string, or just before a final line feed. */
  predicate AtEnd(u: string, k: nat) {
    k == |u| || (k + 1 == |u| && u[k] == '\n')
  }

  /** `.*$` matches from position `j`: no line feed before the end, or before a final one. */
  predicate LineToEnd(u: string, j: nat) {
    exists r: nat | j <= r <= |u| :: AllIn(u, j, r, NotNewline) && AtEnd(u, r)
  }

  /** `(?:\?.*)?$` matches from position `q`. */
  predicate TailFits(u: string, q: nat) {
    AtEnd(u, q) || (q < |u| && u[q] == '?' && LineToEnd(u, q + 1))
  }

  /** `\.ext` matches (ignoring case) at position `p`. */
  predicate DotExtAt(u: string, p: nat, ext: string) {
    p < |u| && u[p] == '.' && CiAt(u, p + 1, ext)
  }

  /** `re.search(r'\.(e1|e2|...)(?:\?.*)?$', u, re.IGNORECASE)` for the extensions `exts`. */
  predicate ExtensionRule(u: string, exts: seq<string>): (r: bool)
    ensures r ==> '.' in u
  {
    exists p: nat, k: nat | p < |u| && k < |exts| :: DotExtAt(u, p, exts[k]) && TailFits(u, p + 1 + |exts[k]|)
  }

  /** The extension list of each extension rule (empty for the other categories). */
  function ExtensionsOf(c: Category): seq<string> {
    match c
    case Image => ImageExtensions
    case Video => VideoExtensions
    case Audio => AudioExtensions
    case Document => DocumentExtensions
    case ScriptStyle => ScriptExtensions
    case Archive => ArchiveExtensions
    case _ => []
  }

  /** Whether the rule of category `c` applies to `u`; the fallback always does. */
  predicate Applies(c: Category, u: string) {
    match c
    case Image | Video | Audio | Document | ScriptStyle | Archive => ExtensionRule(u, ExtensionsOf(c))
    case AnchorLink => '#' in u
    case EmailLink => CiContains(u, "mailto:")
    case PhoneLink => CiContains(u, "tel:")
    case Webpage => true
  }

  /** `categorize_url`: the category of the first rule, in precedence order, that applies. */
  function Categorize(url: string): (c: Category)
    ensures Applies(c, url)
    ensures forall k :: 0 <= k < c.Rank() ==> !Applies(Precedence[k], url)
  {
    if ExtensionRule(url, ImageExtensions) then Image
    else if ExtensionRule(url, VideoExtensions) then Video
    else if ExtensionRule(url, AudioExtensions) then Audio
    else if ExtensionRule(url, DocumentExtensions) then Document
    else if ExtensionRule(url, ScriptExtensions) then ScriptStyle
    else if ExtensionRule(url, ArchiveExtensions) then Archive
    else if '#' in url then AnchorLink
    else if CiContains(url, "mailto:") then EmailLink
    else if CiContains(url, "tel:") then PhoneLink
    else Webpage
  }

  /** The first applicable rule is unique: any category whose rule applies while no
      rule before it does is the one `Categorize` returns. */
  lemma CategorizeUnique(url: string, c: Category)
    requires Applies(c, url)
    requires forall k :: 0 <= k < c.Rank() ==> !Applies(Precedence[k], url)
    ensures Categorize(url) == c
  {
    var d := Categorize(url);
    FirstRuleBound(url, c, d);
    FirstRuleBound(url, d, c);
  }

  /** A category whose rule applies ranks no lower than one whose predecessors all fail. */
  lemma FirstRuleBound(url: string, c: Category, d: Category)
    requires Applies(c, url)
    requires forall k :: 0 <= k < d.Rank() ==> !Applies(Precedence[k], url)
    ensures d.Rank() <= c.Rank()
  {
    if c != Webpage {
      assert Precedence[c.Rank()] == c;
    }
  }

  /** Category names are distinct, so counting by name and by category agree. */
  lemma NameInjective(c: Category, d: Category)
    requires c.Name() == d.Name()
    ensures c == d
  {
  }

  /** For a string without line feeds the extension rule reads simply: some `.ext`
      is followed by the end of the string or by `?`. */
  lemma ExtensionRuleWithoutNewline(u: string, exts: seq<string>)
    requires '\n' !in u
    ensures ExtensionRule(u, exts) <==>
      exists p: nat, k: nat | p < |u| && k < |exts| ::
        DotExtAt(u, p, exts[k]) && (p + 1 + |exts[k]| == |u| || u[p + 1 + |exts[k]|] == '?')
  {
    forall j: nat | j <= |u|
      ensures LineToEnd(u, j)
    {
      NotNewlineToEnd(u, j);
      assert AtEnd(u, |u|);
    }
  }

  lemma NotNewlineToEnd(u: string, i: nat)
    requires '\n' !in u && i <= |u|
    ensures AllIn(u, i, |u|, NotNewline)
  {
    forall k | i <= k < |u|
      ensures NotNewline.Has(u[k])
    {
      assert u[k] in u;
    }
  }

  /** Without a query string, an extension rule holds only for a name that ends in `.ext`. */
  lemma ExtensionRuleWithoutQuery(u: string, exts: seq<string>)
    requires '\n' !in u && '?' !in u
    ensures ExtensionRule(u, exts) <==>
      exists k: nat | k < |exts| :: |exts[k]| < |u| && DotExtAt(u, |u| - 1 - |exts[k]|, exts[k])
  {
    ExtensionRuleWithoutNewline(u, exts);
    if ExtensionRule(u, exts) {
      var p: nat, k: nat :| p < |u| && k < |exts| && DotExtAt(u, p, exts[k])
        && (p + 1 + |exts[k]| == |u| || u[p + 1 + |exts[k]|] == '?');
      assert p + 1 + |exts[k]| == |u|;
      assert |exts[k]| < |u| && DotExtAt(u, |u| - 1 - |exts[k]|, exts[k]);
    }
  }

  /** Every extension in the six lists has two to four characters. */
  lemma ExtensionLengths(c: Category, k: nat)
    requires c.Rank() < 6
    requires k < |ExtensionsOf(c)|
    ensures 2 <= |ExtensionsOf(c)[k]| <= 4
  {
  }

  /** A name without line feed or `?` whose last five characters hold no `.` matches no
      extension rule: the extension must sit at the very end. */
  lemma NoDotNearEnd(u: string, c: Category)
    requires c.Rank() < 6
    requires '\n' !in u && '?' !in u
    requires forall i | 0 <= i < |u| && |u| - 5 <= i :: u[i] != '.'
    ensures !Applies(c, u)
  {
    var exts := ExtensionsOf(c);
    ExtensionRuleWithoutQuery(u, exts);
    forall k: nat | k < |exts| && |exts[k]| < |u|
      ensures !DotExtAt(u, |u| - 1 - |exts[k]|, exts[k])
    {
      ExtensionLengths(c, k);
    }
  }

  /** Before a query string the same holds: with a single `?` at position `q` and no `.`
      from five characters before it on, no extension rule applies. */
  lemma NoQueryExtension(u: string, c: Category, q: nat)
    requires c.Rank() < 6
    requires '\n' !in u
    requires q < |u| && u[q] == '?'
    requires forall i | 0 <= i < |u| && i != q :: u[i] != '?'
    requires forall i | 0 <= i < |u| && q - 5 <= i :: u[i] != '.'
    ensures !Applies(c, u)
  {
    var exts := ExtensionsOf(c);
    ExtensionRuleWithoutNewline(u, exts);
    if ExtensionRule(u, exts) {
      var p: nat, k: nat :| p < |u| && k < |exts| && DotExtAt(u, p, exts[k])
        && (p + 1 + |exts[k]| == |u| || u[p + 1 + |exts[k]|] == '?');
      ExtensionLengths(c, k);
      assert false;
    }
  }

  /** A fragment after the extension hides it: the `#` rule decides. */
  lemma FragmentAfterImage()
    ensures Categorize("/img/photo.jpg#frag") == AnchorLink
  {
    var u := "/img/photo.jpg#frag";
    forall c: Category | c.Rank() < 6 ensures !Applies(c, u) {
      NoDotNearEnd(u, c);
    }
    assert u[14] == '#';
    CategorizeUnique(u, AnchorLink);
  }

  lemma FragmentAfterDocument()
    ensures Categorize("file.pdf#page=2") == AnchorLink
  {
    var u := "file.pdf#page=2";
    forall c: Category | c.Rank() < 6 ensures !Applies(c, u) {
      NoDotNearEnd(u, c);
    }
    assert u[8] == '#';
    CategorizeUnique(u, AnchorLink);
  }

  /** With no line feed and a single `.`, at position `d`, an extension rule holds iff an
      extension of the list follows that dot and is followed by the end or by `?`. */
  lemma SingleDotExtension(u: string, exts: seq<string>, d: nat)
    requires '\n' !in u
    requires d < |u| && u[d] == '.'
    requires forall i | 0 <= i < |u| && i != d :: u[i] != '.'
    ensures ExtensionRule(u, exts) <==>
      exists k: nat | k < |exts| :: CiAt(u, d + 1, exts[k]) && (d + 1 + |exts[k]| == |u| || u[d + 1 + |exts[k]|] == '?')
  {
    ExtensionRuleWithoutNewline(u, exts);
    if ExtensionRule(u, exts) {
      var p: nat, k: nat :| p < |u| && k < |exts| && DotExtAt(u, p, exts[k])
        && (p + 1 + |exts[k]| == |u| || u[p + 1 + |exts[k]|] == '?');
      assert p == d;
    }
    if exists k: nat | k < |exts| :: CiAt(u, d + 1, exts[k]) && (d + 1 + |exts[k]| == |u| || u[d + 1 + |exts[k]|] == '?') {
      var k: nat :| k < |exts| && CiAt(u, d + 1, exts[k]) && (d + 1 + |exts[k]| == |u| || u[d + 1 + |exts[k]|] == '?');
      assert DotExtAt(u, d, exts[k]);
    }
  }

  /** When the two letters after the only `.` begin none of the extensions, the rule fails. */
  lemma NoExtensionAfterDot(u: string, exts: seq<string>, d: nat)
    requires '\n' !in u
    requires d + 2 < |u| && u[d] == '.'
    requires forall i | 0 <= i < |u| && i != d :: u[i] != '.'
    requires forall k | 0 <= k < |exts| ::
      2 <= |exts[k]| && (exts[k][0] != Lower(u[d + 1]) || exts[k][1] != Lower(u[d + 2]))
    ensures !ExtensionRule(u, exts)
  {
    SingleDotExtension(u, exts, d);
    forall k | 0 <= k < |exts|
      ensures !CiAt(u, d + 1, exts[k])
    {
      var e0, e1, c0, c1 := exts[k][0], exts[k][1], Lower(u[d + 1]), Lower(u[d + 2]);
      assert CiAt(u, d + 1, exts[k]) ==> c0 == e0 && c1 == e1;
    }
  }

  /** The extension is matched ignoring case, and a query string may follow it. */
  lemma DocumentRuleIgnoresCaseAndQuery()
    ensures Applies(Document, "/files/Report.PDF?v=2")
  {
    var u := "/files/Report.PDF?v=2";
    assert DotExtAt(u, 13, DocumentExtensions[0]);
    assert AllIn(u, 18, 21, NotNewline) && AtEnd(u, 21);
    assert TailFits(u, 17);
  }

  /** The URL of the previous lemma has no line feed, and its only `.` is followed by `PD`. */
  lemma QueriedDocumentShape(u: string)
    requires u == "/files/Report.PDF?v=2"
    ensures '\n' !in u && 15 < |u| && u[13] == '.'
    ensures forall i | 0 <= i < |u| && i != 13 :: u[i] != '.'
    ensures Lower(u[14]) == 'p' && Lower(u[15]) == 'd'
  {
  }

  /** The Image, Video and Audio rules fail on that URL. */
  lemma QueriedDocumentNoEarlierRule(u: string)
    requires u == "/files/Report.PDF?v=2"
    ensures !ExtensionRule(u, ImageExtensions)
    ensures !ExtensionRule(u, VideoExtensions)
    ensures !ExtensionRule(u, AudioExtensions)
  {
    QueriedDocumentShape(u);
    NoExtensionAfterDot(u, ImageExtensions, 13);
    NoExtensionAfterDot(u, VideoExtensions, 13);
    NoExtensionAfterDot(u, AudioExtensions, 13);
  }

  /** No rule before the Document rule applies, so the URL is categorised as a Document. */
  lemma QueriedDocumentCategory()
    ensures Categorize("/files/Report.PDF?v=2") == Document
  {
    var u := "/files/Report.PDF?v=2";
    DocumentRuleIgnoresCaseAndQuery();
    QueriedDocumentNoEarlierRule(u);
    assert Precedence[0] == Image && Precedence[1] == Video && Precedence[2] == Audio;
    CategorizeUnique(u, Document);
  }
}
