/**
  The three attribute patterns of `URLExtractor` and `finditer`-style scanning.

  Each pattern is `(?:href|src)\s*=\s*['"]\s*(PREFIX[^'"\s>]+)['"]` with
  IGNORECASE, where PREFIX is `(?:https?|ftp)://`, `//` or `/`. `IsMatch` is the
  declarative reading of the pattern (some way of splitting the text fits it);
  `MatchAt` is the deterministic left-to-right matcher; `MatchAtCorrect` shows that
  the two agree, so backtracking can never produce a second match at one position.
*/
module Patterns {
  import opened Wrappers
  import opened Text

  /** The pattern used, named after the label of the URLs it produces. */
  datatype UrlType = CompleteUrl | ProtocolRelative | AbsolutePath {
    function Label(): string {
      match this
      case CompleteUrl => "Complete URL"
      case ProtocolRelative => "Protocol-Relative"
      case AbsolutePath => "Absolute Path"
    }
  }

  const AttributeNames: seq<string> := ["href", "src"]

  /** The alternatives the captured value must start with. */
  function Prefixes(t: UrlType): seq<string> {
    match t
    case CompleteUrl => ["https://", "http://", "ftp://"]
    case ProtocolRelative => ["//"]
    case AbsolutePath => ["/"]
  }

  // ---------------------------------------------------------------------------
  // The pattern, read declaratively.

  /** One of the literals `lits` occurs at `j` (ignoring ASCII case) and ends at `p`. */
  ghost predicate LiteralFits(s: string, j: nat, lits: seq<string>, p: nat) {
    exists k :: 0 <= k < |lits| && CiAt(s, j, lits[k]) && p == j + |lits[k]|
  }

  /** `\s*=\s*['"]\s*` fits the text from `a` to `start`. */
  ghost predicate AssignFits(s: string, a: nat, start: nat) {
    exists eq: nat, open: nat ::
      && AllIn(s, a, eq, Whitespace) && eq < |s| && s[eq] == '='
      && AllIn(s, eq + 1, open, Whitespace) && open < |s| && IsQuote(s[open])
      && AllIn(s, open + 1, start, Whitespace)
  }

  /** `PREFIX[^'"\s>]+['"]` fits the text from `start`, with the closing quote at `close`. */
  ghost predicate ValueFits(s: string, t: UrlType, start: nat, close: nat) {
    exists p: nat ::
      && LiteralFits(s, start, Prefixes(t), p) && p < close
      && AllIn(s, p, close, ValueChar) && close < |s| && IsQuote(s[close])
  }

  /** The pattern of `t` can match `s[i..e]` capturing `v` in its group: the attribute
      name, `=` between optional spaces, a quote, optional spaces, the value, and a
      quote of either kind, independently of the first. */
  ghost predicate IsMatch(s: string, t: UrlType, i: nat, e: nat, v: string) {
    exists a: nat, start: nat, close: nat ::
      && LiteralFits(s, i, AttributeNames, a) && AssignFits(s, a, start) && ValueFits(s, t, start, close)
      && start <= close && e == close + 1 && v == s[start..close]
  }

  /** A captured value of pattern `t`: one of its prefixes, at least one more character,
      and nothing from `'`, `"`, whitespace or `>`. */
  ghost predicate WellFormedValue(v: string, t: UrlType) {
    && (exists k :: 0 <= k < |Prefixes(t)| && CiAt(v, 0, Prefixes(t)[k]) && |Prefixes(t)[k]| < |v|)
    && AllIn(v, 0, |v|, ValueChar)
  }

  // ---------------------------------------------------------------------------
  // The deterministic matcher.

  /** The end of the first literal of `lits` found at `j`, trying them in order as a
      regular-expression alternation does. */
  function LiteralEnd(s: string, j: nat, lits: seq<string>): (r: Option<nat>)
    ensures r.Some? ==> j <= r.value <= |s|
  {
    if lits == [] then None
    else if CiAt(s, j, lits[0]) then Some(j + |lits[0]|)
    else LiteralEnd(s, j, lits[1..])
  }

  /** Where the value starts after `\s*=\s*['"]\s*` from `a`, if that fits. */
  function AssignEnd(s: string, a: nat): (r: Option<nat>)
    requires a <= |s|
    ensures r.Some? ==> a < r.value <= |s|
  {
    var eq := SkipWhile(s, a, Whitespace);
    if eq < |s| && s[eq] == '=' then
      var open := SkipWhile(s, eq + 1, Whitespace);
      if open < |s| && IsQuote(s[open]) then Some(SkipWhile(s, open + 1, Whitespace))
      else None
    else None
  }

  /** Where the closing quote of a value starting at `start` stands, if the value fits. */
  function ValueEnd(s: string, t: UrlType, start: nat): (r: Option<nat>)
    ensures r.Some? ==> start < r.value < |s|
  {
    match LiteralEnd(s, start, Prefixes(t))
    case None => None
    case Some(p) =>
      var close := SkipWhile(s, p, ValueChar);
      if p < close && close < |s| && IsQuote(s[close]) then Some(close) else None
  }

  datatype Match = Match(end: nat, value: string)

  /** The match of pattern `t` that starts at position `i`, if there is one. */
  function MatchAt(s: string, t: UrlType, i: nat): (r: Option<Match>)
    ensures r.Some? ==> i < r.value.end <= |s|
  {
    if i > |s| then None
    else match LiteralEnd(s, i, AttributeNames)
      case None => None
      case Some(a) =>
        match AssignEnd(s, a)
        case None => None
        case Some(start) =>
          match ValueEnd(s, t, start)
          case None => None
          case Some(close) => Some(Match(close + 1, s[start..close]))
  }

  /** The outcome of trying the pattern at every position `0..|s|`. */
  function Attempts(s: string, t: UrlType): seq<Option<Match>> {
    seq(|s| + 1, j requires 0 <= j <= |s| => MatchAt(s, t, j))
  }

  /** Every successful attempt ends after its position and within the text. */
  predicate Advancing(attempts: seq<Option<Match>>) {
    forall j :: 0 <= j < |attempts| && attempts[j].Some? ==> j < attempts[j].value.end < |attempts|
  }

  lemma AttemptsAdvancing(s: string, t: UrlType)
    ensures Advancing(Attempts(s, t))
  {
  }

  /** The captured values of `re.finditer` from position `pos` on: take the attempt at
      `pos`; on success record its group and go on at its end, otherwise go on at `pos + 1`. */
  function Scan(attempts: seq<Option<Match>>, pos: nat): (r: seq<string>)
    requires Advancing(attempts)
    ensures pos <= |attempts| ==> |r| <= |attempts| - pos
    decreases |attempts| - pos
  {
    if pos >= |attempts| then []
    else match attempts[pos]
      case Some(m) => [m.value] + Scan(attempts, m.end)
      case None => Scan(attempts, pos + 1)
  }

  /** `[m.group(1) for m in pattern.finditer(s)]`. */
  function FindIter(s: string, t: UrlType): (r: seq<string>)
    ensures |r| <= |s| + 1
  {
    AttemptsAdvancing(s, t);
    Scan(Attempts(s, t), 0)
  }

  // ---------------------------------------------------------------------------
  // Each piece of the matcher agrees with its piece of the pattern.

  /** `LiteralEnd` reports the end of a literal of the list that is there, and
      reports none only when no literal of the list is there. */
  lemma {:induction false} LiteralEndSound(s: string, j: nat, lits: seq<string>)
    ensures LiteralEnd(s, j, lits).Some? ==> LiteralFits(s, j, lits, LiteralEnd(s, j, lits).value)
    ensures LiteralEnd(s, j, lits).None? ==> forall k :: 0 <= k < |lits| ==> !CiAt(s, j, lits[k])
  {
    if lits != [] && !CiAt(s, j, lits[0]) {
      LiteralEndSound(s, j, lits[1..]);
      if LiteralEnd(s, j, lits).Some? {
        var k :| 0 <= k < |lits[1..]| && CiAt(s, j, lits[1..][k]) && LiteralEnd(s, j, lits).value == j + |lits[1..][k]|;
        assert lits[1..][k] == lits[k + 1];
      } else {
        forall k | 0 <= k < |lits| ensures !CiAt(s, j, lits[k]) {
          if k > 0 { assert lits[k] == lits[1..][k - 1]; }
        }
      }
    } else if lits != [] {
      assert CiAt(s, j, lits[0]);
    }
  }

  /** The alternatives of each alternation exclude each other: at most one literal
      of the list can match at a position, so the first one that matches is the
      only one. */
  lemma LiteralFitsUnique(s: string, j: nat, t: UrlType, lits: seq<string>, p1: nat, p2: nat)
    requires lits == AttributeNames || lits == Prefixes(t)
    requires LiteralFits(s, j, lits, p1) && LiteralFits(s, j, lits, p2)
    ensures p1 == p2
  {
    var k1 :| 0 <= k1 < |lits| && CiAt(s, j, lits[k1]) && p1 == j + |lits[k1]|;
    var k2 :| 0 <= k2 < |lits| && CiAt(s, j, lits[k2]) && p2 == j + |lits[k2]|;
    assert Lower(s[j]) == lits[k1][0] && Lower(s[j]) == lits[k2][0];
    if lits == Prefixes(t) && t == CompleteUrl && lits[k1][0] == 'h' && lits[k2][0] == 'h' {
      // "https://" and "http://" differ at index 4
      assert Lower(s[j + 4]) == lits[k1][4] && Lower(s[j + 4]) == lits[k2][4];
    }
  }

  lemma LiteralEndComplete(s: string, j: nat, t: UrlType, lits: seq<string>, p: nat)
    requires lits == AttributeNames || lits == Prefixes(t)
    requires LiteralFits(s, j, lits, p)
    ensures LiteralEnd(s, j, lits) == Some(p)
  {
    LiteralEndSound(s, j, lits);
    var r := LiteralEnd(s, j, lits);
    LiteralFitsUnique(s, j, t, lits, p, r.value);
  }

  /** `AssignEnd` in terms of the three whitespace runs it skips. */
  lemma AssignEndUnfold(s: string, a: nat, eq: nat, open: nat, start: nat)
    requires a <= |s|
    requires SkipWhile(s, a, Whitespace) == eq && eq < |s| && s[eq] == '='
    requires SkipWhile(s, eq + 1, Whitespace) == open && open < |s| && IsQuote(s[open])
    requires SkipWhile(s, open + 1, Whitespace) == start
    ensures AssignEnd(s, a) == Some(start)
  {
  }

  lemma AssignEndSound(s: string, a: nat)
    requires a <= |s| && AssignEnd(s, a).Some?
    ensures AssignFits(s, a, AssignEnd(s, a).value)
    ensures AssignEnd(s, a).value == |s| || !IsSpace(s[AssignEnd(s, a).value])
  {
    var eq := SkipWhile(s, a, Whitespace);
    assert eq < |s| && s[eq] == '=';
    var open := SkipWhile(s, eq + 1, Whitespace);
    assert open < |s| && IsQuote(s[open]);
    var start := SkipWhile(s, open + 1, Whitespace);
    assert AssignEnd(s, a) == Some(start);
    SkipWhileSpec(s, a, Whitespace);
    SkipWhileSpec(s, eq + 1, Whitespace);
    SkipWhileSpec(s, open + 1, Whitespace);
    AssignEndUnfold(s, a, eq, open, start);
    assert AllIn(s, a, eq, Whitespace) && AllIn(s, eq + 1, open, Whitespace) && AllIn(s, open + 1, start, Whitespace);
  }

  /** A syntax character ends a whitespace run. */
  lemma SkipToSyntax(s: string, i: nat, j: nat)
    requires i <= |s| && AllIn(s, i, j, Whitespace)
    requires j < |s| && (s[j] == '=' || IsQuote(s[j]))
    ensures SkipWhile(s, i, Whitespace) == j
  {
    SkipWhileUnique(s, i, j, Whitespace);
  }

  lemma AssignEndComplete(s: string, a: nat, start: nat)
    requires a <= |s|
    requires AssignFits(s, a, start) && start < |s| && !IsSpace(s[start])
    ensures AssignEnd(s, a) == Some(start)
  {
    var eq: nat, open: nat :|
      && AllIn(s, a, eq, Whitespace) && eq < |s| && s[eq] == '='
      && AllIn(s, eq + 1, open, Whitespace) && open < |s| && IsQuote(s[open])
      && AllIn(s, open + 1, start, Whitespace);
    SkipToSyntax(s, a, eq);
    SkipToSyntax(s, eq + 1, open);
    SkipWhileUnique(s, open + 1, start, Whitespace);
    AssignEndUnfold(s, a, eq, open, start);
  }

  /** `ValueEnd` in terms of the prefix it finds and the run of value characters after it. */
  lemma ValueEndUnfold(s: string, t: UrlType, start: nat, p: nat, close: nat)
    requires LiteralEnd(s, start, Prefixes(t)) == Some(p)
    requires SkipWhile(s, p, ValueChar) == close && p < close < |s| && IsQuote(s[close])
    ensures ValueEnd(s, t, start) == Some(close)
  {
  }

  lemma ValueEndSound(s: string, t: UrlType, start: nat)
    requires ValueEnd(s, t, start).Some?
    ensures ValueFits(s, t, start, ValueEnd(s, t, start).value)
  {
    var p := LiteralEnd(s, start, Prefixes(t)).value;
    var close := SkipWhile(s, p, ValueChar);
    LiteralEndSound(s, start, Prefixes(t));
    SkipWhileSpec(s, p, ValueChar);
    ValueEndUnfold(s, t, start, p, close);
    assert LiteralFits(s, start, Prefixes(t), p) && AllIn(s, p, close, ValueChar);
  }

  lemma ValueEndComplete(s: string, t: UrlType, start: nat, close: nat)
    requires ValueFits(s, t, start, close)
    ensures ValueEnd(s, t, start) == Some(close)
  {
    var p: nat :|
      && LiteralFits(s, start, Prefixes(t), p) && p < close
      && AllIn(s, p, close, ValueChar) && close < |s| && IsQuote(s[close]);
    LiteralEndComplete(s, start, t, Prefixes(t), p);
    SkipWhileUnique(s, p, close, ValueChar);
    ValueEndUnfold(s, t, start, p, close);
  }

  /** No prefix starts with a character that `\s*` could swallow. */
  lemma ValueStartNotSpace(s: string, t: UrlType, start: nat, close: nat)
    requires ValueFits(s, t, start, close)
    ensures start < |s| && !IsSpace(s[start])
  {
    var p: nat :| LiteralFits(s, start, Prefixes(t), p) && p < close;
    var k :| 0 <= k < |Prefixes(t)| && CiAt(s, start, Prefixes(t)[k]) && p == start + |Prefixes(t)[k]|;
    assert Lower(s[start]) == Prefixes(t)[k][0];
  }

  /** `MatchAt` in terms of its three pieces. */
  lemma MatchAtUnfold(s: string, t: UrlType, i: nat, a: nat, start: nat, close: nat)
    requires i <= |s| && LiteralEnd(s, i, AttributeNames) == Some(a) && a <= |s|
    requires AssignEnd(s, a) == Some(start) && ValueEnd(s, t, start) == Some(close)
    ensures MatchAt(s, t, i) == Some(Match(close + 1, s[start..close]))
  {
  }

  lemma MatchAtSound(s: string, t: UrlType, i: nat)
    requires MatchAt(s, t, i).Some?
    ensures IsMatch(s, t, i, MatchAt(s, t, i).value.end, MatchAt(s, t, i).value.value)
  {
    var a := LiteralEnd(s, i, AttributeNames).value;
    LiteralEndSound(s, i, AttributeNames);
    var k :| 0 <= k < |AttributeNames| && CiAt(s, i, AttributeNames[k]) && a == i + |AttributeNames[k]|;
    var start := AssignEnd(s, a).value;
    var close := ValueEnd(s, t, start).value;
    AssignEndSound(s, a);
    ValueEndSound(s, t, start);
    MatchAtUnfold(s, t, i, a, start, close);
    assert LiteralFits(s, i, AttributeNames, a) && AssignFits(s, a, start) && ValueFits(s, t, start, close);
  }

  lemma MatchAtComplete(s: string, t: UrlType, i: nat, e: nat, v: string)
    requires IsMatch(s, t, i, e, v)
    ensures MatchAt(s, t, i) == Some(Match(e, v))
  {
    var a: nat, start: nat, close: nat :|
      && LiteralFits(s, i, AttributeNames, a) && AssignFits(s, a, start) && ValueFits(s, t, start, close)
      && start <= close && e == close + 1 && v == s[start..close];
    LiteralEndComplete(s, i, t, AttributeNames, a);
    var k :| 0 <= k < |AttributeNames| && CiAt(s, i, AttributeNames[k]) && a == i + |AttributeNames[k]|;
    ValueStartNotSpace(s, t, start, close);
    AssignEndComplete(s, a, start);
    ValueEndComplete(s, t, start, close);
    MatchAtUnfold(s, t, i, a, start, close);
    assert Match(e, v) == Match(close + 1, s[start..close]);
  }

  /** The deterministic matcher finds a match at `i`, with end `e` and group `v`,
      exactly when the pattern can match there that way: whatever way of
      backtracking the regular-expression engine takes, it finds this match or none. */
  lemma MatchAtCorrect(s: string, t: UrlType, i: nat, e: nat, v: string)
    ensures MatchAt(s, t, i) == Some(Match(e, v)) <==> IsMatch(s, t, i, e, v)
  {
    if MatchAt(s, t, i) == Some(Match(e, v)) {
      MatchAtSound(s, t, i);
    }
    if IsMatch(s, t, i, e, v) {
      MatchAtComplete(s, t, i, e, v);
    }
  }

  /** Prefix characters are value characters, whatever their case. */
  lemma PrefixCharsAreValueChars(s: string, j: nat, t: UrlType, k: nat)
    requires k < |Prefixes(t)| && CiAt(s, j, Prefixes(t)[k])
    ensures AllIn(s, j, j + |Prefixes(t)[k]|, ValueChar)
  {
    var lit := Prefixes(t)[k];
    forall m | j <= m < j + |lit|
      ensures ValueChar.Has(s[m])
    {
      assert Lower(s[m]) == lit[m - j];
    }
  }

  /** A run of value characters from `start` to `close` is a value of its own. */
  lemma SliceWellFormed(s: string, t: UrlType, start: nat, k: nat, close: nat)
    requires k < |Prefixes(t)| && CiAt(s, start, Prefixes(t)[k])
    requires start + |Prefixes(t)[k]| < close && AllIn(s, start, close, ValueChar)
    ensures WellFormedValue(s[start..close], t)
  {
    var v := s[start..close];
    var lit := Prefixes(t)[k];
    forall m | 0 <= m < |lit| ensures Lower(v[m]) == lit[m] {
      assert v[m] == s[start + m];
    }
    assert CiAt(v, 0, lit);
    forall m | 0 <= m < |v| ensures ValueChar.Has(v[m]) {
      assert v[m] == s[start + m];
    }
  }

  /** Every group a match captures is a well-formed value of its pattern. */
  lemma MatchValueWellFormed(s: string, t: UrlType, i: nat, e: nat, v: string)
    requires IsMatch(s, t, i, e, v)
    ensures WellFormedValue(v, t)
  {
    var a: nat, start: nat, close: nat :|
      && LiteralFits(s, i, AttributeNames, a) && AssignFits(s, a, start) && ValueFits(s, t, start, close)
      && start <= close && e == close + 1 && v == s[start..close];
    var p: nat :|
      && LiteralFits(s, start, Prefixes(t), p) && p < close
      && AllIn(s, p, close, ValueChar) && close < |s| && IsQuote(s[close]);
    var k :| 0 <= k < |Prefixes(t)| && CiAt(s, start, Prefixes(t)[k]) && p == start + |Prefixes(t)[k]|;
    PrefixCharsAreValueChars(s, start, t, k);
    SliceWellFormed(s, t, start, k, close);
  }

  // ---------------------------------------------------------------------------
  // Properties of the scan.

  /** Every value the scan returns is the group of a successful attempt at or after `pos`. */
  lemma {:induction false} ScanSound(attempts: seq<Option<Match>>, pos: nat)
    requires Advancing(attempts)
    ensures forall v :: v in Scan(attempts, pos) ==>
      exists j :: pos <= j < |attempts| && attempts[j].Some? && attempts[j].value.value == v
    decreases |attempts| - pos
  {
    if pos < |attempts| {
      match attempts[pos]
      case Some(m) =>
        ScanSound(attempts, m.end);
      case None =>
        ScanSound(attempts, pos + 1);
    }
  }

  /** A successful attempt at any position from `pos` on makes the scan find something. */
  lemma {:induction false} ScanComplete(attempts: seq<Option<Match>>, pos: nat, i: nat)
    requires Advancing(attempts)
    requires pos <= i < |attempts| && attempts[i].Some?
    ensures Scan(attempts, pos) != []
    decreases i - pos
  {
    if attempts[pos].None? {
      ScanComplete(attempts, pos + 1, i);
    }
  }

  /** Every value of the pattern's scan is captured by some match and is well formed. */
  lemma FindIterSound(s: string, t: UrlType, v: string)
    requires v in FindIter(s, t)
    ensures WellFormedValue(v, t)
    ensures exists i: nat, e: nat :: IsMatch(s, t, i, e, v)
  {
    AttemptsAdvancing(s, t);
    var attempts := Attempts(s, t);
    ScanSound(attempts, 0);
    var j :| 0 <= j < |attempts| && attempts[j].Some? && attempts[j].value.value == v;
    var m := MatchAt(s, t, j);
    MatchAtSound(s, t, j);
    MatchValueWellFormed(s, t, j, m.value.end, v);
  }

  /** The pattern's scan finds nothing exactly when the pattern matches nowhere. */
  lemma FindIterEmpty(s: string, t: UrlType)
    ensures FindIter(s, t) == [] <==> forall i: nat, e: nat, v :: !IsMatch(s, t, i, e, v)
  {
    if FindIter(s, t) != [] {
      FindIterSound(s, t, FindIter(s, t)[0]);
    }
    forall i: nat, e: nat, v | IsMatch(s, t, i, e, v)
      ensures FindIter(s, t) != []
    {
      MatchAtComplete(s, t, i, e, v);
      AttemptsAdvancing(s, t);
      ScanComplete(Attempts(s, t), 0, i);
    }
  }

  /** Every value found by the pattern's scan is well formed. */
  lemma FindIterWellFormed(s: string, t: UrlType)
    ensures forall v :: v in FindIter(s, t) ==> WellFormedValue(v, t)
  {
    forall v | v in FindIter(s, t)
      ensures WellFormedValue(v, t)
    {
      FindIterSound(s, t, v);
    }
  }

  lemma FindIterEmptyContent(t: UrlType)
    ensures FindIter("", t) == []
  {
    assert MatchAt("", t, 0) == None;
    assert Attempts("", t) == [None];
  }

  /** How a well-formed value begins, for each pattern. */
  lemma WellFormedStart(v: string, t: UrlType)
    requires WellFormedValue(v, t)
    ensures 2 <= |v|
    ensures t == CompleteUrl ==> Lower(v[0]) == 'h' || Lower(v[0]) == 'f'
    ensures t == ProtocolRelative ==> v[0] == '/' && v[1] == '/'
    ensures t == AbsolutePath ==> v[0] == '/'
  {
    var k :| 0 <= k < |Prefixes(t)| && CiAt(v, 0, Prefixes(t)[k]) && |Prefixes(t)[k]| < |v|;
    var lit := Prefixes(t)[k];
    assert Lower(v[0]) == lit[0];
    match t
    case CompleteUrl =>
      assert lit[0] == 'h' || lit[0] == 'f';
    case ProtocolRelative =>
      assert Lower(v[1]) == lit[1] == '/';
    case AbsolutePath =>
      assert lit[0] == '/';
  }
}
