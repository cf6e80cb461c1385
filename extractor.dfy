/**
 * parse_verilog: the module name and the port records extracted from HDL source text.
 * The two regular expressions of the source are modelled as explicit scanners over the text,
 * and each is proved against a declarative reading of its pattern.
 */
module Extractor {
  import opened Wrappers
  import opened Text

  datatype Direction = Input | Output | Inout

  /** The direction keyword as written in the source text. */
  function Keyword(d: Direction): string {
    match d
    case Input => "input"
    case Output => "output"
    case Inout => "inout"
  }

  /** One port record: direction, width token ("" for a single bit) and name. */
  datatype Port = Port(dir: Direction, width: string, name: string)

  /** What parse_verilog returns: the module name and the ports in source order. */
  datatype ModuleDescription = ModuleDescription(name: string, ports: seq<Port>)

  /** The two errors parse_verilog raises. */
  datatype ParseError = ModuleNotFound | NoPortsFound

  /** t occurs in s at position i. */
  predicate OccursAt(s: string, i: nat, t: string) {
    i + |t| <= |s| && s[i..i + |t|] == t
  }

  // ----------------------------------------------------------------------------------------
  // The module regex `\bmodule\s+(\w+)`

  /** `\bmodule\s+(\w+)` matches at i taking a blanks and a w-character identifier. */
  ghost predicate ModuleInstance(s: string, i: nat, a: nat, w: nat) {
    && i + 6 + a + w <= |s|
    && s[i..i + 6] == "module"
    && (i == 0 || !IsWordChar(s[i - 1]))
    && a >= 1 && AllIn(s, i + 6, i + 6 + a, Space)
    && w >= 1 && AllIn(s, i + 6 + a, i + 6 + a + w, Word)
  }

  /** A match of the module regex: where it starts, where group 1 starts, and group 1. */
  datatype ModuleHit = ModuleHit(start: nat, nameStart: nat, name: string)

  /** The match of the module regex at exactly position i, if there is one. */
  function ModuleMatchAt(s: string, i: nat): (r: Option<ModuleHit>)
    requires i <= |s|
    ensures r.Some? ==> r.value.start == i && i + 6 < r.value.nameStart < r.value.nameStart + |r.value.name| <= |s|
  {
    if OccursAt(s, i, "module") && (i == 0 || !IsWordChar(s[i - 1])) then
      var q := RunEnd(s, i + 6, Space);
      var e := RunEnd(s, q, Word);
      if q > i + 6 && e > q then Some(ModuleHit(i, q, s[q..e])) else None
    else None
  }

  /**
   * What the scanner finds at i is a match of the module regex whose group 1 is the slice
   * after the blanks, and that identifier cannot be extended.
   */
  lemma ModuleMatchAtSound(s: string, i: nat)
    requires i <= |s| && ModuleMatchAt(s, i).Some?
    ensures var h := ModuleMatchAt(s, i).value;
      && ModuleInstance(s, i, h.nameStart - i - 6, |h.name|)
      && h.name == s[h.nameStart..h.nameStart + |h.name|]
      && (h.nameStart + |h.name| == |s| || !IsWordChar(s[h.nameStart + |h.name|]))
  {
  }

  /**
   * Every way the module regex can match at i is found by the scanner, which takes all the
   * blanks and the longest identifier (Python's greedy choice).
   */
  lemma ModuleMatchAtComplete(s: string, i: nat, a: nat, w: nat)
    requires ModuleInstance(s, i, a, w)
    ensures ModuleMatchAt(s, i).Some?
    ensures ModuleMatchAt(s, i).value.nameStart == i + 6 + a
    ensures w <= |ModuleMatchAt(s, i).value.name|
  {
    assert OccursAt(s, i, "module");
    var q := RunEnd(s, i + 6, Space);
    RunEndBound(s, i + 6, a, Space);
    assert !IsSpace(s[i + 6 + a]) by { assert IsWordChar(s[i + 6 + a]); }
    assert q == i + 6 + a;
    RunEndBound(s, q, w, Word);
  }

  /** The search for the module regex from position i: its leftmost match, if any. */
  function SearchModule(s: string, i: nat): (r: Option<ModuleHit>)
    requires i <= |s|
    ensures r.Some? ==> i <= r.value.start <= |s| && ModuleMatchAt(s, r.value.start) == r
    decreases |s| - i
  {
    match ModuleMatchAt(s, i)
    case Some(h) => Some(h)
    case None => if i == |s| then None else SearchModule(s, i + 1)
  }

  /** The search finds the leftmost match: no match at any j before the one it returns, none at all when it fails. */
  lemma {:induction false} SearchModuleMisses(s: string, i: nat, j: nat)
    requires i <= j <= |s|
    requires SearchModule(s, i).None? || j < SearchModule(s, i).value.start
    ensures ModuleMatchAt(s, j).None?
    decreases |s| - i
  {
    var m := ModuleMatchAt(s, i);
    if j > i {
      assert m.None? by {
        if m.Some? { assert SearchModule(s, i) == m; }
      }
      assert SearchModule(s, i) == SearchModule(s, i + 1);
      SearchModuleMisses(s, i + 1, j);
    }
  }

  // ----------------------------------------------------------------------------------------
  // The port regex `(input|output|inout)\s+((\[[^\]]+\])?\s*\w+)`

  /**
   * The port regex matches at p: keyword d, a blanks, an optional bracket token of b
   * characters (b == 0 when absent), c blanks and a w-character word.
   */
  ghost predicate PortInstance(s: string, p: nat, d: Direction, a: nat, b: nat, c: nat, w: nat) {
    var q := p + |Keyword(d)| + a;
    var r := q + b + c;
    && r + w <= |s|
    && s[p..p + |Keyword(d)|] == Keyword(d)
    && a >= 1 && AllIn(s, p + |Keyword(d)|, q, Space)
    && (b == 0 || (b >= 3 && s[q] == '[' && s[q + b - 1] == ']' && AllIn(s, q + 1, q + b - 1, NotClose)))
    && AllIn(s, q + b, r, Space)
    && w >= 1 && AllIn(s, r, r + w, Word)
  }

  /** One tuple of `re.findall`: the keyword (group 1), group 2, and group 3 ("" when absent). */
  datatype Groups = Groups(dir: Direction, body: string, bracket: string)

  /** A match of the port regex: its start, the start of group 2, the start of the word, its end. */
  datatype PortHit = PortHit(start: nat, bodyStart: nat, nameStart: nat, end: nat, groups: Groups)

  /** h is a match of the port regex in s, its groups being the slices its spans delimit. */
  ghost predicate IsPortMatch(s: string, h: PortHit) {
    var k := |Keyword(h.groups.dir)|;
    var b := |h.groups.bracket|;
    && h.start + k <= h.bodyStart && h.bodyStart + b <= h.nameStart < h.end <= |s|
    && PortInstance(s, h.start, h.groups.dir, h.bodyStart - h.start - k, b, h.nameStart - h.bodyStart - b, h.end - h.nameStart)
    && h.groups.body == s[h.bodyStart..h.end]
    && h.groups.bracket == s[h.bodyStart..h.bodyStart + b]
  }

  /** No two direction keywords occur at the same position. */
  lemma KeywordsExclusive(s: string, p: nat, d1: Direction, d2: Direction)
    requires OccursAt(s, p, Keyword(d1)) && OccursAt(s, p, Keyword(d2))
    ensures d1 == d2
  {
    assert s[p] == s[p..p + |Keyword(d1)|][0] == Keyword(d1)[0];
    assert s[p] == s[p..p + |Keyword(d2)|][0] == Keyword(d2)[0];
    assert s[p + 2] == s[p..p + |Keyword(d1)|][2] == Keyword(d1)[2];
    assert s[p + 2] == s[p..p + |Keyword(d2)|][2] == Keyword(d2)[2];
  }

  /** The direction keyword at p; at most one of the three can occur there. */
  function KeywordAt(s: string, p: nat): (r: Option<Direction>)
    ensures r.Some? ==> OccursAt(s, p, Keyword(r.value))
  {
    if OccursAt(s, p, "input") then Some(Input)
    else if OccursAt(s, p, "output") then Some(Output)
    else if OccursAt(s, p, "inout") then Some(Inout)
    else None
  }

  /** Whichever keyword occurs at p is the one KeywordAt reports. */
  lemma KeywordAtFinds(s: string, p: nat, d: Direction)
    requires OccursAt(s, p, Keyword(d))
    ensures KeywordAt(s, p) == Some(d)
  {
    var r := KeywordAt(s, p);
    assert r.Some?;
    KeywordsExclusive(s, p, d, r.value);
  }

  /** The match of the port regex at exactly position p, if there is one. */
  function PortMatchAt(s: string, p: nat): (r: Option<PortHit>)
    requires p <= |s|
    ensures r.Some? ==> r.value.start == p < r.value.end <= |s|
  {
    match KeywordAt(s, p)
    case None => None
    case Some(d) =>
      var q0 := p + |Keyword(d)|;
      var q := RunEnd(s, q0, Space);
      if q == q0 then None else MatchBody(s, p, d, q)
  }

  /** The rest of a match at p once `\s+` has taken every blank up to q, where group 2 begins. */
  function MatchBody(s: string, p: nat, d: Direction, q: nat): (r: Option<PortHit>)
    requires p < q <= |s|
    ensures r.Some? ==> r.value.start == p && r.value.bodyStart == q && q <= r.value.nameStart < r.value.end <= |s|
  {
    if q < |s| && s[q] == '[' then
      var j := RunEnd(s, q + 1, NotClose);
      if j == q + 1 || j == |s| then None
      else
        var r := RunEnd(s, j + 1, Space);
        var e := RunEnd(s, r, Word);
        if e == r then None
        else Some(PortHit(p, q, r, e, Groups(d, s[q..e], s[q..j + 1])))
    else
      var e := RunEnd(s, q, Word);
      if e == q then None
      else Some(PortHit(p, q, q, e, Groups(d, s[q..e], "")))
  }

  /** A keyword, blanks, then a word: the branch of the regex without a bracket token. */
  lemma PlainMatchSound(s: string, p: nat, d: Direction, q: nat, e: nat)
    requires OccursAt(s, p, Keyword(d))
    requires q == RunEnd(s, p + |Keyword(d)|, Space) && q > p + |Keyword(d)|
    requires e == RunEnd(s, q, Word) && e > q
    ensures IsPortMatch(s, PortHit(p, q, q, e, Groups(d, s[q..e], "")))
  {
    assert PortInstance(s, p, d, q - p - |Keyword(d)|, 0, 0, e - q);
  }

  /** A keyword, blanks, a bracket token, blanks, then a word: the branch with a bracket token. */
  lemma BracketMatchSound(s: string, p: nat, d: Direction, q: nat, j: nat, r: nat, e: nat)
    requires OccursAt(s, p, Keyword(d))
    requires q == RunEnd(s, p + |Keyword(d)|, Space) && q > p + |Keyword(d)|
    requires q < |s| && s[q] == '['
    requires j == RunEnd(s, q + 1, NotClose) && q + 1 < j < |s|
    requires r == RunEnd(s, j + 1, Space)
    requires e == RunEnd(s, r, Word) && e > r
    ensures IsPortMatch(s, PortHit(p, q, r, e, Groups(d, s[q..e], s[q..j + 1])))
  {
    var h := PortHit(p, q, r, e, Groups(d, s[q..e], s[q..j + 1]));
    assert s[j] == ']';
    assert |h.groups.bracket| == j + 1 - q;
    assert PortInstance(s, p, d, q - p - |Keyword(d)|, j + 1 - q, r - (j + 1), e - r);
  }

  /** MatchBody's bracket branch finds only matches of the port regex. */
  lemma BracketBodySound(s: string, p: nat, d: Direction, q: nat)
    requires OccursAt(s, p, Keyword(d))
    requires q == RunEnd(s, p + |Keyword(d)|, Space) && q > p + |Keyword(d)|
    requires q < |s| && s[q] == '['
    ensures MatchBody(s, p, d, q).Some? ==> IsPortMatch(s, MatchBody(s, p, d, q).value)
  {
    var m := MatchBody(s, p, d, q);
    if m.Some? {
      var j := RunEnd(s, q + 1, NotClose);
      var r := RunEnd(s, j + 1, Space);
      var e := RunEnd(s, r, Word);
      assert m == Some(PortHit(p, q, r, e, Groups(d, s[q..e], s[q..j + 1])));
      BracketMatchSound(s, p, d, q, j, r, e);
    }
  }

  /** MatchBody's plain branch finds only matches of the port regex. */
  lemma PlainBodySound(s: string, p: nat, d: Direction, q: nat)
    requires OccursAt(s, p, Keyword(d))
    requires q == RunEnd(s, p + |Keyword(d)|, Space) && q > p + |Keyword(d)|
    requires !(q < |s| && s[q] == '[')
    ensures MatchBody(s, p, d, q).Some? ==> IsPortMatch(s, MatchBody(s, p, d, q).value)
  {
    var e := RunEnd(s, q, Word);
    if e != q {
      assert MatchBody(s, p, d, q) == Some(PortHit(p, q, q, e, Groups(d, s[q..e], "")));
      PlainMatchSound(s, p, d, q, e);
    }
  }

  /** What the scanner returns is a match of the port regex with the spans of its groups. */
  lemma PortMatchAtSound(s: string, p: nat)
    requires p <= |s|
    ensures PortMatchAt(s, p).Some? ==> IsPortMatch(s, PortMatchAt(s, p).value)
  {
    var m := PortMatchAt(s, p);
    if m.Some? {
      var d := KeywordAt(s, p).value;
      var q := RunEnd(s, p + |Keyword(d)|, Space);
      assert m == MatchBody(s, p, d, q);
      if q < |s| && s[q] == '[' {
        BracketBodySound(s, p, d, q);
      } else {
        PlainBodySound(s, p, d, q);
      }
    }
  }

  /** Without a bracket token, `\s+` takes every blank before the word. */
  lemma PlainInstanceSpans(s: string, p: nat, d: Direction, a: nat, c: nat, w: nat)
    requires PortInstance(s, p, d, a, 0, c, w)
    ensures var t := p + |Keyword(d)| + a + c;
      && OccursAt(s, p, Keyword(d))
      && p + |Keyword(d)| < t < |s|
      && RunEnd(s, p + |Keyword(d)|, Space) == t
      && s[t] != '['
      && t + w <= RunEnd(s, t, Word)
  {
    var q0 := p + |Keyword(d)|;
    var t := q0 + a + c;
    assert OccursAt(s, p, Keyword(d));
    assert !IsSpace(s[t]) && s[t] != '[' by { assert IsWordChar(s[t]); }
    assert AllIn(s, q0, t, Space);
    RunEndExact(s, q0, a + c, Space);
    RunEndBound(s, t, w, Word);
  }

  /** The scanner's match at p when the word starts at t, right after the blanks. */
  lemma PlainInstanceMatched(s: string, p: nat, d: Direction, t: nat)
    requires OccursAt(s, p, Keyword(d))
    requires p + |Keyword(d)| < t < |s| && RunEnd(s, p + |Keyword(d)|, Space) == t
    requires s[t] != '[' && t < RunEnd(s, t, Word)
    ensures var e := RunEnd(s, t, Word);
            PortMatchAt(s, p) == Some(PortHit(p, t, t, e, Groups(d, s[t..e], "")))
  {
    KeywordAtFinds(s, p, d);
    assert PortMatchAt(s, p) == MatchBody(s, p, d, t);
  }

  /** With a bracket token, `\s+` takes every blank before it and the token ends at the first `]`. */
  lemma BracketInstanceSpans(s: string, p: nat, d: Direction, a: nat, b: nat, c: nat, w: nat)
    requires PortInstance(s, p, d, a, b, c, w) && b > 0
    ensures var q := p + |Keyword(d)| + a;
      && OccursAt(s, p, Keyword(d))
      && RunEnd(s, p + |Keyword(d)|, Space) == q
      && s[q] == '[' && b >= 3
      && RunEnd(s, q + 1, NotClose) == q + b - 1
      && q + b - 1 < |s|
      && RunEnd(s, q + b, Space) == q + b + c
      && q + b + c + w <= RunEnd(s, q + b + c, Word)
  {
    var q0 := p + |Keyword(d)|;
    var q := q0 + a;
    var t := q + b + c;
    assert OccursAt(s, p, Keyword(d));
    assert !IsSpace(s[q]) by { assert s[q] == '['; }
    RunEndExact(s, q0, a, Space);
    assert !InClass(s[q + b - 1], NotClose);
    RunEndExact(s, q + 1, b - 2, NotClose);
    assert !IsSpace(s[t]) by { assert IsWordChar(s[t]); }
    RunEndExact(s, q + b, c, Space);
    RunEndBound(s, t, w, Word);
  }

  /** The scanner's match at p when a bracket token of b characters starts at q. */
  lemma BracketInstanceMatched(s: string, p: nat, d: Direction, q: nat, b: nat, t: nat)
    requires OccursAt(s, p, Keyword(d))
    requires p + |Keyword(d)| < q < |s| && RunEnd(s, p + |Keyword(d)|, Space) == q
    requires s[q] == '[' && b >= 3 && q + b - 1 < |s| && RunEnd(s, q + 1, NotClose) == q + b - 1
    requires q + b <= t <= |s| && RunEnd(s, q + b, Space) == t && t < RunEnd(s, t, Word)
    ensures var e := RunEnd(s, t, Word);
            PortMatchAt(s, p) == Some(PortHit(p, q, t, e, Groups(d, s[q..e], s[q..q + b])))
  {
    KeywordAtFinds(s, p, d);
    var e := RunEnd(s, t, Word);
    assert MatchBody(s, p, d, q) == Some(PortHit(p, q, t, e, Groups(d, s[q..e], s[q..q + b])));
    assert PortMatchAt(s, p) == MatchBody(s, p, d, q);
  }

  /**
   * Every way the port regex can match at p is found by the scanner, and the scanner's match is
   * the one Python's backtracking picks: the same keyword and bracket token, every blank in
   * `\s+`, the word starting at the same place and running as far as it can.
   */
  lemma PortMatchAtComplete(s: string, p: nat, d: Direction, a: nat, b: nat, c: nat, w: nat)
    requires PortInstance(s, p, d, a, b, c, w)
    ensures p <= |s| && PortMatchAt(s, p).Some?
    ensures var h := PortMatchAt(s, p).value;
      && h.groups.dir == d
      && |h.groups.bracket| == b
      && p + |Keyword(d)| + a <= h.bodyStart
      && h.nameStart == p + |Keyword(d)| + a + b + c
      && h.nameStart + w <= h.end
  {
    if b == 0 {
      PlainInstanceComplete(s, p, d, a, c, w);
    } else {
      BracketInstanceComplete(s, p, d, a, b, c, w);
    }
  }

  /** PortMatchAtComplete for a reading without a bracket token. */
  lemma PlainInstanceComplete(s: string, p: nat, d: Direction, a: nat, c: nat, w: nat)
    requires PortInstance(s, p, d, a, 0, c, w)
    ensures p <= |s| && PortMatchAt(s, p).Some?
    ensures var h := PortMatchAt(s, p).value;
      && h.groups.dir == d && h.groups.bracket == ""
      && h.bodyStart == h.nameStart == p + |Keyword(d)| + a + c
      && h.nameStart + w <= h.end
  {
    PlainInstanceSpans(s, p, d, a, c, w);
    PlainInstanceMatched(s, p, d, p + |Keyword(d)| + a + c);
  }

  /** PortMatchAtComplete for a reading with a bracket token of b characters. */
  lemma BracketInstanceComplete(s: string, p: nat, d: Direction, a: nat, b: nat, c: nat, w: nat)
    requires PortInstance(s, p, d, a, b, c, w) && b > 0
    ensures p <= |s| && PortMatchAt(s, p).Some?
    ensures var h := PortMatchAt(s, p).value;
      && h.groups.dir == d && |h.groups.bracket| == b
      && h.bodyStart == p + |Keyword(d)| + a
      && h.nameStart == p + |Keyword(d)| + a + b + c
      && h.nameStart + w <= h.end
  {
    BracketInstanceSpans(s, p, d, a, b, c, w);
    var q := p + |Keyword(d)| + a;
    BracketInstanceMatched(s, p, d, q, b, q + b + c);
  }

  /** A port match is one reading of the port regex at its start. */
  lemma PortMatchWitness(s: string, h: PortHit)
    requires IsPortMatch(s, h)
    ensures exists d, a, b, c, w :: PortInstance(s, h.start, d, a, b, c, w)
  {
    var k := |Keyword(h.groups.dir)|;
    var b := |h.groups.bracket|;
    assert PortInstance(s, h.start, h.groups.dir, h.bodyStart - h.start - k, b, h.nameStart - h.bodyStart - b, h.end - h.nameStart);
  }

  /** The ASCII separators U+001C to U+001F are blanks to `\s`: `input`, U+001C, `a` is a port. */
  lemma SeparatorIsBlank()
    ensures PortMatchAt("input\U{001C}a", 0).Some?
  {
    var s := "input\U{001C}a";
    assert PortInstance(s, 0, Input, 1, 0, 0, 1);
    PortMatchAtComplete(s, 0, Input, 1, 0, 0, 1);
  }

  /** The scanner finds a match at p exactly when some reading of the port regex matches there. */
  lemma PortMatchAtIff(s: string, p: nat)
    requires p <= |s|
    ensures PortMatchAt(s, p).Some? <==> exists d, a, b, c, w :: PortInstance(s, p, d, a, b, c, w)
  {
    forall d, a, b, c, w | PortInstance(s, p, d, a, b, c, w)
      ensures PortMatchAt(s, p).Some?
    {
      PortMatchAtComplete(s, p, d, a, b, c, w);
    }
    if PortMatchAt(s, p).Some? {
      PortMatchAtSound(s, p);
      PortMatchWitness(s, PortMatchAt(s, p).value);
    }
  }

  /** The module regex matches at i exactly when the scanner finds a match there. */
  lemma ModuleMatchAtIff(s: string, i: nat)
    requires i <= |s|
    ensures ModuleMatchAt(s, i).Some? <==> exists a, w :: ModuleInstance(s, i, a, w)
  {
    forall a, w | ModuleInstance(s, i, a, w)
      ensures ModuleMatchAt(s, i).Some?
    {
      ModuleMatchAtComplete(s, i, a, w);
    }
    if ModuleMatchAt(s, i).Some? {
      ModuleMatchAtSound(s, i);
    }
  }

  // ----------------------------------------------------------------------------------------
  // `re.findall` over the port regex

  /**
   * The match at h.start that Python's backtracking picks: every reading of the regex there has
   * the same keyword and bracket token, no longer `\s+`, its word at the same place, and no
   * longer a word.
   */
  ghost predicate IsGreedyPortMatch(s: string, h: PortHit) {
    && IsPortMatch(s, h)
    && forall d, a, b, c, w :: PortInstance(s, h.start, d, a, b, c, w) ==>
         && d == h.groups.dir
         && |h.groups.bracket| == b
         && h.start + |Keyword(d)| + a <= h.bodyStart
         && h.nameStart == h.start + |Keyword(d)| + a + b + c
         && h.nameStart + w <= h.end
  }

  /** The scanner's match at p is the greedy one. */
  lemma PortMatchAtGreedy(s: string, p: nat)
    requires p <= |s| && PortMatchAt(s, p).Some?
    ensures IsGreedyPortMatch(s, PortMatchAt(s, p).value)
  {
    PortMatchAtSound(s, p);
    forall d, a, b, c, w | PortInstance(s, p, d, a, b, c, w)
      ensures var h := PortMatchAt(s, p).value;
         && d == h.groups.dir
         && |h.groups.bracket| == b
         && h.start + |Keyword(d)| + a <= h.bodyStart
         && h.nameStart == h.start + |Keyword(d)| + a + b + c
         && h.nameStart + w <= h.end
    {
      PortMatchAtComplete(s, p, d, a, b, c, w);
    }
  }

  /**
   * What trying the port regex at each position 0 .. |s| yields: attempt p is the scanner's
   * match starting at p, if any.
   */
  function Attempts(s: string): (t: seq<Option<PortHit>>)
    ensures |t| == |s| + 1 && WellPlaced(t)
  {
    seq(|s| + 1, p requires 0 <= p <= |s| => PortMatchAt(s, p))
  }

  /** Attempt p, when it succeeds, starts at p and ends after it, before the end of the text. */
  predicate WellPlaced(t: seq<Option<PortHit>>) {
    forall p :: 0 <= p < |t| && t[p].Some? ==> t[p].value.start == p < t[p].value.end < |t|
  }

  /**
   * The loop of `re.findall` over a table of attempts, from position p: take the attempt at p
   * when it succeeds and resume where it ends, otherwise move one character on.
   */
  function ScanFrom(t: seq<Option<PortHit>>, p: nat): (hits: seq<PortHit>)
    requires WellPlaced(t) && p < |t|
    ensures forall k :: 0 <= k < |hits| ==> p <= hits[k].start < hits[k].end < |t|
    ensures forall k, l :: 0 <= k < l < |hits| ==> hits[k].end <= hits[l].start
    decreases |t| - p
  {
    if p == |t| - 1 then []
    else
      match t[p]
      case Some(h) => [h] + ScanFrom(t, h.end)
      case None => ScanFrom(t, p + 1)
  }

  /** The matches `re.findall` walks through: leftmost first, never overlapping. */
  function Scan(s: string): seq<PortHit> {
    ScanFrom(Attempts(s), 0)
  }

  /** Each scanned hit is the successful attempt at its start. */
  lemma {:induction false} ScanFromHitIsAttempt(t: seq<Option<PortHit>>, p: nat, k: nat)
    requires WellPlaced(t) && p < |t| && k < |ScanFrom(t, p)|
    ensures t[ScanFrom(t, p)[k].start] == Some(ScanFrom(t, p)[k])
    decreases |t| - p
  {
    if t[p].Some? {
      var rest := ScanFrom(t, t[p].value.end);
      assert ScanFrom(t, p) == [t[p].value] + rest;
      if k > 0 {
        ScanFromHitIsAttempt(t, t[p].value.end, k - 1);
      }
    } else {
      assert ScanFrom(t, p) == ScanFrom(t, p + 1);
      ScanFromHitIsAttempt(t, p + 1, k);
    }
  }

  /** Every position from p where an attempt succeeds lies inside one of the scanned hits. */
  lemma {:induction false} ScanFromCovers(t: seq<Option<PortHit>>, p: nat, q: nat) returns (k: nat)
    requires WellPlaced(t) && p <= q < |t| && t[q].Some?
    ensures k < |ScanFrom(t, p)| && ScanFrom(t, p)[k].start <= q < ScanFrom(t, p)[k].end
    decreases |t| - p
  {
    var hits := ScanFrom(t, p);
    if t[p].Some? {
      var h := t[p].value;
      var rest := ScanFrom(t, h.end);
      assert hits == [h] + rest;
      if h.end <= q {
        var k' := ScanFromCovers(t, h.end, q);
        k := k' + 1;
        assert hits[k] == rest[k'];
      } else {
        k := 0;
      }
    } else {
      assert hits == ScanFrom(t, p + 1);
      k := ScanFromCovers(t, p + 1, q);
    }
  }

  /** Each scanned hit is the scanner's match at its start. */
  lemma ScanHitIsMatch(s: string, k: nat)
    requires k < |Scan(s)|
    ensures Scan(s)[k].start <= |s| && PortMatchAt(s, Scan(s)[k].start) == Some(Scan(s)[k])
  {
    ScanFromHitIsAttempt(Attempts(s), 0, k);
  }

  /** Every position where the scanner finds a match lies inside one of the scanned matches. */
  lemma ScanCovers(s: string, q: nat) returns (k: nat)
    requires q <= |s| && PortMatchAt(s, q).Some?
    ensures k < |Scan(s)| && Scan(s)[k].start <= q < Scan(s)[k].end
  {
    var t := Attempts(s);
    assert t[q] == PortMatchAt(s, q);
    k := ScanFromCovers(t, 0, q);
  }

  /** The group tuples `re.findall` returns, in order. */
  function FindAll(s: string): (found: seq<Groups>)
    ensures |found| == |Scan(s)| && forall k :: 0 <= k < |found| ==> found[k] == Scan(s)[k].groups
  {
    var hits := Scan(s);
    seq(|hits|, k requires 0 <= k < |hits| => hits[k].groups)
  }

  /**
   * The leftmost, non-overlapping matches of the port regex in s, left to right: each is the
   * greedy match at its start, each starts no earlier than the previous one ends, and every
   * position where the regex matches at all lies inside one of them.
   */
  ghost predicate LeftmostMatches(s: string, hits: seq<PortHit>) {
    && (forall k :: 0 <= k < |hits| ==> IsGreedyPortMatch(s, hits[k]))
    && (forall k, l :: 0 <= k < l < |hits| ==> hits[k].end <= hits[l].start)
    && (forall q: nat, d, a: nat, b: nat, c: nat, w: nat :: PortInstance(s, q, d, a, b, c, w) ==>
          exists k :: 0 <= k < |hits| && hits[k].start <= q < hits[k].end)
  }

  /** What the scanner walks through is exactly the leftmost, non-overlapping matches. */
  lemma ScanIsLeftmostMatches(s: string)
    ensures LeftmostMatches(s, Scan(s))
  {
    var hits := Scan(s);
    forall k | 0 <= k < |hits|
      ensures IsGreedyPortMatch(s, hits[k])
    {
      ScanHitIsMatch(s, k);
      PortMatchAtGreedy(s, hits[k].start);
    }
    forall q: nat, d, a: nat, b: nat, c: nat, w: nat | PortInstance(s, q, d, a, b, c, w)
      ensures exists k :: 0 <= k < |hits| && hits[k].start <= q < hits[k].end
    {
      PortMatchAtComplete(s, q, d, a, b, c, w);
      var k := ScanCovers(s, q);
    }
  }

  /** A match is a reading of the port regex at its start. */
  lemma MatchIsInstance(s: string, h: PortHit)
    requires IsPortMatch(s, h)
    ensures var k := |Keyword(h.groups.dir)|;
      var b := |h.groups.bracket|;
      PortInstance(s, h.start, h.groups.dir, h.bodyStart - h.start - k, b, h.nameStart - h.bodyStart - b, h.end - h.nameStart)
  {
  }

  /** At one position there is at most one greedy match. */
  lemma GreedyMatchUnique(s: string, h1: PortHit, h2: PortHit)
    requires IsGreedyPortMatch(s, h1) && IsGreedyPortMatch(s, h2) && h1.start == h2.start
    ensures h1 == h2
  {
    MatchIsInstance(s, h1);
    MatchIsInstance(s, h2);
    assert h1.groups == h2.groups;
  }

  /** Each hit is non-empty, and each starts no earlier than the previous one ends. */
  predicate Ordered(hits: seq<PortHit>) {
    && (forall k :: 0 <= k < |hits| ==> hits[k].start < hits[k].end)
    && (forall k, l :: 0 <= k < l < |hits| ==> hits[k].end <= hits[l].start)
  }

  lemma LeftmostOrdered(s: string, hits: seq<PortHit>)
    requires LeftmostMatches(s, hits)
    ensures Ordered(hits)
  {
    forall k | 0 <= k < |hits|
      ensures hits[k].start < hits[k].end
    {
      assert IsGreedyPortMatch(s, hits[k]);
    }
  }

  lemma LeftmostGreedy(s: string, hits: seq<PortHit>, k: nat)
    requires LeftmostMatches(s, hits) && k < |hits|
    ensures IsGreedyPortMatch(s, hits[k])
  {
  }

  /** Every match lies inside one of the leftmost matches. */
  lemma LeftmostCovers(s: string, hits: seq<PortHit>, h: PortHit) returns (k: nat)
    requires LeftmostMatches(s, hits) && IsPortMatch(s, h)
    ensures k < |hits| && hits[k].start <= h.start < hits[k].end
  {
    MatchIsInstance(s, h);
    k :| 0 <= k < |hits| && hits[k].start <= h.start < hits[k].end;
  }

  /**
   * Of two ordered sequences that agree before index i, the i-th hit of hits2 starts no later
   * than that of hits1 once some hit k of hits2 covers the start of hits1[i]: the shared hits
   * before i end before it.
   */
  lemma OrderedStartNoLater(hits1: seq<PortHit>, hits2: seq<PortHit>, i: nat, k: nat)
    requires Ordered(hits1) && Ordered(hits2)
    requires i < |hits1| && i < |hits2| && hits1[..i] == hits2[..i]
    requires k < |hits2| && hits2[k].start <= hits1[i].start < hits2[k].end
    ensures hits2[i].start <= hits1[i].start
  {
  }

  /** A hit of hits1 beyond all of hits2 cannot be covered by a hit they share. */
  lemma OrderedBeyondUncovered(hits1: seq<PortHit>, hits2: seq<PortHit>, k: nat)
    requires Ordered(hits1) && |hits2| < |hits1| && hits1[..|hits2|] == hits2 && k < |hits2|
    ensures !(hits2[k].start <= hits1[|hits2|].start < hits2[k].end)
  {
    assert hits1[k] == hits1[..|hits2|][k] == hits2[k];
  }

  /** Two sequences of leftmost matches that agree before index i agree at i. */
  lemma LeftmostStep(s: string, hits1: seq<PortHit>, hits2: seq<PortHit>, i: nat)
    requires LeftmostMatches(s, hits1) && LeftmostMatches(s, hits2)
    requires i < |hits1| && i < |hits2| && hits1[..i] == hits2[..i]
    ensures hits1[i] == hits2[i]
  {
    LeftmostOrdered(s, hits1);
    LeftmostOrdered(s, hits2);
    LeftmostGreedy(s, hits1, i);
    LeftmostGreedy(s, hits2, i);
    var k2 := LeftmostCovers(s, hits2, hits1[i]);
    OrderedStartNoLater(hits1, hits2, i, k2);
    var k1 := LeftmostCovers(s, hits1, hits2[i]);
    OrderedStartNoLater(hits2, hits1, i, k1);
    GreedyMatchUnique(s, hits1[i], hits2[i]);
  }

  /** Sequences that agree before index n - 1 and at it agree on their first n elements. */
  lemma PrefixSnoc(hits1: seq<PortHit>, hits2: seq<PortHit>, n: nat)
    requires 0 < n <= |hits1| && n <= |hits2|
    requires hits1[..n - 1] == hits2[..n - 1] && hits1[n - 1] == hits2[n - 1]
    ensures hits1[..n] == hits2[..n]
  {
    assert hits1[..n] == hits1[..n - 1] + [hits1[n - 1]];
    assert hits2[..n] == hits2[..n - 1] + [hits2[n - 1]];
  }

  /** Two sequences of leftmost matches agree on their first n hits. */
  lemma {:induction false} LeftmostAgree(s: string, hits1: seq<PortHit>, hits2: seq<PortHit>, n: nat)
    requires LeftmostMatches(s, hits1) && LeftmostMatches(s, hits2)
    requires n <= |hits1| && n <= |hits2|
    ensures hits1[..n] == hits2[..n]
  {
    if n > 0 {
      LeftmostAgree(s, hits1, hits2, n - 1);
      LeftmostStep(s, hits1, hits2, n - 1);
      PrefixSnoc(hits1, hits2, n);
    }
  }

  /** A sequence of leftmost matches that agrees with another on all of it is no longer. */
  lemma LeftmostNotLonger(s: string, hits1: seq<PortHit>, hits2: seq<PortHit>)
    requires LeftmostMatches(s, hits1) && LeftmostMatches(s, hits2)
    requires |hits2| <= |hits1| && hits1[..|hits2|] == hits2
    ensures |hits1| == |hits2|
  {
    if |hits2| < |hits1| {
      LeftmostOrdered(s, hits1);
      LeftmostGreedy(s, hits1, |hits2|);
      var k := LeftmostCovers(s, hits2, hits1[|hits2|]);
      OrderedBeyondUncovered(hits1, hits2, k);
    }
  }

  /** The leftmost, non-overlapping matches of a text are unique: the scan is the only one. */
  lemma LeftmostMatchesUnique(s: string, hits1: seq<PortHit>, hits2: seq<PortHit>)
    requires LeftmostMatches(s, hits1) && LeftmostMatches(s, hits2)
    ensures hits1 == hits2
  {
    if |hits1| <= |hits2| {
      LeftmostAgree(s, hits1, hits2, |hits1|);
      assert hits1[..|hits1|] == hits1;
      LeftmostNotLonger(s, hits2, hits1);
    } else {
      LeftmostAgree(s, hits1, hits2, |hits2|);
      assert hits2[..|hits2|] == hits2;
      LeftmostNotLonger(s, hits1, hits2);
    }
  }

  // ----------------------------------------------------------------------------------------
  // parse_verilog

  /** A width token: empty, or `[`, at least one character other than `]`, then `]`. */
  predicate IsWidthToken(t: string) {
    t == "" || (|t| >= 3 && t[0] == '[' && t[|t| - 1] == ']' && forall k :: 0 < k < |t| - 1 ==> t[k] != ']')
  }

  /** A non-empty run of word characters. */
  predicate IsIdentifier(n: string) {
    |n| >= 1 && forall k :: 0 <= k < |n| ==> IsWordChar(n[k])
  }

  /** The record the loop of parse_verilog builds from one findall tuple. */
  function ToPort(g: Groups): Port {
    Port(g.dir, if g.bracket != "" then Strip(g.bracket) else "", TrailingWord(g.body))
  }

  /** The bracket group of a match is a width token, and stripping leaves it as it is. */
  lemma BracketOfMatch(s: string, h: PortHit)
    requires IsPortMatch(s, h)
    ensures IsWidthToken(h.groups.bracket)
    ensures h.groups.bracket != "" ==> Strip(h.groups.bracket) == h.groups.bracket
  {
    var g := h.groups;
    var b := |g.bracket|;
    if b > 0 {
      assert g.bracket[0] == s[h.bodyStart] == '[';
      assert g.bracket[b - 1] == s[h.bodyStart + b - 1] == ']';
      StripKeepsToken(g.bracket);
      forall k | 0 < k < b - 1 ensures g.bracket[k] != ']' {
        assert g.bracket[k] == s[h.bodyStart + k];
        assert InClass(s[h.bodyStart + k], NotClose);
      }
    }
  }

  /** The trailing word of group 2 is the word the match ends with. */
  lemma NameOfMatch(s: string, h: PortHit)
    requires IsPortMatch(s, h)
    ensures TrailingWord(h.groups.body) == s[h.nameStart..h.end]
    ensures IsIdentifier(s[h.nameStart..h.end])
  {
    var body := h.groups.body;
    var o := h.nameStart - h.bodyStart;
    assert body[o..] == s[h.nameStart..h.end];
    assert AllIn(s, h.nameStart, h.end, Word);
    assert AllIn(body, o, |body|, Word) by {
      forall k | o <= k < |body| ensures IsWordChar(body[k]) {
        assert body[k] == s[h.nameStart + (k - o)];
        assert InClass(s[h.nameStart + (k - o)], Word);
      }
    }
    if o > 0 {
      assert body[o - 1] == s[h.nameStart - 1];
      if h.nameStart - h.bodyStart - |h.groups.bracket| > 0 {
        assert IsSpace(s[h.nameStart - 1]);
      } else {
        assert s[h.nameStart - 1] == ']';
      }
    }
    TrailingWordOf(body, o);
  }

  /** A body that ends with a word run preceded by a non-word character (or nothing) has that run as trailing word. */
  lemma TrailingWordOf(body: string, o: nat)
    requires o < |body| && AllIn(body, o, |body|, Word)
    requires o == 0 || !IsWordChar(body[o - 1])
    ensures TrailingWord(body) == body[o..] && IsIdentifier(body[o..])
  {
    WordStartExact(body, o, |body|);
  }

  /** The record of a match holds its keyword, its bracket token verbatim and its word. */
  lemma ToPortOfMatch(s: string, h: PortHit)
    requires IsPortMatch(s, h)
    ensures ToPort(h.groups) == Port(h.groups.dir, h.groups.bracket, s[h.nameStart..h.end])
    ensures IsWidthToken(h.groups.bracket) && IsIdentifier(s[h.nameStart..h.end])
  {
    BracketOfMatch(s, h);
    NameOfMatch(s, h);
  }

  /** The records built from findall tuples, one per tuple, in order. */
  function Records(found: seq<Groups>): (ports: seq<Port>)
    ensures |ports| == |found|
  {
    seq(|found|, k requires 0 <= k < |found| => ToPort(found[k]))
  }

  /** Building one more record appends it. */
  lemma RecordsSnoc(found: seq<Groups>, i: nat)
    requires i < |found|
    ensures Records(found[..i + 1]) == Records(found[..i]) + [ToPort(found[i])]
  {
    assert found[..i + 1][..i] == found[..i];
  }

  /** parse_verilog on the text of a file: the module name and the port records, or an error. */
  function Parse(code: string): Result<ModuleDescription, ParseError> {
    match SearchModule(code, 0)
    case None => Failure(ModuleNotFound)
    case Some(m) =>
      var found := FindAll(code);
      if found == [] then Failure(NoPortsFound)
      else Success(ModuleDescription(m.name, Records(found)))
  }

  /** parse_verilog, minus the file read: the module search, the port search, then the loop that builds records. */
  method ParseVerilog(code: string) returns (result: Result<ModuleDescription, ParseError>)
    ensures result == Parse(code)
    ensures result.Success? ==> |result.value.ports| > 0
  {
    var moduleMatch := SearchModule(code, 0);
    if moduleMatch.None? {
      return Failure(ModuleNotFound);
    }
    var moduleName := moduleMatch.value.name;
    var portsMatch := FindAll(code);
    if portsMatch == [] {
      return Failure(NoPortsFound);
    }
    var ports: seq<Port> := [];
    for i := 0 to |portsMatch|
      invariant ports == Records(portsMatch[..i])
    {
      RecordsSnoc(portsMatch, i);
      ports := ports + [ToPort(portsMatch[i])];
    }
    assert portsMatch[..|portsMatch|] == portsMatch;
    return Success(ModuleDescription(moduleName, ports));
  }

  /** The parsed ports are the records of the scanned matches, one for one and in order. */
  lemma ScanRecords(code: string)
    requires Parse(code).Success?
    ensures var ports := Parse(code).value.ports;
      && |Scan(code)| == |ports|
      && forall k :: 0 <= k < |ports| ==>
           IsPortMatch(code, Scan(code)[k]) &&
           ports[k] == Port(Scan(code)[k].groups.dir, Scan(code)[k].groups.bracket, code[Scan(code)[k].nameStart..Scan(code)[k].end])
  {
    var ports := Parse(code).value.ports;
    var hits := Scan(code);
    forall k | 0 <= k < |hits|
      ensures IsPortMatch(code, hits[k]) &&
              ports[k] == Port(hits[k].groups.dir, hits[k].groups.bracket, code[hits[k].nameStart..hits[k].end])
    {
      ScanHitIsMatch(code, k);
      PortMatchAtSound(code, hits[k].start);
      ToPortOfMatch(code, hits[k]);
    }
  }

  /**
   * On success the ports come, one for one and in order, from the leftmost non-overlapping port
   * matches of the whole text: each holds the direction, the bracket token and the name matched.
   */
  lemma ParsePorts(code: string)
    requires Parse(code).Success?
    ensures var ports := Parse(code).value.ports;
      && |ports| > 0
      && exists hits: seq<PortHit> :: && LeftmostMatches(code, hits) && |hits| == |ports|
                        && forall k :: 0 <= k < |hits| ==>
                             ports[k] == Port(hits[k].groups.dir, hits[k].groups.bracket, code[hits[k].nameStart..hits[k].end])
  {
    ScanIsLeftmostMatches(code);
    ScanRecords(code);
  }

  /**
   * The leftmost matches being unique, any sequence of them gives the parsed ports: whatever
   * reading of `re.findall` one takes, the records are the same.
   */
  lemma ParsePortsOfLeftmost(code: string, hits: seq<PortHit>)
    requires Parse(code).Success? && LeftmostMatches(code, hits)
    ensures var ports := Parse(code).value.ports;
      && |hits| == |ports|
      && forall k :: 0 <= k < |hits| ==>
           ports[k] == Port(hits[k].groups.dir, hits[k].groups.bracket, code[hits[k].nameStart..hits[k].end])
  {
    ScanIsLeftmostMatches(code);
    LeftmostMatchesUnique(code, hits, Scan(code));
    ScanRecords(code);
  }

  /** Every parsed record has a well-formed width (empty or one bracket token) and an identifier name. */
  lemma ParsedPortShape(code: string)
    requires Parse(code).Success?
    ensures forall k :: 0 <= k < |Parse(code).value.ports| ==>
      IsWidthToken(Parse(code).value.ports[k].width) && IsIdentifier(Parse(code).value.ports[k].name)
  {
    var hits := Scan(code);
    forall k | 0 <= k < |hits|
      ensures IsWidthToken(ToPort(hits[k].groups).width) && IsIdentifier(ToPort(hits[k].groups).name)
    {
      ScanHitIsMatch(code, k);
      PortMatchAtSound(code, hits[k].start);
      ToPortOfMatch(code, hits[k]);
    }
  }

  /** Parsing fails with ModuleNotFound exactly when the module regex matches nowhere, ports or not. */
  lemma ParseModuleNotFound(code: string)
    ensures Parse(code) == Failure(ModuleNotFound) <==>
            forall i: nat, a: nat, w: nat :: !ModuleInstance(code, i, a, w)
  {
    match SearchModule(code, 0)
    case None =>
      forall i: nat, a: nat, w: nat | ModuleInstance(code, i, a, w) ensures false {
        SearchModuleMisses(code, 0, i);
        ModuleMatchAtComplete(code, i, a, w);
      }
    case Some(h) =>
      ModuleMatchAtSound(code, h.start);
      assert ModuleInstance(code, h.start, h.nameStart - h.start - 6, |h.name|);
  }

  /**
   * Parsing fails with NoPortsFound exactly when the module regex matches somewhere but the port
   * regex matches nowhere in the whole text.
   */
  lemma ParseNoPortsFound(code: string)
    ensures Parse(code) == Failure(NoPortsFound) <==>
            && (exists i: nat, a: nat, w: nat :: ModuleInstance(code, i, a, w))
            && (forall q: nat, d, a: nat, b: nat, c: nat, w: nat :: !PortInstance(code, q, d, a, b, c, w))
  {
    ParseModuleNotFound(code);
    var hits := Scan(code);
    if hits == [] {
      forall q: nat, d, a: nat, b: nat, c: nat, w: nat | PortInstance(code, q, d, a, b, c, w) ensures false {
        PortMatchAtComplete(code, q, d, a, b, c, w);
        var k := ScanCovers(code, q);
      }
    } else {
      ScanHitIsMatch(code, 0);
      PortMatchAtSound(code, hits[0].start);
      PortMatchWitness(code, hits[0]);
    }
  }

  /**
   * name is group 1 of the leftmost match of the module regex: the identifier after the blanks
   * that follow the first `module` keyword with a word boundary before it.
   */
  ghost predicate IsFirstModuleName(s: string, i: nat, a: nat, name: string) {
    && ModuleInstance(s, i, a, |name|)
    && s[i + 6 + a..i + 6 + a + |name|] == name
    && (i + 6 + a + |name| == |s| || !IsWordChar(s[i + 6 + a + |name|]))
    && forall j: nat, a': nat, w': nat :: j < i ==> !ModuleInstance(s, j, a', w')
  }

  /** The module search returns group 1 of the leftmost match of the module regex. */
  lemma SearchModuleFirst(s: string)
    requires SearchModule(s, 0).Some?
    ensures var h := SearchModule(s, 0).value;
      h.nameStart >= h.start + 6 && IsFirstModuleName(s, h.start, h.nameStart - h.start - 6, h.name)
  {
    var h := SearchModule(s, 0).value;
    ModuleMatchAtSound(s, h.start);
    NoModuleBefore(s, h.start);
  }

  /** No reading of the module regex starts before the match the search returns. */
  lemma NoModuleBefore(s: string, i: nat)
    requires SearchModule(s, 0).Some? && i == SearchModule(s, 0).value.start
    ensures forall j: nat, a: nat, w: nat :: j < i ==> !ModuleInstance(s, j, a, w)
  {
    forall j: nat, a: nat, w: nat | j < i && ModuleInstance(s, j, a, w) ensures false {
      SearchModuleMisses(s, 0, j);
      ModuleMatchAtComplete(s, j, a, w);
    }
  }

  /** A parse that gets past the module search names the module after the leftmost module match. */
  lemma ParseModuleName(code: string)
    requires Parse(code) != Failure(ModuleNotFound)
    ensures SearchModule(code, 0).Some?
    ensures exists i: nat, a: nat :: IsFirstModuleName(code, i, a, SearchModule(code, 0).value.name)
    ensures Parse(code).Success? ==> Parse(code).value.name == SearchModule(code, 0).value.name
  {
    SearchModuleFirst(code);
  }
}
