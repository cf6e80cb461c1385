/** Character classes and string helpers the generator relies on, read in ASCII. */
module Text {

  /** Python's `\w` restricted to ASCII: letters, digits and underscore. */
  predicate IsWordChar(c: char) {
    ('a' <= c <= 'z') || ('A' <= c <= 'Z') || ('0' <= c <= '9') || c == '_'
  }

  /**
   * Python's `\s` (and the blanks `str.strip` removes) restricted to ASCII: every ASCII character
   * `str.isspace` accepts, that is space, tab, newline, vertical tab, form feed, carriage return
   * and the four separators U+001C to U+001F.
   */
  predicate IsSpace(c: char) {
    c == ' ' || ('\t' <= c <= '\r') || ('\U{001C}' <= c <= '\U{001F}')
  }

  /** The character classes the two regular expressions use: `\w`, `\s` and `[^\]]`. */
  datatype CharClass = Word | Space | NotClose

  predicate InClass(c: char, cls: CharClass) {
    match cls
    case Word => IsWordChar(c)
    case Space => IsSpace(c)
    case NotClose => c != ']'
  }

  /** Every character of s[lo..hi] is in class cls. */
  ghost predicate AllIn(s: string, lo: nat, hi: nat, cls: CharClass)
    requires lo <= hi <= |s|
  {
    forall k :: lo <= k < hi ==> InClass(s[k], cls)
  }

  /** End of the longest run of characters of class cls that starts at i (what a greedy `X*` consumes). */
  function RunEnd(s: string, i: nat, cls: CharClass): (e: nat)
    requires i <= |s|
    ensures i <= e <= |s|
    ensures AllIn(s, i, e, cls)
    ensures e == |s| || !InClass(s[e], cls)
    decreases |s| - i
  {
    if i < |s| && InClass(s[i], cls) then RunEnd(s, i + 1, cls) else i
  }

  /** A run of class characters from i is never longer than the greedy run. */
  lemma RunEndBound(s: string, i: nat, n: nat, cls: CharClass)
    requires i + n <= |s| && AllIn(s, i, i + n, cls)
    ensures i + n <= RunEnd(s, i, cls)
  {
  }

  /** A run of class characters that stops at a non-member (or the end) is the greedy run. */
  lemma RunEndExact(s: string, i: nat, n: nat, cls: CharClass)
    requires i + n <= |s| && AllIn(s, i, i + n, cls)
    requires i + n == |s| || !InClass(s[i + n], cls)
    ensures RunEnd(s, i, cls) == i + n
  {
  }

  /** Start of the longest run of word characters that ends at e (where `\w+$` begins). */
  function WordStartBefore(s: string, e: nat): (b: nat)
    requires e <= |s|
    ensures b <= e
    ensures AllIn(s, b, e, Word)
    ensures b == 0 || !IsWordChar(s[b - 1])
  {
    if e > 0 && IsWordChar(s[e - 1]) then WordStartBefore(s, e - 1) else e
  }

  /** A run of word characters ending at e that a non-word character (or the start) precedes is the longest one. */
  lemma WordStartExact(s: string, b: nat, e: nat)
    requires b <= e <= |s| && AllIn(s, b, e, Word)
    requires b == 0 || !IsWordChar(s[b - 1])
    ensures WordStartBefore(s, e) == b
  {
  }

  /**
   * The name taken from a port match by searching for a word at the end: the longest run of word characters
   * at the end of body (empty where Python would find no match).
   */
  function TrailingWord(body: string): string {
    body[WordStartBefore(body, |body|)..]
  }

  /** The trailing word is a suffix made of word characters that a non-word character (or nothing) precedes. */
  lemma TrailingWordSound(body: string)
    ensures var w := TrailingWord(body);
      && |w| <= |body| && w == body[|body| - |w|..]
      && (forall k :: 0 <= k < |w| ==> IsWordChar(w[k]))
      && (|w| == |body| || !IsWordChar(body[|body| - |w| - 1]))
  {
  }

  /** Python's `str.strip()` on ASCII whitespace: drop leading and trailing blanks. */
  function Strip(t: string): string {
    var i := RunEnd(t, 0, Space);
    var j := if i == |t| then i else StripEnd(t, i);
    t[i..j]
  }

  /** Stripping removes blanks only, and only from the two ends: what is left neither starts nor ends with one. */
  lemma StripSound(t: string)
    ensures var r := Strip(t);
      && (exists i, j :: 0 <= i <= j <= |t| && r == t[i..j] && AllIn(t, 0, i, Space) && AllIn(t, j, |t|, Space))
      && (r == [] || (!IsSpace(r[0]) && !IsSpace(r[|r| - 1])))
  {
    var i := RunEnd(t, 0, Space);
    var j := if i == |t| then i else StripEnd(t, i);
    assert Strip(t) == t[i..j];
  }

  /** End of t once trailing blanks are dropped, never before i, where t[i] is not a blank. */
  function StripEnd(t: string, i: nat): (j: nat)
    requires i < |t| && !IsSpace(t[i])
    ensures i < j <= |t| && !IsSpace(t[j - 1]) && AllIn(t, j, |t|, Space)
    decreases |t|
  {
    if IsSpace(t[|t| - 1]) then StripEnd(t[..|t| - 1], i) else |t|
  }

  /** Stripping leaves a token that begins and ends with a non-blank untouched. */
  lemma StripKeepsToken(t: string)
    requires t != [] && !IsSpace(t[0]) && !IsSpace(t[|t| - 1])
    ensures Strip(t) == t
  {
  }

  /** ASCII `str.lower()` on one character. */
  function Lower(c: char): (l: char)
    ensures 'A' <= c <= 'Z' ==> l as int == c as int + 32
    ensures !('A' <= c <= 'Z') ==> l == c
  {
    if 'A' <= c <= 'Z' then (c as int + 32) as char else c
  }

  /** ASCII `str.lower()`. */
  function LowerString(s: string): (l: string)
    ensures |l| == |s| && forall k :: 0 <= k < |s| ==> l[k] == Lower(s[k])
  {
    seq(|s|, k requires 0 <= k < |s| => Lower(s[k]))
  }

  /** The name, lower-cased, starts with prefix. */
  predicate StartsWithIgnoringCase(name: string, prefix: string) {
    prefix <= LowerString(name)
  }

  /**
   * For a prefix of lower-case letters, the lower-cased name starts with it exactly when each of
   * the name's first characters is that letter in lower or upper case.
   */
  lemma StartsWithIgnoringCaseIff(name: string, prefix: string)
    requires forall k :: 0 <= k < |prefix| ==> 'a' <= prefix[k] <= 'z'
    ensures StartsWithIgnoringCase(name, prefix) <==>
            && |prefix| <= |name|
            && forall k :: 0 <= k < |prefix| ==>
                 name[k] == prefix[k] || name[k] as int == prefix[k] as int - 32
  {
    var lowered := LowerString(name);
    if |prefix| <= |name| {
      assert prefix <= lowered <==> prefix == lowered[..|prefix|];
    }
  }

  /** `s.endswith(tail)`. */
  predicate EndsWith(s: string, tail: string) {
    |tail| <= |s| && s[|s| - |tail|..] == tail
  }

  /** `"\n".join(lines)`. */
  function JoinLines(lines: seq<string>): string {
    if |lines| == 0 then ""
    else if |lines| == 1 then lines[0]
    else lines[0] + "\n" + JoinLines(lines[1..])
  }

  /** The joined text is empty for no lines, and otherwise starts with the first line and ends with the last. */
  lemma {:induction false} JoinLinesEnds(lines: seq<string>)
    ensures lines == [] ==> JoinLines(lines) == ""
    ensures lines != [] ==> lines[0] <= JoinLines(lines)
    ensures lines != [] ==> EndsWith(JoinLines(lines), lines[|lines| - 1])
    decreases |lines|
  {
    if |lines| > 1 {
      var rest := lines[1..];
      JoinLinesEnds(rest);
      var text := JoinLines(lines);
      var tail := JoinLines(rest);
      assert text == (lines[0] + "\n") + tail;
      assert rest[|rest| - 1] == lines[|lines| - 1];
      assert text[|text| - |tail|..] == tail;
    }
  }

  /** Joining two non-empty blocks of lines puts exactly one newline between them. */
  lemma {:induction false} JoinLinesAppend(a: seq<string>, b: seq<string>)
    requires a != [] && b != []
    ensures JoinLines(a + b) == JoinLines(a) + "\n" + JoinLines(b)
    decreases |a|
  {
    if |a| == 1 {
      assert (a + b)[1..] == b;
    } else {
      assert (a + b)[1..] == a[1..] + b;
      JoinLinesAppend(a[1..], b);
    }
  }
}
