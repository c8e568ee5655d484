/**
 * The record pattern shared by all three scripts,
 *
 *     name\[(\d+)\]:\s*"([^"]+)"
 *
 * written out as a hand-made scanner instead of a regular-expression engine.
 * `MatchAt` tries the pattern at the start of a string; `Scan` walks a text
 * from left to right the way `re.findall` and `re.sub` do: after a match it
 * resumes right after the match, after a failed attempt one character later.
 */
module SiiPattern {
  import opened Wrappers

  /** `\d`: an ASCII decimal digit. */
  predicate IsDigit(c: char) {
    '0' <= c <= '9'
  }

  /** `\s` on a `str` pattern: the characters for which Python's `str.isspace()` holds. */
  predicate IsSpace(c: char) {
    var n := c as int;
    (0x09 <= n <= 0x0D) || (0x1C <= n <= 0x20) || n == 0x85 || n == 0xA0 || n == 0x1680
    || (0x2000 <= n <= 0x200A) || n == 0x2028 || n == 0x2029 || n == 0x202F || n == 0x205F
    || n == 0x3000
  }

  /** The three character classes the pattern repeats. */
  datatype CharClass = Digit | Space | NonQuote

  predicate InClass(k: CharClass, c: char) {
    match k
    case Digit => IsDigit(c)
    case Space => IsSpace(c)
    case NonQuote => c != '"'
  }

  predicate AllIn(k: CharClass, s: string) {
    forall i :: 0 <= i < |s| ==> InClass(k, s[i])
  }

  /**
   * Where a greedy `k*` started at position `i` of `s` stops: the first
   * position from `i` on that holds no class-`k` character, or the end.
   */
  function RunEnd(k: CharClass, s: string, i: nat): (j: nat)
    requires i <= |s|
    ensures i <= j <= |s|
    ensures forall p :: i <= p < j ==> InClass(k, s[p])
    ensures j < |s| ==> !InClass(k, s[j])
    decreases |s| - i
  {
    if i == |s| || !InClass(k, s[i]) then i else RunEnd(k, s, i + 1)
  }

  /** A run is determined by where the class ends. */
  lemma {:induction false} RunEndAt(k: CharClass, s: string, i: nat, j: nat)
    requires i <= j <= |s|
    requires forall p :: i <= p < j ==> InClass(k, s[p])
    requires j < |s| ==> !InClass(k, s[j])
    ensures RunEnd(k, s, i) == j
    decreases j - i
  {
    if i < j {
      RunEndAt(k, s, i + 1, j);
    }
  }

  /** The part `s[i..j]` a run spans is all in the class. */
  lemma RunSlice(k: CharClass, s: string, i: nat, j: nat)
    requires i <= j <= |s|
    requires forall p :: i <= p < j ==> InClass(k, s[p])
    ensures AllIn(k, s[i..j])
  {
    assert forall p :: 0 <= p < j - i ==> s[i..j][p] == s[i + p];
  }

  /**
   * One record matched by the pattern: the index digits (group 1), the
   * whitespace taken by `\s*` after the colon, and the value (group 2).
   */
  datatype Match = Match(digits: string, space: string, value: string)

  /** The text a match spans, `name[digits]:space"value"`. */
  function Source(m: Match): string {
    "name[" + m.digits + "]:" + m.space + "\"" + m.value + "\""
  }

  /** What the pattern allows in each part: digits, whitespace, a non-empty quote-free value. */
  predicate WellFormed(m: Match) {
    && |m.digits| > 0 && AllIn(Digit, m.digits)
    && AllIn(Space, m.space)
    && |m.value| > 0 && AllIn(NonQuote, m.value)
  }

  /** Declaratively, `m` is a match of the pattern at the start of `u`. */
  predicate IsMatchAt(u: string, m: Match) {
    WellFormed(m) && Source(m) <= u
  }

  /** Position of the opening quote inside `Source(m)`. */
  function QuotePos(m: Match): nat {
    7 + |m.digits| + |m.space|
  }

  /** The characters of `Source(m)`, position by position. */
  lemma SourceAt(m: Match)
    ensures |Source(m)| == QuotePos(m) + |m.value| + 2
    ensures Source(m)[..5] == "name["
    ensures Source(m)[5..5 + |m.digits|] == m.digits
    ensures Source(m)[5 + |m.digits|..7 + |m.digits|] == "]:"
    ensures Source(m)[7 + |m.digits|..QuotePos(m)] == m.space
    ensures Source(m)[QuotePos(m)] == '"'
    ensures Source(m)[QuotePos(m) + 1..QuotePos(m) + 1 + |m.value|] == m.value
    ensures Source(m)[QuotePos(m) + 1 + |m.value|] == '"'
  {
  }

  /**
   * Try the pattern at the start of `u`. Every greedy part is followed by a
   * character it cannot take, so no backtracking is ever needed: the digit
   * run must end at `]`, the whitespace run at `"`, the value run at `"`.
   */
  function MatchAt(u: string): Option<Match> {
    if |u| < 5 || u[..5] != "name[" then None
    else
      var a := RunEnd(Digit, u, 5);
      if a == 5 || |u| < a + 2 || u[a] != ']' || u[a + 1] != ':' then None
      else
        var b := RunEnd(Space, u, a + 2);
        if b == |u| || u[b] != '"' then None
        else
          var c := RunEnd(NonQuote, u, b + 1);
          if c == b + 1 || c == |u| then None
          else Some(Match(u[5..a], u[a + 2..b], u[b + 1..c]))
  }

  /** What the scanner finds is a match of the pattern. */
  lemma MatchAtSound(u: string)
    ensures MatchAt(u).Some? ==> IsMatchAt(u, MatchAt(u).value)
  {
    if MatchAt(u).Some? {
      var m := MatchAt(u).value;
      var a := RunEnd(Digit, u, 5);
      var b := RunEnd(Space, u, a + 2);
      var c := RunEnd(NonQuote, u, b + 1);
      RunSlice(Digit, u, 5, a);
      RunSlice(Space, u, a + 2, b);
      RunSlice(NonQuote, u, b + 1, c);
      SourceFromParts(u, m, a, b, c);
    }
  }

  /** The text of a match, assembled from its parts found in `u`. */
  lemma SourceFromParts(u: string, m: Match, a: nat, b: nat, c: nat)
    requires 5 <= a && a + 2 <= b < c < |u|
    requires u[..5] == "name[" && u[a] == ']' && u[a + 1] == ':' && u[b] == '"' && u[c] == '"'
    requires m == Match(u[5..a], u[a + 2..b], u[b + 1..c])
    ensures Source(m) <= u
  {
    assert u[..a] == u[..5] + u[5..a];
    assert u[..a + 2] == u[..a] + "]:";
    assert u[..b] == u[..a + 2] + u[a + 2..b];
    assert u[..b + 1] == u[..b] + "\"";
    assert u[..c] == u[..b + 1] + u[b + 1..c];
    assert u[..c + 1] == u[..c] + "\"";
  }

  /** The scanner finds every match there is: the pattern matches in at most one way. */
  lemma MatchAtComplete(u: string, m: Match)
    requires IsMatchAt(u, m)
    ensures MatchAt(u) == Some(m)
  {
    var a := 5 + |m.digits|;
    var b := QuotePos(m);
    DigitsPart(u, m);
    SpacePart(u, m);
    ValuePart(u, m);
    MatchAtFromParts(u, m, a, b, b + 1 + |m.value|);
  }

  /** The head `name[digits]:` of a match, read off the text that contains it. */
  lemma DigitsPart(u: string, m: Match)
    requires IsMatchAt(u, m)
    ensures 7 + |m.digits| <= |u|
    ensures u[..5] == "name[" && u[5..5 + |m.digits|] == m.digits
    ensures u[5 + |m.digits|] == ']' && u[6 + |m.digits|] == ':'
    ensures RunEnd(Digit, u, 5) == 5 + |m.digits|
  {
    SourceAt(m);
    var s := Source(m);
    var a := 5 + |m.digits|;
    assert u[..|s|] == s;
    assert u[..5] == s[..5];
    assert u[5..a] == s[5..a];
    assert u[a] == s[a..a + 2][0] && u[a + 1] == s[a..a + 2][1];
    PartRun(Digit, u, m.digits, 5);
  }

  /** The whitespace and the opening quote of a match. */
  lemma SpacePart(u: string, m: Match)
    requires IsMatchAt(u, m)
    ensures QuotePos(m) < |u|
    ensures u[7 + |m.digits|..QuotePos(m)] == m.space && u[QuotePos(m)] == '"'
    ensures RunEnd(Space, u, 7 + |m.digits|) == QuotePos(m)
  {
    SourceAt(m);
    var s := Source(m);
    var a := 7 + |m.digits|;
    var b := QuotePos(m);
    assert u[..|s|] == s;
    assert u[a..b] == s[a..b];
    assert u[b] == s[b];
    PartRun(Space, u, m.space, a);
  }

  /** The value and the closing quote of a match. */
  lemma ValuePart(u: string, m: Match)
    requires IsMatchAt(u, m)
    ensures QuotePos(m) + 1 + |m.value| < |u|
    ensures u[QuotePos(m) + 1..QuotePos(m) + 1 + |m.value|] == m.value
    ensures RunEnd(NonQuote, u, QuotePos(m) + 1) == QuotePos(m) + 1 + |m.value|
  {
    SourceAt(m);
    var s := Source(m);
    var b := QuotePos(m) + 1;
    var c := b + |m.value|;
    assert u[..|s|] == s;
    assert u[b..c] == s[b..c];
    assert u[c] == s[c];
    PartRun(NonQuote, u, m.value, b);
  }

  /** A part `x` of a match sitting at `i` in `u`, followed by a character outside its class, is a full run. */
  lemma PartRun(k: CharClass, u: string, x: string, i: nat)
    requires AllIn(k, x) && i + |x| < |u| && u[i..i + |x|] == x && !InClass(k, u[i + |x|])
    ensures RunEnd(k, u, i) == i + |x|
  {
    assert forall p :: i <= p < i + |x| ==> u[p] == x[p - i];
    RunEndAt(k, u, i, i + |x|);
  }

  /** The last step of `MatchAtComplete`, kept apart so that its context stays small. */
  lemma MatchAtFromParts(u: string, m: Match, a: nat, b: nat, c: nat)
    requires a == 5 + |m.digits| && b == a + 2 + |m.space| && c == b + 1 + |m.value|
    requires |m.digits| > 0 && |m.value| > 0 && c < |u|
    requires u[..5] == "name[" && u[a] == ']' && u[a + 1] == ':' && u[b] == '"'
    requires RunEnd(Digit, u, 5) == a && u[5..a] == m.digits
    requires RunEnd(Space, u, a + 2) == b && u[a + 2..b] == m.space
    requires RunEnd(NonQuote, u, b + 1) == c && u[b + 1..c] == m.value
    ensures MatchAt(u) == Some(m)
  {
  }

  /** A match survives whatever follows it. */
  lemma MatchSource(m: Match, rest: string)
    requires WellFormed(m)
    ensures MatchAt(Source(m) + rest) == Some(m)
  {
    MatchAtComplete(Source(m) + rest, m);
  }

  /** One step of the left-to-right scan: an untouched character or a whole record. */
  datatype Piece = Lit(c: char) | Rec(m: Match)

  function PieceText(p: Piece): string {
    match p
    case Lit(c) => [c]
    case Rec(m) => Source(m)
  }

  /** The text a sequence of pieces spans. */
  function SourceText(ps: seq<Piece>): string {
    if ps == [] then [] else PieceText(ps[0]) + SourceText(ps[1..])
  }

  /**
   * The scan `re.findall` and `re.sub` perform: leftmost, non-overlapping
   * matches; a failed attempt at a position resumes one character later.
   */
  function Scan(t: string): (ps: seq<Piece>)
    ensures SourceText(ps) == t
    ensures forall i :: 0 <= i < |ps| && ps[i].Rec? ==> WellFormed(ps[i].m)
    decreases |t|
  {
    if t == [] then []
    else
      MatchAtSound(t);
      match MatchAt(t)
      case Some(m) =>
        assert t == Source(m) + t[|Source(m)|..];
        [Rec(m)] + Scan(t[|Source(m)|..])
      case None =>
        assert t == [t[0]] + t[1..];
        [Lit(t[0])] + Scan(t[1..])
  }

  /** The records among a sequence of pieces, in order. */
  function RecordsOf(ps: seq<Piece>): seq<Match> {
    if ps == [] then []
    else (if ps[0].Rec? then [ps[0].m] else []) + RecordsOf(ps[1..])
  }

  /** The ordered record set of a text: what `re.findall(pattern, content)` returns. */
  function Records(t: string): seq<Match> {
    RecordsOf(Scan(t))
  }

  /** `Scan` and `Records` step by step: an untouched first character. */
  lemma ScanNone(t: string)
    requires t != [] && MatchAt(t) == None
    ensures Scan(t) == [Lit(t[0])] + Scan(t[1..])
    ensures Records(t) == Records(t[1..])
  {
    assert ([Lit(t[0])] + Scan(t[1..]))[1..] == Scan(t[1..]);
  }

  /** `Scan` and `Records` step by step: a record at the front. */
  lemma ScanSome(t: string, m: Match)
    requires MatchAt(t) == Some(m)
    ensures Scan(t) == [Rec(m)] + Scan(t[|Source(m)|..])
    ensures Records(t) == [m] + Records(t[|Source(m)|..])
  {
    assert ([Rec(m)] + Scan(t[|Source(m)|..]))[1..] == Scan(t[|Source(m)|..]);
  }

  /** Every record of a text is a well-formed match. */
  lemma RecordsWellFormed(t: string)
    ensures forall i :: 0 <= i < |Records(t)| ==> WellFormed(Records(t)[i])
  {
    PiecesWellFormed(Scan(t));
  }

  lemma {:induction false} PiecesWellFormed(ps: seq<Piece>)
    requires forall i :: 0 <= i < |ps| && ps[i].Rec? ==> WellFormed(ps[i].m)
    ensures forall i :: 0 <= i < |RecordsOf(ps)| ==> WellFormed(RecordsOf(ps)[i])
  {
    if ps != [] {
      assert forall i :: 0 <= i < |ps[1..]| && ps[1..][i].Rec? ==> WellFormed(ps[1..][i].m) by {
        forall i | 0 <= i < |ps[1..]| ensures ps[1..][i] == ps[i + 1] { }
      }
      PiecesWellFormed(ps[1..]);
    }
  }
}
