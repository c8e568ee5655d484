/**
 * scripts/add_driver_ids.py: prepend each driver's index to its name.
 *
 * `re.sub(pattern, replace_name, content)` becomes `Rewrite`: the scan of
 * `SiiPattern`, with every record passed through `ReplaceName` and every
 * other character copied. File access is reduced to two inputs: the text
 * read (or `None` when reading or decoding fails) and whether writing
 * the result succeeds.
 */
module AddDriverIds {
  import opened Wrappers
  import opened SiiPattern

  /** `re.match(r'^\d+\s*-\s*', v)`. The trailing `\s*` may take nothing, so it never decides. */
  predicate DashTagged(v: string) {
    var d := RunEnd(Digit, v, 0);
    var e := RunEnd(Space, v, d);
    d > 0 && e < |v| && v[e] == '-'
  }

  /** The dash shape by positions: digits before `n`, whitespace from `n` to `k`, a hyphen at `k`. */
  predicate DashAt(v: string, n: nat, k: nat) {
    && 0 < n <= k < |v|
    && (forall p :: 0 <= p < n ==> IsDigit(v[p]))
    && (forall p :: n <= p < k ==> IsSpace(v[p]))
    && v[k] == '-'
  }

  /** `re.match(r'^\[\d+\]', v)`. */
  predicate BracketTagged(v: string) {
    |v| > 0 && v[0] == '[' && var e := RunEnd(Digit, v, 1); e > 1 && e < |v| && v[e] == ']'
  }

  /** The bracket shape by positions: `[`, digits from 1 to `n`, `]` at `n`. */
  predicate BracketAt(v: string, n: nat) {
    1 < n < |v| && v[0] == '[' && (forall p :: 1 <= p < n ==> IsDigit(v[p])) && v[n] == ']'
  }

  /** The guard of `replace_name`: a value it leaves alone. */
  predicate AlreadyTagged(v: string) {
    DashTagged(v) || BracketTagged(v)
  }

  lemma DashAtTagged(v: string, n: nat, k: nat)
    requires DashAt(v, n, k)
    ensures DashTagged(v)
  {
    RunEndAt(Digit, v, 0, n);
    RunEndAt(Space, v, n, k);
  }

  /** Both directions: the scanner-style test is exactly the positional shape. */
  lemma DashTaggedIff(v: string)
    ensures DashTagged(v) <==> exists n: nat, k: nat :: DashAt(v, n, k)
  {
    if DashTagged(v) {
      var d := RunEnd(Digit, v, 0);
      assert DashAt(v, d, RunEnd(Space, v, d));
    }
    forall n: nat, k: nat | DashAt(v, n, k) ensures DashTagged(v) {
      DashAtTagged(v, n, k);
    }
  }

  /** Both directions for the bracket test. */
  lemma BracketTaggedIff(v: string)
    ensures BracketTagged(v) <==> exists n: nat :: BracketAt(v, n)
  {
    if BracketTagged(v) {
      assert BracketAt(v, RunEnd(Digit, v, 1));
    }
    forall n: nat | BracketAt(v, n) ensures BracketTagged(v) {
      RunEndAt(Digit, v, 1, n);
    }
  }

  /**
   * A `format_string` already split into literal text and the two fields
   * `{index}` and `{name}`.
   */
  datatype Field = Literal(text: string) | IndexField | NameField

  type Template = seq<Field>

  /** The default `"{index} - {name}"`. */
  const DefaultTemplate: Template := [IndexField, Literal(" - "), NameField]

  /** `format_string.format(index=index, name=name)`. */
  function Format(tpl: Template, index: string, name: string): string {
    if tpl == [] then []
    else
      (match tpl[0]
       case Literal(s) => s
       case IndexField => index
       case NameField => name)
      + Format(tpl[1..], index, name)
  }

  /** The default template renders as `index + " - " + name`. */
  lemma DefaultFormat(index: string, name: string)
    ensures Format(DefaultTemplate, index, name) == index + " - " + name
  {
    var tpl := DefaultTemplate;
    assert tpl[1..][1..][1..] == [];
    assert Format(tpl[1..][1..], index, name) == name;
    assert Format(tpl[1..], index, name) == " - " + name;
  }

  /** The callback `replace_name`: what one matched record becomes. */
  function ReplaceName(m: Match, tpl: Template): string {
    if AlreadyTagged(m.value) then Source(m)
    else "name[" + m.digits + "]: \"" + Format(tpl, m.digits, m.value) + "\""
  }

  /** What a sequence of scanned pieces becomes: records replaced, other characters copied. */
  function Emit(ps: seq<Piece>, tpl: Template): string {
    if ps == [] then []
    else
      (match ps[0]
       case Lit(c) => [c]
       case Rec(m) => ReplaceName(m, tpl))
      + Emit(ps[1..], tpl)
  }

  /** `re.sub(pattern, replace_name, content)`. */
  function Rewrite(t: string, tpl: Template): string {
    Emit(Scan(t), tpl)
  }

  /** `len([m for m in matches if not re.match(r'^\d+\s*-\s*', m[1])])`, by last element. */
  function ModifiedCount(recs: seq<Match>): (n: nat)
    ensures n <= |recs|
    ensures n == |UntaggedPositions(recs)|
  {
    if recs == [] then 0
    else
      var k := |recs| - 1;
      var pre := recs[..k];
      assert UntaggedPositions(recs)
          == UntaggedPositions(pre) + (if DashTagged(recs[k].value) then {} else {k});
      ModifiedCount(pre) + (if DashTagged(recs[k].value) then 0 else 1)
  }

  /** The positions of the records whose value lacks the `digits - ` prefix. */
  function UntaggedPositions(recs: seq<Match>): set<nat> {
    set i: nat | i < |recs| && !DashTagged(recs[i].value)
  }

  /** The counts `modify_driver_names_file` returns. */
  datatype Report = Report(success: bool, found: nat, modified: nat)

  /** The report, and the text written to the output file (`None` when nothing is written). */
  datatype Outcome = Outcome(report: Report, written: Option<string>)

  /**
   * `modify_driver_names_file`. `input` is the text read from the input
   * file, `None` when it cannot be opened or decoded; `writable` says
   * whether creating the directory and writing the output file succeed.
   */
  function ModifyDriverNamesFile(input: Option<string>, writable: bool, tpl: Template): (r: Outcome)
    ensures r.report.success <==> input.Some? && writable
    ensures !r.report.success ==> r.report == Report(false, 0, 0) && r.written == None
    ensures r.report.success ==>
      && r.report.found == |Records(input.value)|
      && r.report.modified == |UntaggedPositions(Records(input.value))|
      && r.written == Some(Rewrite(input.value, tpl))
    ensures r.report.modified <= r.report.found
  {
    match input
    case None => Outcome(Report(false, 0, 0), None)
    case Some(content) =>
      if !writable then Outcome(Report(false, 0, 0), None)
      else
        var matches := Records(content);
        Outcome(Report(true, |matches|, ModifiedCount(matches)), Some(Rewrite(content, tpl)))
  }

  // ---------------------------------------------------------------------
  // The rewrite, one step at a time

  lemma RewriteNone(t: string, tpl: Template)
    requires t != [] && MatchAt(t) == None
    ensures Rewrite(t, tpl) == [t[0]] + Rewrite(t[1..], tpl)
  {
    ScanNone(t);
    assert (Scan(t))[1..] == Scan(t[1..]);
  }

  lemma RewriteSome(t: string, m: Match, tpl: Template)
    requires MatchAt(t) == Some(m)
    ensures Rewrite(t, tpl) == ReplaceName(m, tpl) + Rewrite(t[|Source(m)|..], tpl)
  {
    ScanSome(t, m);
    assert (Scan(t))[1..] == Scan(t[|Source(m)|..]);
  }

  /** One record at the front of the text is replaced by `ReplaceName` and the rest rewritten on its own. */
  lemma RecordRewrite(m: Match, rest: string, tpl: Template)
    requires WellFormed(m)
    ensures Rewrite(Source(m) + rest, tpl) == ReplaceName(m, tpl) + Rewrite(rest, tpl)
  {
    MatchSource(m, rest);
    RewriteSome(Source(m) + rest, m, tpl);
    assert (Source(m) + rest)[|Source(m)|..] == rest;
  }

  /** A record already tagged is copied verbatim, its whitespace after the colon included. */
  lemma TaggedRecordKept(m: Match, rest: string, tpl: Template)
    requires WellFormed(m) && AlreadyTagged(m.value)
    ensures Rewrite(Source(m) + rest, tpl)
         == "name[" + m.digits + "]:" + m.space + "\"" + m.value + "\"" + Rewrite(rest, tpl)
  {
    RecordRewrite(m, rest, tpl);
  }

  /** Any other record gets `": "` after the colon and the formatted value, with the original digit string. */
  lemma UntaggedRecordTagged(m: Match, rest: string)
    requires WellFormed(m) && !AlreadyTagged(m.value)
    ensures Rewrite(Source(m) + rest, DefaultTemplate)
         == "name[" + m.digits + "]: \"" + (m.digits + " - " + m.value) + "\"" + Rewrite(rest, DefaultTemplate)
  {
    RecordRewrite(m, rest, DefaultTemplate);
    DefaultFormat(m.digits, m.value);
  }

  /** A text without records is copied unchanged. */
  lemma {:induction false} NoRecordsUnchanged(t: string, tpl: Template)
    ensures Records(t) == [] ==> Rewrite(t, tpl) == t
    decreases |t|
  {
    if t != [] {
      match MatchAt(t)
      case Some(m) =>
        ScanSome(t, m);
      case None =>
        ScanNone(t);
        RewriteNone(t, tpl);
        NoRecordsUnchanged(t[1..], tpl);
    }
  }

  // ---------------------------------------------------------------------
  // Text outside the records is preserved, in order

  lemma {:induction false} SourceTextAppend(a: seq<Piece>, b: seq<Piece>)
    ensures SourceText(a + b) == SourceText(a) + SourceText(b)
  {
    if a == [] {
      assert a + b == b;
    } else {
      assert (a + b)[0] == a[0];
      assert (a + b)[1..] == a[1..] + b;
      SourceTextAppend(a[1..], b);
    }
  }

  lemma {:induction false} EmitAppend(a: seq<Piece>, b: seq<Piece>, tpl: Template)
    ensures Emit(a + b, tpl) == Emit(a, tpl) + Emit(b, tpl)
  {
    if a == [] {
      assert a + b == b;
    } else {
      assert (a + b)[0] == a[0];
      assert (a + b)[1..] == a[1..] + b;
      EmitAppend(a[1..], b, tpl);
    }
  }

  /** Where piece `i` starts in the input. */
  function SourcePos(ps: seq<Piece>, i: nat): nat
    requires i <= |ps|
  {
    |SourceText(ps[..i])|
  }

  /** Where piece `i` starts in the output. */
  function EmitPos(ps: seq<Piece>, i: nat, tpl: Template): nat
    requires i <= |ps|
  {
    |Emit(ps[..i], tpl)|
  }

  /**
   * Every character outside the records is found unchanged in the output,
   * at the place where its piece is emitted.
   */
  lemma UnmatchedCharPreserved(t: string, tpl: Template, i: nat)
    requires i < |Scan(t)| && Scan(t)[i].Lit?
    ensures SourcePos(Scan(t), i) < |t| && t[SourcePos(Scan(t), i)] == Scan(t)[i].c
    ensures EmitPos(Scan(t), i, tpl) < |Rewrite(t, tpl)|
    ensures Rewrite(t, tpl)[EmitPos(Scan(t), i, tpl)] == Scan(t)[i].c
  {
    var ps := Scan(t);
    assert ps == ps[..i] + ps[i..];
    SourceTextAppend(ps[..i], ps[i..]);
    EmitAppend(ps[..i], ps[i..], tpl);
    assert ps[i..][0] == ps[i];
  }

  /** Pieces are emitted in their input order, each at least one character long. */
  lemma {:induction false} EmitPosIncreasing(ps: seq<Piece>, i: nat, j: nat, tpl: Template)
    requires i < j <= |ps|
    ensures EmitPos(ps, i, tpl) < EmitPos(ps, j, tpl)
    decreases j - i
  {
    assert ps[..j] == ps[..j - 1] + [ps[j - 1]];
    EmitAppend(ps[..j - 1], [ps[j - 1]], tpl);
    if i < j - 1 {
      EmitPosIncreasing(ps, i, j - 1, tpl);
    }
  }

  // ---------------------------------------------------------------------
  // Idempotence of the default rewrite

  /** A record's text up to and including its opening quote. */
  function Head(m: Match): string {
    "name[" + m.digits + "]:" + m.space + "\""
  }

  lemma HeadOf(m: Match)
    ensures Source(m) == Head(m) + m.value + "\""
    ensures |Head(m)| == QuotePos(m) + 1
  {
  }

  /** Source(m) has no `n` between its first character and its opening quote. */
  lemma HeadHasNoN(m: Match, j: nat)
    requires WellFormed(m)
    ensures 1 <= j <= QuotePos(m) ==> Source(m)[j] != 'n'
  {
    SourceAt(m);
    var a := 5 + |m.digits|;
    if 1 <= j < 5 {
      assert Source(m)[j] == Source(m)[..5][j];
    } else if 5 <= j < a {
      assert Source(m)[j] == Source(m)[5..a][j - 5];
      assert IsDigit(m.digits[j - 5]);
    } else if a <= j < a + 2 {
      assert Source(m)[j] == Source(m)[a..a + 2][j - a];
    } else if a + 2 <= j < QuotePos(m) {
      assert Source(m)[j] == Source(m)[a + 2..QuotePos(m)][j - a - 2];
      assert IsSpace(m.space[j - a - 2]);
    }
  }

  /** A match at the start of `u` has its opening quote before any later `n`. */
  lemma QuoteBefore(u: string, m: Match, k: nat)
    requires IsMatchAt(u, m) && 0 < k < |u| && u[k] == 'n'
    ensures QuotePos(m) < k
  {
    HeadHasNoN(m, k);
    SourceAt(m);
    if k < |Source(m)| {
      assert Source(m)[k] == u[..|Source(m)|][k];
    }
  }

  /**
   * A match at the start of `u` whose value reaches position `a` closes at
   * the first quote from `a` on.
   */
  lemma ClosingQuote(u: string, m: Match, a: nat, k: nat)
    requires IsMatchAt(u, m) && QuotePos(m) < a <= QuotePos(m) + 1 + |m.value|
    requires a <= k < |u| && u[k] == '"'
    requires forall j :: a <= j < k ==> u[j] != '"'
    ensures QuotePos(m) + 1 + |m.value| == k
  {
    SourceAt(m);
    var s := Source(m);
    var q := QuotePos(m);
    var c := q + 1 + |m.value|;
    assert u[c] == s[c];
    assert forall j :: q < j < c ==> u[j] == m.value[j - q - 1] by {
      forall j | q < j < c ensures u[j] == m.value[j - q - 1] {
        assert u[j] == s[j] == s[q + 1..c][j - q - 1];
      }
    }
  }

  lemma Regroup(h: string, a: string, b: string, c: string)
    ensures h + (a + "\"" + b + c) == h + a + "\"" + (b + c)
  {
  }

  /**
   * The match found at the start of `h + p2 + "\"" + z` opens its quote
   * inside `h` and closes it within `h`: the same match starts `h + p1 + "\"" + y`.
   */
  lemma SwapShort(h: string, p1: string, y: string, p2: string, z: string, m0: Match)
    requires IsMatchAt(h + p2 + "\"" + z, m0) && |Source(m0)| <= |h|
    ensures MatchAt(h + p1 + "\"" + y).Some?
  {
    var u := h + p2 + "\"" + z;
    var t := h + p1 + "\"" + y;
    var n := |Source(m0)|;
    assert u[..n] == h[..n] == t[..n];
    MatchAtComplete(t, m0);
  }

  /**
   * The match found at the start of `h + p2 + "\"" + z` opens its quote
   * inside `h` and its value runs past `h`: its value then ends at the quote
   * after `p2`, and with `p1` in place of `p2` a match is found as well.
   */
  lemma SwapLong(h: string, p1: string, y: string, p2: string, z: string, m0: Match)
    requires |p1| > 0 && AllIn(NonQuote, p1) && AllIn(NonQuote, p2)
    requires IsMatchAt(h + p2 + "\"" + z, m0)
    requires QuotePos(m0) < |h| <= QuotePos(m0) + 1 + |m0.value|
    ensures MatchAt(h + p1 + "\"" + y).Some?
  {
    var u := h + p2 + "\"" + z;
    var q := QuotePos(m0);
    assert forall j :: |h| <= j < |h| + |p2| ==> u[j] == p2[j - |h|];
    assert u[|h| + |p2|] == '"';
    ClosingQuote(u, m0, |h|, |h| + |p2|);
    HeadOf(m0);
    var s := Source(m0);
    assert s == u[..|s|];
    var g := h[q + 1..];
    assert h[..q + 1] == Head(m0) by {
      assert h[..q + 1] == u[..q + 1] == s[..q + 1];
    }
    assert AllIn(NonQuote, g) by {
      forall j | 0 <= j < |g| ensures g[j] != '"' {
        assert g[j] == u[q + 1 + j] == s[q + 1 + j] == m0.value[j];
      }
    }
    var m1 := Match(m0.digits, m0.space, g + p1);
    assert WellFormed(m1);
    SwapLongSource(h, g, p1, y, Head(m0), m1);
    MatchAtComplete(h + p1 + "\"" + y, m1);
  }

  lemma SwapLongSource(h: string, g: string, p1: string, y: string, hd: string, m1: Match)
    requires h == hd + g && hd == Head(m1) && m1.value == g + p1
    ensures h + p1 + "\"" + y == Source(m1) + y
  {
    HeadOf(m1);
  }

  /**
   * If the pattern matches at the start of `h + p2 + "\"" + z`, where the
   * nonempty `h` is followed by a quote-free `p2` starting with `n`, it also
   * matches at the start of `h + p1 + "\"" + y` for any nonempty quote-free
   * `p1`: the match cannot begin inside `p2`, so its value either closes
   * within `h` or runs up to the quote after `p2`.
   */
  lemma HeadSwap(h: string, p1: string, y: string, p2: string, z: string)
    requires |h| > 0 && |p1| > 0 && |p2| > 0 && p2[0] == 'n'
    requires AllIn(NonQuote, p1) && AllIn(NonQuote, p2)
    ensures MatchAt(h + p2 + "\"" + z).Some? ==> MatchAt(h + p1 + "\"" + y).Some?
  {
    var u := h + p2 + "\"" + z;
    if MatchAt(u).Some? {
      MatchAtSound(u);
      var m0 := MatchAt(u).value;
      assert u[|h|] == p2[0];
      QuoteBefore(u, m0, |h|);
      SourceAt(m0);
      if |Source(m0)| <= |h| {
        SwapShort(h, p1, y, p2, z, m0);
      } else {
        SwapLong(h, p1, y, p2, z, m0);
      }
    }
  }

  /** The text of a record before its opening quote. */
  function OpenText(m: Match): string {
    "name[" + m.digits + "]:" + m.space
  }

  /** The same for what `ReplaceName` emits. */
  function RenderHead(m: Match, tpl: Template): string {
    if AlreadyTagged(m.value) then OpenText(m) else "name[" + m.digits + "]: "
  }

  /** What `ReplaceName` emits after the opening quote. */
  function RenderTail(m: Match, tpl: Template): string {
    if AlreadyTagged(m.value) then m.value + "\"" else Format(tpl, m.digits, m.value) + "\""
  }

  lemma OpenTextQuoteFree(m: Match)
    requires WellFormed(m)
    ensures |OpenText(m)| > 0 && OpenText(m)[0] == 'n' && AllIn(NonQuote, OpenText(m))
  {
    var pre := "name[" + m.digits + "]:";
    var p := OpenText(m);
    assert forall j :: 5 <= j < 5 + |m.digits| ==> pre[j] == m.digits[j - 5] && IsDigit(m.digits[j - 5]);
    assert forall j :: |pre| <= j < |p| ==> p[j] == m.space[j - |pre|] && IsSpace(m.space[j - |pre|]);
  }

  lemma RenderSplit(m: Match, tpl: Template)
    requires WellFormed(m)
    ensures ReplaceName(m, tpl) == RenderHead(m, tpl) + "\"" + RenderTail(m, tpl)
    ensures Source(m) == OpenText(m) + "\"" + (m.value + "\"")
    ensures |RenderHead(m, tpl)| > 0 && RenderHead(m, tpl)[0] == 'n'
    ensures AllIn(NonQuote, RenderHead(m, tpl)) && AllIn(NonQuote, OpenText(m))
  {
    OpenTextQuoteFree(m);
    if !AlreadyTagged(m.value) {
      var r := RenderHead(m, tpl);
      assert forall j :: 5 <= j < 5 + |m.digits| ==> r[j] == m.digits[j - 5] && IsDigit(m.digits[j - 5]);
    }
  }

  /**
   * No match appears in front of a rewritten text when none was there in
   * front of the original: by induction over the rewrite of `s`.
   */
  lemma {:induction false} NoMatchSurvivesRewrite(h: string, s: string, tpl: Template)
    requires |h| > 0 && MatchAt(h + s) == None
    ensures MatchAt(h + Rewrite(s, tpl)) == None
    decreases |s|
  {
    if s == [] {
      assert Rewrite(s, tpl) == [];
      assert h + s == h + Rewrite(s, tpl);
    } else {
      match MatchAt(s)
      case None =>
        SurvivesChar(h, s, tpl);
        NoMatchSurvivesRewrite(h + [s[0]], s[1..], tpl);
      case Some(m) =>
        MatchAtSound(s);
        SurvivesRecord(h, s, m, tpl);
    }
  }

  /** The step of `NoMatchSurvivesRewrite` for a character outside the records: it moves into `h`. */
  lemma SurvivesChar(h: string, s: string, tpl: Template)
    requires s != [] && MatchAt(s) == None
    ensures h + s == (h + [s[0]]) + s[1..]
    ensures h + Rewrite(s, tpl) == (h + [s[0]]) + Rewrite(s[1..], tpl)
  {
    RewriteNone(s, tpl);
    ShiftChar(h, s[0], s[1..]);
    ShiftChar(h, s[0], Rewrite(s[1..], tpl));
    assert s == [s[0]] + s[1..];
  }

  lemma ShiftChar(h: string, c: char, r: string)
    ensures h + ([c] + r) == (h + [c]) + r
  {
  }

  /** The step of `NoMatchSurvivesRewrite` for a record at the start of `s`. */
  lemma SurvivesRecord(h: string, s: string, m: Match, tpl: Template)
    requires |h| > 0 && MatchAt(h + s) == None && MatchAt(s) == Some(m) && IsMatchAt(s, m)
    ensures MatchAt(h + Rewrite(s, tpl)) == None
  {
    RewriteSome(s, m, tpl);
    RenderSplit(m, tpl);
    var rest := s[|Source(m)|..];
    var x := Rewrite(rest, tpl);
    assert s == Source(m) + rest;
    Regroup(h, OpenText(m), m.value + "\"", rest);
    Regroup(h, RenderHead(m, tpl), RenderTail(m, tpl), x);
    HeadSwap(h, OpenText(m), m.value + "\"" + rest, RenderHead(m, tpl), RenderTail(m, tpl) + x);
  }

  /** The record that the default rewrite of `m` reads as, on a second pass. */
  function Rendered(m: Match): Match {
    if AlreadyTagged(m.value) then m
    else Match(m.digits, " ", m.digits + " - " + m.value)
  }

  /** The value `"{index} - {name}"` renders to is well formed and dash-tagged. */
  lemma TaggedValue(d: string, v: string)
    requires |d| > 0 && AllIn(Digit, d) && |v| > 0 && AllIn(NonQuote, v)
    ensures AllIn(NonQuote, d + " - " + v) && DashTagged(d + " - " + v)
  {
    var tv := d + " - " + v;
    assert forall p :: 0 <= p < |d| ==> tv[p] == d[p] && IsDigit(d[p]);
    assert tv[|d|] == ' ' && tv[|d| + 1] == '-';
    DashAtTagged(tv, |d|, |d| + 1);
    forall j | 0 <= j < |tv| ensures tv[j] != '"' {
      if j < |d| {
        assert tv[j] == d[j];
        assert IsDigit(d[j]);
      } else if j >= |d| + 3 {
        assert tv[j] == v[j - |d| - 3];
      }
    }
  }

  lemma RenderedSource(d: string, f: string)
    ensures Source(Match(d, " ", f)) == "name[" + d + "]: \"" + f + "\""
  {
  }

  /** What the default rewrite emits for a record is itself a record, and one that is already tagged. */
  lemma RenderedIsStable(m: Match, x: string)
    requires WellFormed(m)
    ensures Source(Rendered(m)) == ReplaceName(m, DefaultTemplate)
    ensures WellFormed(Rendered(m)) && AlreadyTagged(Rendered(m).value)
    ensures MatchAt(ReplaceName(m, DefaultTemplate) + x) == Some(Rendered(m))
  {
    var r := Rendered(m);
    if !AlreadyTagged(m.value) {
      DefaultFormat(m.digits, m.value);
      TaggedValue(m.digits, m.value);
      RenderedSource(m.digits, r.value);
      assert AllIn(Space, r.space) by {
        assert r.space[0] == ' ';
      }
    }
    MatchSource(r, x);
  }

  /** Running the default rewrite on its own output changes nothing. */
  lemma {:induction false} RewriteIdempotent(t: string)
    ensures Rewrite(Rewrite(t, DefaultTemplate), DefaultTemplate) == Rewrite(t, DefaultTemplate)
    decreases |t|
  {
    var tpl := DefaultTemplate;
    if t == [] {
      assert Rewrite(t, tpl) == [];
    } else {
      match MatchAt(t)
      case None =>
        RewriteNone(t, tpl);
        assert t == [t[0]] + t[1..];
        NoMatchSurvivesRewrite([t[0]], t[1..], tpl);
        var r := Rewrite(t, tpl);
        assert r[1..] == Rewrite(t[1..], tpl);
        RewriteNone(r, tpl);
        RewriteIdempotent(t[1..]);
      case Some(m) =>
        MatchAtSound(t);
        RewriteSome(t, m, tpl);
        var rest := t[|Source(m)|..];
        var x := Rewrite(rest, tpl);
        RenderedIsStable(m, x);
        var r := Rewrite(t, tpl);
        RewriteSome(r, Rendered(m), tpl);
        assert r[|Source(Rendered(m))|..] == x;
        RewriteIdempotent(rest);
    }
  }

  // ---------------------------------------------------------------------
  // The documented examples

  /** A file that holds one record: one match found, modified unless dash-tagged. */
  lemma SingleRecordFile(m: Match, tpl: Template)
    requires WellFormed(m)
    ensures ModifyDriverNamesFile(Some(Source(m)), true, tpl)
         == Outcome(Report(true, 1, if DashTagged(m.value) then 0 else 1), Some(ReplaceName(m, tpl)))
  {
    OneRecord(m);
    RecordRewrite(m, "", tpl);
    assert Source(m) + "" == Source(m);
    assert Rewrite("", tpl) == [];
    assert ReplaceName(m, tpl) + [] == ReplaceName(m, tpl);
    assert [m][..0] == [];
  }

  /** `name[152]: "Felix"` becomes `name[152]: "152 - Felix"`, one record found and modified. */
  lemma FelixExample(text: string)
    requires text == "name[152]: \"Felix\""
    ensures ModifyDriverNamesFile(Some(text), true, DefaultTemplate)
         == Outcome(Report(true, 1, 1), Some("name[152]: \"152 - Felix\""))
  {
    var m := Match("152", " ", "Felix");
    FelixParts(m);
    FelixRendered(m);
    SingleRecordFile(m, DefaultTemplate);
  }

  lemma FelixParts(m: Match)
    requires m == Match("152", " ", "Felix")
    ensures Source(m) == "name[152]: \"Felix\"" && WellFormed(m)
    ensures !AlreadyTagged(m.value) && !DashTagged(m.value)
  {
    assert RunEnd(Digit, m.value, 0) == 0;
  }

  lemma FelixRendered(m: Match)
    requires m == Match("152", " ", "Felix") && !AlreadyTagged(m.value)
    ensures ReplaceName(m, DefaultTemplate) == "name[152]: \"152 - Felix\""
  {
    DefaultFormat(m.digits, m.value);
  }

  /** `name[7]: "7 - Alex"` is left alone and counted as found but not modified. */
  lemma DashTaggedExample(text: string)
    requires text == "name[7]: \"7 - Alex\""
    ensures ModifyDriverNamesFile(Some(text), true, DefaultTemplate)
         == Outcome(Report(true, 1, 0), Some(text))
  {
    var m := Match("7", " ", "7 - Alex");
    DashParts(m);
    SingleRecordFile(m, DefaultTemplate);
  }

  lemma DashParts(m: Match)
    requires m == Match("7", " ", "7 - Alex")
    ensures Source(m) == "name[7]: \"7 - Alex\"" && WellFormed(m)
    ensures DashTagged(m.value)
  {
    DashAtTagged(m.value, 1, 2);
  }

  /**
   * `name[9]: "[9] Alex"` is left alone too, yet counted as modified: the
   * count tests only the dash shape, the rewrite tests both shapes.
   */
  lemma BracketTaggedCountedAsModified(text: string)
    requires text == "name[9]: \"[9] Alex\""
    ensures ModifyDriverNamesFile(Some(text), true, DefaultTemplate)
         == Outcome(Report(true, 1, 1), Some(text))
  {
    var m := Match("9", " ", "[9] Alex");
    assert Source(m) == text;
    assert WellFormed(m);
    BracketParts(m);
    SingleRecordFile(m, DefaultTemplate);
  }

  lemma BracketParts(m: Match)
    requires m == Match("9", " ", "[9] Alex")
    ensures BracketTagged(m.value) && !DashTagged(m.value)
  {
    RunEndAt(Digit, m.value, 1, 2);
    assert RunEnd(Digit, m.value, 0) == 0;
  }

  /** A text that is exactly one record has that record as its only match. */
  lemma OneRecord(m: Match)
    requires WellFormed(m)
    ensures Records(Source(m)) == [m]
  {
    MatchSource(m, "");
    assert Source(m) + "" == Source(m);
    ScanSome(Source(m), m);
    assert Source(m)[|Source(m)|..] == "";
  }

  // ---------------------------------------------------------------------
  // The count of records the rewrite changes

  /** The positions of the records `replace_name` leaves alone. */
  function KeptPositions(recs: seq<Match>): set<nat> {
    set i: nat | i < |recs| && AlreadyTagged(recs[i].value)
  }

  /** The positions of the records whose default rewrite differs from their text. */
  function ChangedPositions(recs: seq<Match>): set<nat> {
    set i: nat | i < |recs| && ReplaceName(recs[i], DefaultTemplate) != Source(recs[i])
  }

  /** The number of records `replace_name` rewrites: neither guard holds. */
  function ChangedCount(recs: seq<Match>): (n: nat)
    ensures n + |KeptPositions(recs)| == |recs|
  {
    if recs == [] then 0
    else
      var k := |recs| - 1;
      var pre := recs[..k];
      assert KeptPositions(recs)
          == KeptPositions(pre) + (if AlreadyTagged(recs[k].value) then {k} else {});
      ChangedCount(pre) + (if AlreadyTagged(recs[k].value) then 0 else 1)
  }

  /** A well-formed record changes under the default rewrite exactly when neither guard holds. */
  lemma ReplaceNameChanges(m: Match)
    requires WellFormed(m)
    ensures ReplaceName(m, DefaultTemplate) != Source(m) <==> !AlreadyTagged(m.value)
  {
    if !AlreadyTagged(m.value) {
      DefaultFormat(m.digits, m.value);
      var r := "name[" + m.digits + "]: \"" + (m.digits + " - " + m.value) + "\"";
      assert ReplaceName(m, DefaultTemplate) == r;
      SourceAt(m);
      if |m.space| == 0 {
        NoSpaceDiffers(m, r);
      } else if |m.space| == 1 {
        assert |r| != |Source(m)|;
      } else {
        SpacesDiffer(m, r);
      }
    }
  }

  /** Without whitespace after the colon the quote comes where the rewrite puts a space. */
  lemma NoSpaceDiffers(m: Match, r: string)
    requires |m.space| == 0 && r == "name[" + m.digits + "]: \"" + (m.digits + " - " + m.value) + "\""
    ensures r != Source(m)
  {
    var pre := "name[" + m.digits + "]: \"";
    assert r[7 + |m.digits|] == pre[7 + |m.digits|] == ' ';
    SourceAt(m);
    assert Source(m)[7 + |m.digits|] == '"';
  }

  /** With two or more whitespace characters the second one stands where the rewrite puts its quote. */
  lemma SpacesDiffer(m: Match, r: string)
    requires |m.space| >= 2 && AllIn(Space, m.space)
    requires r == "name[" + m.digits + "]: \"" + (m.digits + " - " + m.value) + "\""
    ensures r != Source(m)
  {
    var d := m.digits;
    var pre := "name[" + d + "]: \"";
    assert r[8 + |d|] == pre[8 + |d|] == '"';
    SourceAt(m);
    assert Source(m)[8 + |d|] == Source(m)[7 + |d|..QuotePos(m)][1] == m.space[1];
    assert IsSpace(m.space[1]);
  }

  /** `ChangedCount` counts exactly the records whose text the default rewrite changes. */
  lemma {:induction false} ChangedCountIsChanges(recs: seq<Match>)
    requires forall i :: 0 <= i < |recs| ==> WellFormed(recs[i])
    ensures ChangedCount(recs) == |ChangedPositions(recs)|
  {
    if recs != [] {
      var k := |recs| - 1;
      var pre := recs[..k];
      assert forall i :: 0 <= i < k ==> pre[i] == recs[i];
      ReplaceNameChanges(recs[k]);
      ChangedCountIsChanges(pre);
      ChangedPositionsStep(recs);
    }
  }

  lemma ChangedPositionsStep(recs: seq<Match>)
    requires recs != []
    ensures var k := |recs| - 1;
      |ChangedPositions(recs)| == |ChangedPositions(recs[..k])|
        + (if ReplaceName(recs[k], DefaultTemplate) != Source(recs[k]) then 1 else 0)
  {
    var k := |recs| - 1;
    var pre := recs[..k];
    var changed := ReplaceName(recs[k], DefaultTemplate) != Source(recs[k]);
    assert ChangedPositions(recs) == ChangedPositions(pre) + (if changed then {k} else {});
  }

  /**
   * The script's count is never below the number of records changed, and
   * exceeds it by the bracket-tagged values that lack the dash shape.
   */
  lemma {:induction false} ModifiedCountOvercounts(recs: seq<Match>)
    ensures ModifiedCount(recs) == ChangedCount(recs) + |BracketOnlyPositions(recs)|
  {
    if recs != [] {
      var k := |recs| - 1;
      ModifiedCountOvercounts(recs[..k]);
      BracketOnlyStep(recs);
    }
  }

  lemma BracketOnlyStep(recs: seq<Match>)
    requires recs != []
    ensures var k := |recs| - 1; var v := recs[k].value;
      |BracketOnlyPositions(recs)| == |BracketOnlyPositions(recs[..k])|
        + (if BracketTagged(v) && !DashTagged(v) then 1 else 0)
  {
    var k := |recs| - 1;
    var v := recs[k].value;
    assert BracketOnlyPositions(recs)
        == BracketOnlyPositions(recs[..k]) + (if BracketTagged(v) && !DashTagged(v) then {k} else {});
  }

  /** Positions whose value is bracket-tagged but not dash-tagged. */
  function BracketOnlyPositions(recs: seq<Match>): set<nat> {
    set i: nat | i < |recs| && BracketTagged(recs[i].value) && !DashTagged(recs[i].value)
  }
}
