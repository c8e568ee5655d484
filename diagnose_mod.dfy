/**
 * scripts/diagnose_mod.py: sanity checks on a packed mod. The archive is
 * given as its entry list and the texts its entries decode to; opening the
 * zip file and printing the findings are not modelled.
 */
module DiagnoseMod {
  import opened Wrappers
  import opened SiiPattern
  import opened AddDriverIds

  // ---------------------------------------------------------------------
  // Substrings

  /** `sub` sits in `s` at position `i`. */
  predicate OccursAt(s: string, sub: string, i: nat) {
    i + |sub| <= |s| && s[i..i + |sub|] == sub
  }

  /** `sub in s`, searching from position `i` on. */
  function ContainsFrom(s: string, sub: string, i: nat): (b: bool)
    requires i <= |s|
    ensures b <==> exists j: nat :: i <= j && OccursAt(s, sub, j)
    decreases |s| - i
  {
    if OccursAt(s, sub, i) then true
    else if i == |s| then false
    else ContainsFrom(s, sub, i + 1)
  }

  /** Python's `sub in s`. */
  function Contains(s: string, sub: string): (b: bool)
    ensures b <==> exists j: nat :: OccursAt(s, sub, j)
  {
    ContainsFrom(s, sub, 0)
  }

  /** `s.endswith(suffix)`. */
  predicate EndsWith(s: string, suffix: string) {
    |suffix| <= |s| && s[|s| - |suffix|..] == suffix
  }

  // ---------------------------------------------------------------------
  // The entry list of the archive

  /** The tests the script applies to entry names. */
  datatype EntryTest = HasText(sub: string) | DocFile

  /** `sub in e`, or `e.endswith('.md') or 'EXAMPLE' in e`. */
  predicate Passes(t: EntryTest, e: string) {
    match t
    case HasText(sub) => Contains(e, sub)
    case DocFile => EndsWith(e, ".md") || Contains(e, "EXAMPLE")
  }

  /** `[e for e in entries if ...]`. */
  function Select(entries: seq<string>, t: EntryTest): (r: seq<string>)
    ensures |r| <= |entries|
    ensures forall e :: e in r <==> e in entries && Passes(t, e)
  {
    if entries == [] then []
    else (if Passes(t, entries[0]) then [entries[0]] else []) + Select(entries[1..], t)
  }

  /** Selection keeps the original order: it distributes over concatenation. */
  lemma {:induction false} SelectAppend(a: seq<string>, b: seq<string>, t: EntryTest)
    ensures Select(a + b, t) == Select(a, t) + Select(b, t)
  {
    if a == [] {
      assert a + b == b;
    } else {
      assert (a + b)[0] == a[0];
      assert (a + b)[1..] == a[1..] + b;
      SelectAppend(a[1..], b, t);
    }
  }

  /** `any(... for e in entries)`. */
  function AnyEntry(entries: seq<string>, t: EntryTest): (b: bool)
    ensures b <==> exists i :: 0 <= i < |entries| && Passes(t, entries[i])
  {
    if entries == [] then false
    else
      assert forall i :: 1 <= i < |entries| ==> entries[i] == entries[1..][i - 1];
      Passes(t, entries[0]) || AnyEntry(entries[1..], t)
  }

  /** `any` holds exactly when the corresponding comprehension is non-empty. */
  lemma AnyIffSelected(entries: seq<string>, t: EntryTest)
    ensures AnyEntry(entries, t) <==> Select(entries, t) != []
  {
    if AnyEntry(entries, t) {
      var i :| 0 <= i < |entries| && Passes(t, entries[i]);
      assert entries[i] in Select(entries, t);
    }
    SelectedAny(entries, t);
  }

  lemma SelectedAny(entries: seq<string>, t: EntryTest)
    ensures Select(entries, t) != [] ==> AnyEntry(entries, t)
  {
    var r := Select(entries, t);
    if r != [] {
      assert r[0] in r;
      var i :| 0 <= i < |entries| && entries[i] == r[0];
    }
  }

  const Manifest := HasText("manifest.sii")
  const Desc := HasText("desc.txt")
  const DriverNames := HasText("driver_names.sii")

  /** Everything `check_mod_file` works out; only `ok` is returned, the rest is printed. */
  datatype ModReport = ModReport(
    ok: bool,
    hasManifest: bool,
    hasDesc: bool,
    hasDriverNames: bool,
    driverNamesPaths: seq<(string, bool)>,
    docFiles: seq<string>)

  /** Each `driver_names.sii` path with whether it lies under `universal/locale`. */
  function Locations(paths: seq<string>): seq<(string, bool)> {
    seq(|paths|, i requires 0 <= i < |paths| => (paths[i], Contains(paths[i], "universal/locale")))
  }

  /**
   * `check_mod_file`. `entries` is the archive's `namelist()`, `None` when
   * the file does not exist or cannot be read as a zip archive.
   */
  function CheckModFile(entries: Option<seq<string>>): (r: ModReport)
    ensures r.ok <==> entries.Some? && r.hasManifest && r.hasDesc && r.hasDriverNames
    ensures entries.Some? ==>
      && (r.hasManifest <==> exists i :: 0 <= i < |entries.value| && Contains(entries.value[i], "manifest.sii"))
      && (r.hasDesc <==> exists i :: 0 <= i < |entries.value| && Contains(entries.value[i], "desc.txt"))
      && (r.hasDriverNames <==> exists i :: 0 <= i < |entries.value| && Contains(entries.value[i], "driver_names.sii"))
      && (forall e :: e in r.docFiles <==> e in entries.value && (EndsWith(e, ".md") || Contains(e, "EXAMPLE")))
  {
    match entries
    case None => ModReport(false, false, false, false, [], [])
    case Some(es) =>
      var hasManifest := AnyEntry(es, Manifest);
      var hasDesc := AnyEntry(es, Desc);
      var hasDriverNames := AnyEntry(es, DriverNames);
      ModReport(hasManifest && hasDesc && hasDriverNames, hasManifest, hasDesc, hasDriverNames,
                Locations(Select(es, DriverNames)), Select(es, DocFile))
  }

  /** The reported paths are the entries naming `driver_names.sii`, in archive order, with their location verdict. */
  lemma DriverNamesPathsListed(es: seq<string>)
    ensures CheckModFile(Some(es)).driverNamesPaths == Locations(Select(es, DriverNames))
    ensures (CheckModFile(Some(es)).driverNamesPaths == []) <==> !CheckModFile(Some(es)).hasDriverNames
  {
    AnyIffSelected(es, DriverNames);
  }

  /**
   * Documentation entries are reported, in order, and otherwise play no
   * part: adding ones that name none of the three required files leaves
   * the verdict as it was.
   */
  lemma DocFilesIgnored(es: seq<string>, docs: seq<string>)
    requires forall d :: d in docs ==> Passes(DocFile, d)
    requires forall d :: d in docs ==> !Passes(Manifest, d) && !Passes(Desc, d) && !Passes(DriverNames, d)
    ensures CheckModFile(Some(es + docs)).ok == CheckModFile(Some(es)).ok
    ensures CheckModFile(Some(es + docs)).docFiles == CheckModFile(Some(es)).docFiles + docs
  {
    SelectAppend(es, docs, DocFile);
    AllSelected(docs, DocFile);
    NoneSelected(docs, Manifest);
    NoneSelected(docs, Desc);
    NoneSelected(docs, DriverNames);
    SelectAppend(es, docs, Manifest);
    SelectAppend(es, docs, Desc);
    SelectAppend(es, docs, DriverNames);
    AnyIffSelected(es, Manifest);
    AnyIffSelected(es + docs, Manifest);
    AnyIffSelected(es, Desc);
    AnyIffSelected(es + docs, Desc);
    AnyIffSelected(es, DriverNames);
    AnyIffSelected(es + docs, DriverNames);
  }

  lemma {:induction false} AllSelected(es: seq<string>, t: EntryTest)
    requires forall e :: e in es ==> Passes(t, e)
    ensures Select(es, t) == es
  {
    if es != [] {
      assert Passes(t, es[0]);
      assert forall e :: e in es[1..] ==> e in es;
      AllSelected(es[1..], t);
      assert es == [es[0]] + es[1..];
    }
  }

  lemma {:induction false} NoneSelected(es: seq<string>, t: EntryTest)
    requires forall e :: e in es ==> !Passes(t, e)
    ensures Select(es, t) == []
  {
    if es != [] {
      assert forall e :: e in es[1..] ==> e in es;
      NoneSelected(es[1..], t);
    }
  }

  // ---------------------------------------------------------------------
  // The content of driver_names.sii

  /** The entry `check_driver_names_content` looks for. */
  predicate IsDriverNamesEntry(e: string) {
    Contains(e, "driver_names.sii") && Contains(e, "universal")
  }

  /** The first qualifying entry from position `i` on. */
  function FirstDriverNamesFrom(entries: seq<string>, i: nat): (r: Option<nat>)
    requires i <= |entries|
    ensures r.Some? ==> i <= r.value < |entries| && IsDriverNamesEntry(entries[r.value])
                        && forall j :: i <= j < r.value ==> !IsDriverNamesEntry(entries[j])
    ensures r.None? ==> forall j :: i <= j < |entries| ==> !IsDriverNamesEntry(entries[j])
    decreases |entries| - i
  {
    if i == |entries| then None
    else if IsDriverNamesEntry(entries[i]) then Some(i)
    else FirstDriverNamesFrom(entries, i + 1)
  }

  /** The position of the first qualifying entry, if any. */
  function FirstDriverNames(entries: seq<string>): (r: Option<nat>)
    ensures r.Some? ==> r.value < |entries| && IsDriverNamesEntry(entries[r.value])
                        && forall j :: 0 <= j < r.value ==> !IsDriverNamesEntry(entries[j])
    ensures r.None? <==> forall j :: 0 <= j < |entries| ==> !IsDriverNamesEntry(entries[j])
  {
    FirstDriverNamesFrom(entries, 0)
  }

  /** The loop with `break` that sets `driver_names_path`. */
  method FindDriverNamesEntry(entries: seq<string>) returns (path: Option<string>)
    ensures path == (match FirstDriverNames(entries) case None => None case Some(i) => Some(entries[i]))
  {
    path := None;
    var i := 0;
    while i < |entries|
      invariant i <= |entries|
      invariant forall j :: 0 <= j < i ==> !IsDriverNamesEntry(entries[j])
    {
      if IsDriverNamesEntry(entries[i]) {
        path := Some(entries[i]);
        break;
      }
      i := i + 1;
    }
  }

  /** The tagged value shape `\d+\s*-\s*[^"]+`: digits, whitespace, a hyphen, then at least one more character. */
  predicate IdTagged(v: string) {
    var d := RunEnd(Digit, v, 0);
    var e := RunEnd(Space, v, d);
    d > 0 && e + 1 < |v| && v[e] == '-'
  }

  /**
   * Both directions, by positions: digits before `n`, whitespace from `n`
   * to `k`, a hyphen at `k`, and at least one character after it.
   */
  lemma IdTaggedIff(v: string)
    ensures IdTagged(v) <==> exists n: nat, k: nat :: DashAt(v, n, k) && k + 1 < |v|
  {
    if IdTagged(v) {
      var d := RunEnd(Digit, v, 0);
      assert DashAt(v, d, RunEnd(Space, v, d));
    }
    forall n: nat, k: nat | DashAt(v, n, k) && k + 1 < |v| ensures IdTagged(v) {
      RunEndAt(Digit, v, 0, n);
      RunEndAt(Space, v, n, k);
    }
  }

  /** Every value of that shape passes the guard of the rewriter. */
  lemma IdTaggedIsDashTagged(v: string)
    ensures IdTagged(v) ==> DashTagged(v)
  {
  }

  /** The converse fails: `1 -` passes the guard but has nothing after the hyphen. */
  lemma DashTaggedNotIdTagged()
    ensures DashTagged("1 -") && !IdTagged("1 -")
  {
    DashAtTagged("1 -", 1, 2);
    RunEndAt(Space, "1 -", 1, 2);
  }

  /**
   * `name\[\d+\]:\s*"(\d+\s*-\s*[^"]+)"` at the start of `u`: `[^"]+` and
   * the closing quote force the same value as the base pattern, so it is
   * the base match with a tagged value.
   */
  predicate TaggedAt(u: string) {
    MatchAt(u).Some? && IdTagged(MatchAt(u).value.value)
  }

  /**
   * `len(re.findall(tagged_pattern, content))`. The scan is its own: where a
   * base match is not tagged it resumes one character later, not after it.
   */
  function CountTagged(t: string): nat
    decreases |t|
  {
    if t == [] then 0
    else if TaggedAt(t) then
      MatchAtSound(t);
      1 + CountTagged(t[|Source(MatchAt(t).value)|..])
    else CountTagged(t[1..])
  }

  /** A tagged match at the start is counted and skipped whole. */
  lemma CountTaggedAt(u: string, m: Match)
    requires MatchAt(u) == Some(m) && IdTagged(m.value)
    ensures CountTagged(u) == 1 + CountTagged(u[|Source(m)|..])
  {
  }

  /** A text that is one tagged record holds one tagged match. */
  lemma CountTaggedRecord(m: Match, rest: string)
    requires WellFormed(m) && IdTagged(m.value)
    ensures CountTagged(Source(m) + rest) == 1 + CountTagged(rest)
  {
    MatchSource(m, rest);
    CountTaggedAt(Source(m) + rest, m);
    assert (Source(m) + rest)[|Source(m)|..] == rest;
  }

  /** A text that does not start with `n` has no match at its start. */
  lemma NoMatchWithoutN(u: string)
    requires u != [] && u[0] != 'n'
    ensures MatchAt(u) == None && CountTagged(u) == CountTagged(u[1..])
  {
    if |u| >= 5 {
      assert u[..5][0] == u[0];
    }
  }

  /** The tagged scan passes over characters other than `n` one at a time. */
  lemma {:induction false} SkipWithoutN(u: string, i: nat, k: nat)
    requires i <= k <= |u|
    requires forall p :: i <= p < k ==> u[p] != 'n'
    ensures CountTagged(u[i..]) == CountTagged(u[k..])
    decreases k - i
  {
    if i < k {
      NoMatchWithoutN(u[i..]);
      assert u[i..][1..] == u[i + 1..];
      SkipWithoutN(u, i + 1, k);
    }
  }

  /**
   * Where the base pattern matches but the value is not tagged, the tagged
   * scan resumes inside the record: it finds nothing before the value starts.
   */
  lemma SkipUntaggedRecord(u: string, m: Match)
    requires MatchAt(u) == Some(m) && IsMatchAt(u, m) && !IdTagged(m.value)
    ensures CountTagged(u) == CountTagged(u[QuotePos(m) + 1..])
  {
    UntaggedStep(u);
    HeadOfMatchHasNoN(u, m);
    SkipWithoutN(u, 1, QuotePos(m) + 1);
  }

  /** No tagged match at the start: the scan moves on by one character. */
  lemma UntaggedStep(u: string)
    requires u != [] && !TaggedAt(u)
    ensures CountTagged(u) == CountTagged(u[1..])
  {
  }

  lemma HeadOfMatchHasNoN(u: string, m: Match)
    requires IsMatchAt(u, m)
    ensures QuotePos(m) < |u|
    ensures forall p :: 1 <= p < QuotePos(m) + 1 ==> u[p] != 'n'
  {
    assert |Source(m)| == QuotePos(m) + |m.value| + 2;
    forall p | 1 <= p < QuotePos(m) + 1 ensures u[p] != 'n' {
      HeadHasNoN(m, p);
      assert u[p] == Source(m)[p];
    }
  }

  /**
   * A record whose value is not tagged but ends in the head of a tagged
   * record: the base scan sees one record, the tagged scan sees the inner one.
   */
  lemma NestedRecord(m: Match, pre: string, m2: Match)
    requires WellFormed(m) && WellFormed(m2) && !IdTagged(m.value) && IdTagged(m2.value)
    requires |m2.value| + 1 < 9 && forall p :: 0 <= p < |pre| ==> pre[p] != 'n'
    requires m.value == pre + "name[" + m2.digits + "]:" + m2.space
    ensures Records(Source(m) + (m2.value + "\"")) == [m]
    ensures CountTagged(Source(m) + (m2.value + "\"")) == 1
  {
    NestedRecords(m, m2.value + "\"");
    NestedCount(m, pre, m2);
  }

  lemma NestedRecords(m: Match, tail: string)
    requires WellFormed(m) && |tail| < 9
    ensures Records(Source(m) + tail) == [m]
  {
    var t := Source(m) + tail;
    MatchSource(m, tail);
    ScanSome(t, m);
    assert t[|Source(m)|..] == tail;
    NoRecordFits(tail);
  }

  lemma NestedCount(m: Match, pre: string, m2: Match)
    requires WellFormed(m) && WellFormed(m2) && !IdTagged(m.value) && IdTagged(m2.value)
    requires forall p :: 0 <= p < |pre| ==> pre[p] != 'n'
    requires m.value == pre + "name[" + m2.digits + "]:" + m2.space
    ensures CountTagged(Source(m) + (m2.value + "\"")) == 1
  {
    var t := Source(m) + (m2.value + "\"");
    MatchSource(m, m2.value + "\"");
    SourceHead(m, m2.value + "\"");
    SkipUntaggedRecord(t, m);
    InnerSource(pre, m2);
    InnerRecord(pre, m2);
  }

  lemma InnerSource(pre: string, m2: Match)
    ensures (pre + "name[" + m2.digits + "]:" + m2.space) + "\"" + (m2.value + "\"") == pre + Source(m2)
  {
  }

  lemma SourceHead(m: Match, tail: string)
    ensures IsMatchAt(Source(m) + tail, m) == WellFormed(m)
    ensures (Source(m) + tail)[QuotePos(m) + 1..] == m.value + "\"" + tail
  {
    SourceAt(m);
    var h := "name[" + m.digits + "]:" + m.space + "\"";
    assert Source(m) == h + m.value + "\"";
    assert |h| == QuotePos(m) + 1;
    assert Source(m) + tail == h + (m.value + "\"" + tail);
  }

  lemma InnerRecord(pre: string, m2: Match)
    requires WellFormed(m2) && IdTagged(m2.value)
    requires forall p :: 0 <= p < |pre| ==> pre[p] != 'n'
    ensures CountTagged(pre + Source(m2)) == 1
  {
    var u := pre + Source(m2);
    SkipWithoutN(u, 0, |pre|);
    assert u[0..] == u;
    assert u[|pre|..] == Source(m2) + [];
    CountTaggedRecord(m2, []);
  }

  /** `3 - A` is tagged. */
  lemma InnerTagged(m2: Match)
    requires m2 == Match("2", "", "3 - A")
    ensures IdTagged(m2.value)
  {
    RunEndAt(Space, m2.value, 1, 2);
  }

  /** Too short for a record: no match anywhere. */
  lemma {:induction false} NoRecordFits(t: string)
    requires |t| < 9
    ensures Records(t) == [] && CountTagged(t) == 0
    decreases |t|
  {
    if t != [] {
      NoMatchShort(t);
      ScanNone(t);
      NoRecordFits(t[1..]);
    }
  }

  lemma NoMatchShort(t: string)
    requires |t| < 9
    ensures MatchAt(t) == None
  {
    MatchAtSound(t);
    if MatchAt(t).Some? {
      SourceAt(MatchAt(t).value);
    }
  }

  /** The archive as the script sees it: entry names, and the text each readable entry decodes to. */
  datatype Archive = Archive(entries: seq<string>, text: map<string, string>)

  /** What `check_driver_names_content` works out; only `ok` is returned, the counts are printed. */
  datatype ContentReport = ContentReport(
    ok: bool,
    path: Option<string>,
    tagged: nat,
    plain: Option<nat>)

  /**
   * `check_driver_names_content`. `archive` is `None` when the zip cannot be
   * opened; an entry missing from `text` cannot be read or decoded as UTF-8.
   */
  method CheckDriverNamesContent(archive: Option<Archive>) returns (r: ContentReport)
    ensures archive.None? ==> r == ContentReport(false, None, 0, None)
    ensures archive.Some? ==> (r.path.None? <==> forall j :: 0 <= j < |archive.value.entries| ==> !IsDriverNamesEntry(archive.value.entries[j]))
    ensures r.path.Some? ==>
      (archive.Some? &&
       exists i :: (0 <= i < |archive.value.entries| && r.path.value == archive.value.entries[i]
                    && IsDriverNamesEntry(archive.value.entries[i])
                    && forall j :: 0 <= j < i ==> !IsDriverNamesEntry(archive.value.entries[j])))
    ensures r.ok <==> && archive.Some? && r.path.Some? && r.path.value in archive.value.text
                      && Contains(archive.value.text[r.path.value], "SiiNunit")
                      && Contains(archive.value.text[r.path.value], "driver_names")
    ensures r.ok ==> var content := archive.value.text[r.path.value];
              && r.tagged == CountTagged(content)
              && r.plain == (if r.tagged == 0 then Some(|Records(content)|) else None)
  {
    if archive.None? {
      return ContentReport(false, None, 0, None);
    }
    var path := FindDriverNamesEntry(archive.value.entries);
    if path.None? {
      return ContentReport(false, None, 0, None);
    }
    if path.value !in archive.value.text {
      return ContentReport(false, path, 0, None);
    }
    var content := archive.value.text[path.value];
    var tagged := CountTagged(content);
    var plain := if tagged == 0 then Some(|Records(content)|) else None;
    var ok := Contains(content, "SiiNunit") && Contains(content, "driver_names");
    return ContentReport(ok, path, tagged, plain);
  }

  // ---------------------------------------------------------------------
  // The diagnostic after the rewriter

  /** Every record is either one the rewriter formats or already tagged in the diagnostic's shape. */
  predicate TaggableRecords(recs: seq<Match>) {
    forall i :: 0 <= i < |recs| ==> !AlreadyTagged(recs[i].value) || IdTagged(recs[i].value)
  }

  /**
   * After the default rewrite the diagnostic counts every record as tagged,
   * provided none was already tagged in a shape it does not accept (a
   * bracket tag, or nothing after the hyphen).
   */
  lemma {:induction false} AllTaggedAfterRewrite(t: string)
    requires TaggableRecords(Records(t))
    ensures CountTagged(Rewrite(t, DefaultTemplate)) == |Records(t)|
    decreases |t|
  {
    if t == [] {
      assert Rewrite(t, DefaultTemplate) == [];
    } else {
      match MatchAt(t)
      case None =>
        CountTaggedSkip(t);
        AllTaggedAfterRewrite(t[1..]);
      case Some(m) =>
        MatchAtSound(t);
        ScanSome(t, m);
        var rest := t[|Source(m)|..];
        assert forall i :: 0 <= i < |Records(rest)| ==> Records(rest)[i] == Records(t)[i + 1];
        assert Records(t)[0] == m;
        if !AlreadyTagged(m.value) {
          RewrittenValueTagged(m);
        }
        CountTaggedRecordStep(t, m);
        AllTaggedAfterRewrite(rest);
    }
  }

  /** A character outside the records: the rewritten text has no match there either. */
  lemma CountTaggedSkip(t: string)
    requires t != [] && MatchAt(t) == None
    ensures CountTagged(Rewrite(t, DefaultTemplate)) == CountTagged(Rewrite(t[1..], DefaultTemplate))
    ensures Records(t) == Records(t[1..])
  {
    var tpl := DefaultTemplate;
    RewriteNone(t, tpl);
    ScanNone(t);
    assert t == [t[0]] + t[1..];
    NoMatchSurvivesRewrite([t[0]], t[1..], tpl);
    var r := Rewrite(t, tpl);
    assert r[1..] == Rewrite(t[1..], tpl);
  }

  /** A record whose rewritten value is tagged: read back as one tagged match and skipped whole. */
  lemma CountTaggedRecordStep(t: string, m: Match)
    requires MatchAt(t) == Some(m) && IsMatchAt(t, m) && IdTagged(Rendered(m).value)
    ensures CountTagged(Rewrite(t, DefaultTemplate)) == 1 + CountTagged(Rewrite(t[|Source(m)|..], DefaultTemplate))
  {
    var tpl := DefaultTemplate;
    RewriteSome(t, m, tpl);
    var x := Rewrite(t[|Source(m)|..], tpl);
    RenderedIsStable(m, x);
    var r := Rewrite(t, tpl);
    CountTaggedAt(r, Rendered(m));
    assert r[|Source(Rendered(m))|..] == x;
  }

  /** A record the rewriter formats always ends up tagged. */
  lemma RewrittenValueTagged(m: Match)
    requires WellFormed(m) && !AlreadyTagged(m.value)
    ensures IdTagged(Rendered(m).value)
  {
    var d := m.digits;
    var v := Rendered(m).value;
    assert forall p :: 0 <= p < |d| ==> v[p] == d[p] && IsDigit(d[p]);
    assert v[|d|] == ' ' && v[|d| + 1] == '-';
    RunEndAt(Digit, v, 0, |d|);
    RunEndAt(Space, v, |d|, |d| + 1);
  }

  /**
   * A short record that the rewriter keeps but the diagnostic does not count:
   * rewriting changes nothing, and the count stays one short of the records.
   */
  lemma KeptButNotCounted(m: Match)
    requires WellFormed(m) && AlreadyTagged(m.value) && !IdTagged(m.value) && |m.value| < 8
    ensures Rewrite(Source(m), DefaultTemplate) == Source(m)
    ensures Records(Source(m)) == [m]
    ensures CountTagged(Source(m)) == 0
  {
    RecordRewrite(m, [], DefaultTemplate);
    assert Source(m) + [] == Source(m);
    assert Rewrite([], DefaultTemplate) == [];
    NestedRecords(m, []);
    MatchSource(m, []);
    SourceHead(m, []);
    SkipUntaggedRecord(Source(m), m);
    NoRecordFits(m.value + "\"" + []);
  }

  /**
   * Hence the restriction of `AllTaggedAfterRewrite` is needed: the
   * bracket-tagged `name[9]: "[9] A"` is one record, kept as it is by the
   * rewriter, and counted as no tagged entry.
   */
  lemma BracketTagNotCounted(t: string)
    requires t == "name[9]: \"[9] A\""
    ensures Rewrite(t, DefaultTemplate) == t
    ensures |Records(t)| == 1 && CountTagged(Rewrite(t, DefaultTemplate)) == 0
  {
    var m := Match("9", " ", "[9] A");
    BracketAParts(m);
    KeptButNotCounted(m);
  }

  lemma BracketAParts(m: Match)
    requires m == Match("9", " ", "[9] A")
    ensures Source(m) == "name[9]: \"[9] A\"" && WellFormed(m)
    ensures BracketTagged(m.value) && !IdTagged(m.value)
  {
    RunEndAt(Digit, m.value, 1, 2);
    assert RunEnd(Digit, m.value, 0) == 0;
  }

  /**
   * The tagged scan also looks inside records: the value `[1] name[2]:` is
   * bracket-tagged, so the record is not counted, yet the text after its
   * opening quote holds the tagged match `name[2]:"3 - A"`.
   */
  lemma BracketTagHidesMatch(t: string)
    requires t == "name[1]: \"[1] name[2]:\"3 - A\""
    ensures Records(t) == [Match("1", " ", "[1] name[2]:")]
    ensures CountTagged(t) == 1
    ensures !TaggableRecords(Records(t))
  {
    var m := Match("1", " ", "[1] name[2]:");
    var m2 := Match("2", "", "3 - A");
    BracketExampleText(m, m2);
    BracketExampleShape(m, m2);
    BracketExampleTags(m);
    InnerTagged(m2);
    NestedRecord(m, "[1] ", m2);
    assert Records(t)[0] == m;
  }

  lemma BracketExampleText(m: Match, m2: Match)
    requires m == Match("1", " ", "[1] name[2]:") && m2 == Match("2", "", "3 - A")
    ensures Source(m) + (m2.value + "\"") == "name[1]: \"[1] name[2]:\"3 - A\""
  {
  }

  lemma BracketExampleShape(m: Match, m2: Match)
    requires m == Match("1", " ", "[1] name[2]:") && m2 == Match("2", "", "3 - A")
    ensures WellFormed(m) && WellFormed(m2)
    ensures m.value == "[1] " + "name[" + m2.digits + "]:" + m2.space
  {
  }

  /** `[1] name[2]:` is bracket-tagged but not tagged in the diagnostic's sense. */
  lemma BracketExampleTags(m: Match)
    requires m == Match("1", " ", "[1] name[2]:")
    ensures BracketTagged(m.value) && !IdTagged(m.value)
  {
    RunEndAt(Digit, m.value, 1, 2);
    assert RunEnd(Digit, m.value, 0) == 0;
  }
}
