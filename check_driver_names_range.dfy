/**
 * scripts/check_driver_names_range.py: statistics over the records of a
 * `driver_names.sii` text. The records are those of `SiiPattern.Records`
 * (`re.findall` of the same pattern); the reduction to minimum, maximum,
 * count, gaps, the index-to-name dictionary and the duplicate groups
 * follows the function step by step. The grouping loop is a method.
 */
module CheckDriverNamesRange {
  import opened Wrappers
  import opened SiiPattern

  // ---------------------------------------------------------------------
  // Indices

  /** The value of one decimal digit; `int()` is only ever given digits here. */
  function DigitValue(c: char): nat {
    if IsDigit(c) then (c as int) - ('0' as int) else 0
  }

  /** `int(s)` for a string of ASCII digits. */
  function DecimalValue(s: string): nat {
    if s == [] then 0 else 10 * DecimalValue(s[..|s| - 1]) + DigitValue(s[|s| - 1])
  }

  /** The digit string with its leading zeros removed, keeping one digit. */
  function StripZeros(s: string): (r: string)
    ensures |r| <= |s| && (s != [] ==> r != [] && (|r| == 1 || r[0] != '0'))
    ensures AllIn(Digit, s) ==> AllIn(Digit, r)
    decreases |s|
  {
    if |s| > 1 && s[0] == '0' then StripZeros(s[1..]) else s
  }

  /** Leading zeros do not change the index: `name[007]` and `name[7]` share index 7. */
  lemma {:induction false} LeadingZero(s: string)
    ensures DecimalValue("0" + s) == DecimalValue(s)
  {
    if s != [] {
      assert ("0" + s)[..|"0" + s| - 1] == "0" + s[..|s| - 1];
      LeadingZero(s[..|s| - 1]);
    } else {
      assert "0" + s == "0";
      assert "0"[..0] == [];
    }
  }

  /** Removing leading zeros keeps the value. */
  lemma {:induction false} StripZerosValue(s: string)
    ensures DecimalValue(StripZeros(s)) == DecimalValue(s)
    decreases |s|
  {
    if |s| > 1 && s[0] == '0' {
      assert s == "0" + s[1..];
      LeadingZero(s[1..]);
      StripZerosValue(s[1..]);
    }
  }

  /** Digits that do not start with `0` stand for a positive number. */
  lemma {:induction false} NonZeroLead(s: string)
    requires s != [] && AllIn(Digit, s) && s[0] != '0'
    ensures DecimalValue(s) > 0
  {
    if |s| > 1 {
      assert s[..|s| - 1][0] == s[0];
      NonZeroLead(s[..|s| - 1]);
    }
  }

  /** Two digit strings without leading zeros and with the same value are the same string. */
  lemma {:induction false} DecimalInjective(a: string, b: string)
    requires a != [] && AllIn(Digit, a) && (|a| == 1 || a[0] != '0')
    requires b != [] && AllIn(Digit, b) && (|b| == 1 || b[0] != '0')
    requires DecimalValue(a) == DecimalValue(b)
    ensures a == b
  {
    var a', b' := a[..|a| - 1], b[..|b| - 1];
    var x, y := a[|a| - 1], b[|b| - 1];
    assert InClass(Digit, x) && InClass(Digit, y);
    assert DecimalValue(a) % 10 == DigitValue(x) && DecimalValue(a) / 10 == DecimalValue(a');
    assert DecimalValue(b) % 10 == DigitValue(y) && DecimalValue(b) / 10 == DecimalValue(b');
    assert x == y;
    if a' != [] {
      assert a'[0] == a[0];
      NonZeroLead(a');
    }
    if b' != [] {
      assert b'[0] == b[0];
      NonZeroLead(b');
    }
    if a' != [] && b' != [] {
      DecimalInjective(a', b');
    }
    assert a == a' + [x] && b == b' + [y];
  }

  /**
   * Two records share a `names` key exactly when their digit strings
   * agree once leading zeros are removed.
   */
  lemma SameIndexIff(a: string, b: string)
    requires a != [] && AllIn(Digit, a) && b != [] && AllIn(Digit, b)
    ensures DecimalValue(a) == DecimalValue(b) <==> StripZeros(a) == StripZeros(b)
  {
    StripZerosValue(a);
    StripZerosValue(b);
    if DecimalValue(a) == DecimalValue(b) {
      DecimalInjective(StripZeros(a), StripZeros(b));
    }
  }

  /** `indices = [int(match[0]) for match in matches]`. */
  function Indices(recs: seq<Match>): seq<nat> {
    seq(|recs|, i requires 0 <= i < |recs| => DecimalValue(recs[i].digits))
  }

  /** `set(indices)`. */
  function IndexSet(ix: seq<nat>): set<nat> {
    set i | i in ix
  }

  /** `min(indices)`: an element no larger than any other. */
  function MinOf(ix: seq<nat>): (lo: nat)
    requires |ix| > 0
    ensures lo in ix && forall i :: 0 <= i < |ix| ==> lo <= ix[i]
  {
    if |ix| == 1 then ix[0]
    else
      var rest := MinOf(ix[1..]);
      assert forall i :: 1 <= i < |ix| ==> ix[i] == ix[1..][i - 1];
      if ix[0] <= rest then ix[0] else rest
  }

  /** `max(indices)`: an element no smaller than any other. */
  function MaxOf(ix: seq<nat>): (hi: nat)
    requires |ix| > 0
    ensures hi in ix && forall i :: 0 <= i < |ix| ==> ix[i] <= hi
  {
    if |ix| == 1 then ix[0]
    else
      var rest := MaxOf(ix[1..]);
      assert forall i :: 1 <= i < |ix| ==> ix[i] == ix[1..][i - 1];
      if ix[0] >= rest then ix[0] else rest
  }

  // ---------------------------------------------------------------------
  // Gaps

  /** `sorted(set(range(lo, hi + 1)) - present)`. */
  function Gaps(lo: nat, hi: nat, present: set<nat>): (g: seq<nat>)
    ensures forall i, j :: 0 <= i < j < |g| ==> g[i] < g[j]
    ensures forall x :: x in g <==> lo <= x <= hi && x !in present
    decreases hi + 1 - lo
  {
    if lo > hi then []
    else
      var rest := Gaps(lo + 1, hi, present);
      assert forall i :: 0 <= i < |rest| ==> lo < rest[i] by {
        forall i | 0 <= i < |rest| ensures lo < rest[i] {
          assert rest[i] in rest;
        }
      }
      if lo in present then rest else [lo] + rest
  }

  /** The present values in `[lo, hi]`. */
  function PresentIn(lo: int, hi: int, present: set<nat>): set<nat> {
    set x | x in present && lo <= x <= hi
  }

  /** Every integer of `[lo, hi]` is either a gap or present: the two counts fill the range. */
  lemma {:induction false} GapsCount(lo: nat, hi: nat, present: set<nat>)
    requires lo <= hi + 1
    ensures |Gaps(lo, hi, present)| + |PresentIn(lo, hi, present)| == hi + 1 - lo
    decreases hi + 1 - lo
  {
    if lo <= hi {
      GapsCount(lo + 1, hi, present);
      if lo in present {
        assert PresentIn(lo, hi, present) == PresentIn(lo + 1, hi, present) + {lo};
      } else {
        assert PresentIn(lo, hi, present) == PresentIn(lo + 1, hi, present);
      }
    } else {
      assert PresentIn(lo, hi, present) == {};
    }
  }

  /** The gaps between the smallest and the largest index, and how many there are. */
  lemma GapsOfIndices(ix: seq<nat>)
    requires |ix| > 0
    ensures var g := Gaps(MinOf(ix), MaxOf(ix), IndexSet(ix));
      && (forall x :: x in g <==> MinOf(ix) <= x <= MaxOf(ix) && x !in ix)
      && |g| + |IndexSet(ix)| == MaxOf(ix) - MinOf(ix) + 1
  {
    var lo, hi := MinOf(ix), MaxOf(ix);
    GapsCount(lo, hi, IndexSet(ix));
    assert PresentIn(lo, hi, IndexSet(ix)) == IndexSet(ix) by {
      forall x | x in IndexSet(ix) ensures lo <= x <= hi {
        var i :| 0 <= i < |ix| && ix[i] == x;
      }
    }
  }

  // ---------------------------------------------------------------------
  // The dictionary `names`

  /**
   * A Python dict from index to name: its keys in insertion order and the
   * mapping itself.
   */
  datatype Dict = Dict(keys: seq<nat>, vals: map<nat, string>)

  /** Keys are listed once each, and the listed keys are exactly the mapped ones. */
  predicate ValidDict(d: Dict) {
    && (forall i, j :: 0 <= i < j < |d.keys| ==> d.keys[i] != d.keys[j])
    && (forall k :: k in d.vals ==> k in d.keys)
    && (forall k :: k in d.keys ==> k in d.vals)
  }

  /** `d[k] = v`: an existing key keeps its place, a new key goes last. */
  function Put(d: Dict, k: nat, v: string): (r: Dict)
    requires ValidDict(d)
    ensures ValidDict(r)
  {
    if k in d.vals then Dict(d.keys, d.vals[k := v]) else Dict(d.keys + [k], d.vals[k := v])
  }

  /** One `(index, name)` pair per record, in text order. */
  function Pairs(recs: seq<Match>): seq<(nat, string)> {
    seq(|recs|, i requires 0 <= i < |recs| => (DecimalValue(recs[i].digits), recs[i].value))
  }

  /** `{int(match[0]): match[1] for match in matches}`, one assignment per pair, left to right. */
  function NamesDict(items: seq<(nat, string)>): (d: Dict)
    ensures ValidDict(d)
  {
    if items == [] then Dict([], map[])
    else
      var n := |items| - 1;
      Put(NamesDict(items[..n]), items[n].0, items[n].1)
  }

  /** One assignment `d[k] = v` of the comprehension. */
  lemma NamesStep(items: seq<(nat, string)>)
    requires items != []
    ensures var n := |items| - 1;
      && NamesDict(items).vals == NamesDict(items[..n]).vals[items[n].0 := items[n].1]
      && NamesDict(items).keys == if items[n].0 in NamesDict(items[..n]).vals
                                  then NamesDict(items[..n]).keys
                                  else NamesDict(items[..n]).keys + [items[n].0]
  {
  }

  /** The indices the items carry. */
  function KeySet(items: seq<(nat, string)>): set<nat> {
    set i | 0 <= i < |items| :: items[i].0
  }

  /** The keys of `names` are exactly the indices of the records. */
  lemma {:induction false} NamesKeys(items: seq<(nat, string)>)
    ensures NamesDict(items).vals.Keys == KeySet(items)
  {
    if items != [] {
      var n := |items| - 1;
      NamesKeys(items[..n]);
      NamesStepVals(items);
      assert KeySet(items) == KeySet(items[..n]) + {items[n].0} by {
        assert forall i :: 0 <= i < n ==> items[..n][i] == items[i];
      }
    }
  }

  /** `names` has one entry for each distinct index of the records. */
  lemma NamesCoverIndices(recs: seq<Match>)
    ensures NamesDict(Pairs(recs)).vals.Keys == IndexSet(Indices(recs))
    ensures |NamesDict(Pairs(recs)).keys| == |IndexSet(Indices(recs))|
  {
    var items := Pairs(recs);
    var ix := Indices(recs);
    var d := NamesDict(items);
    NamesKeys(items);
    assert KeySet(items) == IndexSet(ix) by {
      assert |items| == |ix| == |recs|;
      forall x | x in IndexSet(ix) ensures x in KeySet(items) {
        var i :| 0 <= i < |ix| && ix[i] == x;
        assert items[i].0 == x;
      }
      forall i | 0 <= i < |items| ensures items[i].0 in IndexSet(ix) {
        assert items[i].0 == ix[i];
      }
    }
    DistinctCard(d.keys);
    assert d.vals.Keys == SetOf(d.keys);
  }

  /** The elements of a sequence, collected from the back. */
  function SetOf(ks: seq<nat>): (r: set<nat>)
    ensures forall x :: x in r <==> x in ks
  {
    if ks == [] then {}
    else
      var n := |ks| - 1;
      assert ks == ks[..n] + [ks[n]];
      SetOf(ks[..n]) + {ks[n]}
  }

  /** A sequence without repetitions has as many elements as its set. */
  lemma {:induction false} DistinctCard(ks: seq<nat>)
    requires forall i, j :: 0 <= i < j < |ks| ==> ks[i] != ks[j]
    ensures |SetOf(ks)| == |ks|
  {
    if ks != [] {
      var n := |ks| - 1;
      var pre := ks[..n];
      assert forall i :: 0 <= i < n ==> pre[i] == ks[i];
      DistinctCard(pre);
      assert ks[n] !in SetOf(pre);
      assert SetOf(ks) == SetOf(pre) + {ks[n]};
    }
  }

  /** Position `i` holds the last item with index `k`. */
  predicate LastOccurrence(items: seq<(nat, string)>, k: nat, i: nat) {
    i < |items| && items[i].0 == k && forall j :: i < j < |items| ==> items[j].0 != k
  }

  /** A later record with the same index overwrites an earlier one: each key holds its last value. */
  lemma {:induction false} NamesLastWins(items: seq<(nat, string)>, k: nat)
    requires k in NamesDict(items).vals
    ensures exists i: nat :: LastOccurrence(items, k, i) && NamesDict(items).vals[k] == items[i].1
  {
    var n := |items| - 1;
    var pre := items[..n];
    NamesStepVals(items);
    if items[n].0 == k {
      assert LastOccurrence(items, k, n);
    } else {
      NamesLastWins(pre, k);
      var i: nat :| LastOccurrence(pre, k, i) && NamesDict(pre).vals[k] == pre[i].1;
      LastOccurrenceExtends(items, k, i);
    }
  }

  /** The mapping part of one assignment. */
  lemma NamesStepVals(items: seq<(nat, string)>)
    requires items != []
    ensures NamesDict(items).vals == NamesDict(items[..|items| - 1]).vals[items[|items| - 1].0 := items[|items| - 1].1]
  {
  }

  lemma LastOccurrenceExtends(items: seq<(nat, string)>, k: nat, i: nat)
    requires items != [] && items[|items| - 1].0 != k
    requires LastOccurrence(items[..|items| - 1], k, i)
    ensures LastOccurrence(items, k, i) && items[i] == items[..|items| - 1][i]
  {
    var n := |items| - 1;
    assert forall j :: i < j < n ==> items[j] == items[..n][j];
  }

  /** Index `a` occurs at position `i`, and index `b` nowhere up to `i`. */
  predicate SeenFirst(items: seq<(nat, string)>, a: nat, b: nat, i: nat) {
    i < |items| && items[i].0 == a && forall j :: 0 <= j <= i ==> items[j].0 != b
  }

  /**
   * Keys are in the order of their first occurrence: for keys listed at
   * `p < q`, key `p` occurs in the items before key `q` occurs at all.
   */
  lemma {:induction false} NamesFirstSeen(items: seq<(nat, string)>, p: nat, q: nat)
    requires p < q < |NamesDict(items).keys|
    ensures exists i: nat :: SeenFirst(items, NamesDict(items).keys[p], NamesDict(items).keys[q], i)
  {
    var n := |items| - 1;
    var pre := items[..n];
    var d := NamesDict(pre);
    var keys := NamesDict(items).keys;
    NamesStep(items);
    if q < |d.keys| {
      assert keys[p] == d.keys[p] && keys[q] == d.keys[q];
      NamesFirstSeen(pre, p, q);
      var i: nat :| SeenFirst(pre, d.keys[p], d.keys[q], i);
      FirstSeenExtends(items, d.keys[p], d.keys[q], i);
    } else {
      NamesKeys(pre);
      assert keys[p] == d.keys[p] && keys[q] == items[n].0 && items[n].0 !in d.vals;
      assert d.keys[p] in KeySet(pre);
      var i :| 0 <= i < n && pre[i].0 == d.keys[p];
      NewKeySeenLast(items, d.keys[p], i);
    }
  }

  lemma FirstSeenExtends(items: seq<(nat, string)>, a: nat, b: nat, i: nat)
    requires items != [] && SeenFirst(items[..|items| - 1], a, b, i)
    ensures SeenFirst(items, a, b, i)
  {
    assert forall j :: 0 <= j <= i ==> items[j] == items[..|items| - 1][j];
  }

  lemma NewKeySeenLast(items: seq<(nat, string)>, a: nat, i: nat)
    requires items != [] && i < |items| - 1 && items[i].0 == a
    requires items[|items| - 1].0 !in KeySet(items[..|items| - 1])
    ensures SeenFirst(items, a, items[|items| - 1].0, i)
  {
    var n := |items| - 1;
    forall j | 0 <= j <= i ensures items[j].0 != items[n].0 {
      assert items[j] == items[..n][j];
    }
  }

  // ---------------------------------------------------------------------
  // Grouping indices by name

  /** The name stored under the `p`-th key. */
  function NameAt(d: Dict, p: nat): string
    requires ValidDict(d) && p < |d.keys|
  {
    d.vals[d.keys[p]]
  }

  /** The keys among the first `n` whose name is `nm`, in key order. */
  function IndicesNamed(d: Dict, nm: string, n: nat): seq<nat>
    requires ValidDict(d) && n <= |d.keys|
  {
    if n == 0 then []
    else IndicesNamed(d, nm, n - 1) + (if NameAt(d, n - 1) == nm then [d.keys[n - 1]] else [])
  }

  /** Both directions: an index is listed exactly when its name is `nm`. */
  lemma {:induction false} IndicesNamedMembers(d: Dict, nm: string, n: nat)
    requires ValidDict(d) && n <= |d.keys|
    ensures forall x :: x in IndicesNamed(d, nm, n) <==> exists p :: 0 <= p < n && d.keys[p] == x && NameAt(d, p) == nm
  {
    if n > 0 {
      IndicesNamedMembers(d, nm, n - 1);
    }
  }

  /** No index is listed twice. */
  lemma {:induction false} IndicesNamedDistinct(d: Dict, nm: string, n: nat)
    requires ValidDict(d) && n <= |d.keys|
    ensures forall i, j :: 0 <= i < j < |IndicesNamed(d, nm, n)| ==> IndicesNamed(d, nm, n)[i] != IndicesNamed(d, nm, n)[j]
  {
    if n > 0 {
      IndicesNamedDistinct(d, nm, n - 1);
      IndicesNamedMembers(d, nm, n - 1);
      var prev := IndicesNamed(d, nm, n - 1);
      assert d.keys[n - 1] !in prev;
      assert forall i :: 0 <= i < |prev| ==> prev[i] in prev;
    }
  }

  /** Lists only grow as more keys are taken in. */
  lemma {:induction false} IndicesNamedGrows(d: Dict, nm: string, m: nat, n: nat)
    requires ValidDict(d) && m <= n <= |d.keys|
    ensures |IndicesNamed(d, nm, m)| <= |IndicesNamed(d, nm, n)|
    decreases n - m
  {
    if m < n {
      IndicesNamedGrows(d, nm, m, n - 1);
    }
  }

  /** Two keys named `nm` give a list of two or more. */
  lemma SharedListed(d: Dict, nm: string, n: nat, p: nat, q: nat)
    requires ValidDict(d) && p < q < n <= |d.keys|
    requires NameAt(d, p) == nm && NameAt(d, q) == nm
    ensures |IndicesNamed(d, nm, n)| > 1
  {
    IndicesNamedMembers(d, nm, q);
    assert d.keys[p] in IndicesNamed(d, nm, q);
    IndicesNamedGrows(d, nm, q + 1, n);
  }

  /** A list of two or more comes from two keys named `nm`. */
  lemma {:induction false} ListedShared(d: Dict, nm: string, n: nat)
    requires ValidDict(d) && n <= |d.keys|
    ensures |IndicesNamed(d, nm, n)| > 1 ==>
            exists p, q :: 0 <= p < q < n && NameAt(d, p) == nm && NameAt(d, q) == nm
  {
    if n > 0 {
      ListedShared(d, nm, n - 1);
      IndicesNamedMembers(d, nm, n - 1);
      var prev := IndicesNamed(d, nm, n - 1);
      if NameAt(d, n - 1) == nm && |prev| > 0 {
        assert prev[0] in prev;
        var p :| 0 <= p < n - 1 && d.keys[p] == prev[0] && NameAt(d, p) == nm;
        assert 0 <= p < n - 1 < n && NameAt(d, p) == nm && NameAt(d, n - 1) == nm;
      }
    }
  }

  /** Both directions: the list has two or more entries exactly when two keys carry `nm`. */
  lemma IndicesNamedShared(d: Dict, nm: string, n: nat)
    requires ValidDict(d) && n <= |d.keys|
    ensures |IndicesNamed(d, nm, n)| > 1 <==>
            exists p, q :: 0 <= p < q < n && NameAt(d, p) == nm && NameAt(d, q) == nm
  {
    ListedShared(d, nm, n);
    forall p, q | 0 <= p < q < n && NameAt(d, p) == nm && NameAt(d, q) == nm
      ensures |IndicesNamed(d, nm, n)| > 1
    {
      SharedListed(d, nm, n, p, q);
    }
  }

  /** With no earlier key named `nm`, the list is empty. */
  lemma {:induction false} IndicesNamedNone(d: Dict, nm: string, n: nat)
    requires ValidDict(d) && n <= |d.keys|
    requires forall p :: 0 <= p < n ==> NameAt(d, p) != nm
    ensures IndicesNamed(d, nm, n) == []
  {
    if n > 0 {
      IndicesNamedNone(d, nm, n - 1);
    }
  }

  /**
   * The loop `for idx, name in names.items()` building `name_to_indices`:
   * each name present maps to its indices in key order.
   */
  method NameToIndices(d: Dict) returns (groups: map<string, seq<nat>>)
    requires ValidDict(d)
    ensures forall nm :: nm in groups <==> exists p :: 0 <= p < |d.keys| && NameAt(d, p) == nm
    ensures forall nm :: nm in groups ==> groups[nm] == IndicesNamed(d, nm, |d.keys|)
  {
    groups := map[];
    for n := 0 to |d.keys|
      invariant forall nm :: nm in groups <==> exists p :: 0 <= p < n && NameAt(d, p) == nm
      invariant forall nm :: nm in groups ==> groups[nm] == IndicesNamed(d, nm, n)
    {
      var idx := d.keys[n];
      var name := d.vals[idx];
      if name !in groups {
        IndicesNamedNone(d, name, n);
        groups := groups[name := []];
      }
      groups := groups[name := groups[name] + [idx]];
      assert NameAt(d, n) == name;
    }
  }

  /** `{name: indices for name, indices in name_to_indices.items() if len(indices) > 1}`. */
  function Duplicates(groups: map<string, seq<nat>>): map<string, seq<nat>> {
    map nm | nm in groups && |groups[nm]| > 1 :: groups[nm]
  }

  /** A name is a duplicate exactly when two distinct keys carry it. */
  lemma DuplicatesShared(d: Dict, groups: map<string, seq<nat>>)
    requires ValidDict(d)
    requires forall nm :: nm in groups <==> exists p :: 0 <= p < |d.keys| && NameAt(d, p) == nm
    requires forall nm :: nm in groups ==> groups[nm] == IndicesNamed(d, nm, |d.keys|)
    ensures forall nm :: nm in Duplicates(groups) <==>
              exists p, q :: 0 <= p < q < |d.keys| && NameAt(d, p) == nm && NameAt(d, q) == nm
  {
    forall nm ensures nm in Duplicates(groups) <==>
              exists p, q :: 0 <= p < q < |d.keys| && NameAt(d, p) == nm && NameAt(d, q) == nm
    {
      IndicesNamedShared(d, nm, |d.keys|);
    }
  }

  // ---------------------------------------------------------------------
  // The whole analysis

  /** The dictionary the function returns. */
  datatype Stats = Stats(
    minIndex: nat,
    maxIndex: nat,
    totalEntries: nat,
    gaps: seq<nat>,
    duplicates: map<string, seq<nat>>,
    names: Dict)

  /**
   * `check_driver_names_range`. `content` is the text read from the file,
   * `None` when it cannot be opened or decoded (the `except` branch).
   */
  method CheckDriverNamesRange(content: Option<string>) returns (r: Option<Stats>)
    ensures r.None? <==> content.None? || Records(content.value) == []
    ensures r.Some? ==>
      var recs := Records(content.value);
      var ix := Indices(recs);
      var s := r.value;
      && s.totalEntries == |recs|
      && s.minIndex in ix && (forall i :: 0 <= i < |ix| ==> s.minIndex <= ix[i])
      && s.maxIndex in ix && (forall i :: 0 <= i < |ix| ==> ix[i] <= s.maxIndex)
      && (forall i, j :: 0 <= i < j < |s.gaps| ==> s.gaps[i] < s.gaps[j])
      && (forall x :: x in s.gaps <==> s.minIndex <= x <= s.maxIndex && x !in ix)
      && |s.gaps| + |IndexSet(ix)| == s.maxIndex - s.minIndex + 1
      && s.names == NamesDict(Pairs(recs))
    ensures r.Some? ==>
      var s := r.value;
      && ValidDict(s.names)
      && (forall nm :: nm in s.duplicates <==>
            exists p, q :: 0 <= p < q < |s.names.keys| && NameAt(s.names, p) == nm && NameAt(s.names, q) == nm)
      && (forall nm :: nm in s.duplicates ==> s.duplicates[nm] == IndicesNamed(s.names, nm, |s.names.keys|))
  {
    if content.None? {
      return None;
    }
    var matches := Records(content.value);
    if matches == [] {
      return None;
    }
    var indices := Indices(matches);
    var names := NamesDict(Pairs(matches));
    var minIndex := MinOf(indices);
    var maxIndex := MaxOf(indices);
    var actual := IndexSet(indices);
    var gaps := Gaps(minIndex, maxIndex, actual);
    GapsOfIndices(indices);
    assert forall x :: x in gaps <==> minIndex <= x <= maxIndex && x !in indices;
    assert |gaps| + |actual| == maxIndex - minIndex + 1;
    var groups := NameToIndices(names);
    var duplicates := Duplicates(groups);
    DuplicatesShared(names, groups);
    r := Some(Stats(minIndex, maxIndex, |matches|, gaps, duplicates, names));
  }
}
