/** Collapsing subdomains onto a parent domain of the same batch
    (`domains_cleanup_map` and its use in `_main`, cleanup_domains.py). */
module CleanupDomains {
  import opened PyStr

  /** First labels a parent domain may not have. */
  const Reserved: set<string> := {"edu", "org", "ac"}

  ghost function Elems(xs: seq<string>): set<string> {
    set x | x in xs
  }

  /** The test on lines 22-26: `p` may replace `d`. */
  predicate IsParent(d: string, p: string) {
    var tail := Split(p, '.');
    && EndsWith(d, p)
    && |tail| > 1
    && LastN(Split(d, '.'), |tail|) == tail
    && tail[0] !in Reserved
  }

  lemma LastNIsSuffix(xs: seq<string>, t: seq<string>)
    requires |t| >= 1
    ensures LastN(xs, |t|) == t <==> EndsWith(xs, t)
  {
  }

  // ---------------------------------------------------------------------
  // The order of `sorted(set(domains), key=lambda s: s[::-1], reverse=True)`

  /** `x` comes before `y`: its reversal is the greater string. */
  predicate Before(x: string, y: string) {
    Less(Reversed(y), Reversed(x))
  }

  ghost predicate SortedDesc(ds: seq<string>) {
    forall i, j :: 0 <= i < j < |ds| ==> Before(ds[i], ds[j])
  }

  lemma BeforeTransitive(x: string, y: string, z: string)
    requires Before(x, y) && Before(y, z)
    ensures Before(x, z)
  {
    LessTransitive(Reversed(z), Reversed(y), Reversed(x));
  }

  lemma BeforeTotal(x: string, y: string)
    requires x != y
    ensures Before(x, y) || Before(y, x)
  {
    if Reversed(x) == Reversed(y) { ReversedInjective(x, y); }
    LessTotal(Reversed(x), Reversed(y));
  }

  /** A proper suffix of `d` sorts after `d`. */
  lemma ProperSuffixAfter(d: string, p: string)
    requires EndsWith(d, p) && |p| < |d|
    ensures Before(d, p)
  {
    var rd, rp := Reversed(d), Reversed(p);
    forall i | 0 <= i < |p| ensures rd[..|p|][i] == rp[i] {
      assert d[|d| - 1 - i] == d[|d| - |p|..][|p| - 1 - i];
    }
    PrefixLess(rp, rd);
  }

  /** In a sorted list, order between items agrees with `Before`. */
  lemma IndexOrder(ds: seq<string>, a: nat, b: nat)
    requires SortedDesc(ds) && a < |ds| && b < |ds|
    requires Before(ds[a], ds[b])
    ensures a < b
  {
    if b < a {
      LessTransitive(Reversed(ds[b]), Reversed(ds[a]), Reversed(ds[b]));
      LessIrreflexive(Reversed(ds[b]));
    } else if a == b {
      LessIrreflexive(Reversed(ds[a]));
    }
  }

  lemma SortedDistinct(ds: seq<string>)
    requires SortedDesc(ds)
    ensures Distinct(ds)
  {
    forall a, b | 0 <= a < b < |ds| ensures ds[a] != ds[b] {
      LessIrreflexive(Reversed(ds[a]));
    }
  }

  lemma ConsSorted(h: string, t: seq<string>)
    requires SortedDesc(t)
    requires forall k :: 0 <= k < |t| ==> Before(h, t[k])
    ensures SortedDesc([h] + t)
  {
    forall i, j | 0 <= i < j < |t| + 1 ensures Before(([h] + t)[i], ([h] + t)[j]) {
      assert ([h] + t)[j] == t[j - 1];
      if i > 0 { assert ([h] + t)[i] == t[i - 1]; }
    }
  }

  /** Inserts `x` into a sorted list of distinct domains, once. */
  function Insert(x: string, ds: seq<string>): (r: seq<string>)
    requires SortedDesc(ds)
    ensures SortedDesc(r)
    ensures forall y :: y in r <==> y == x || y in ds
  {
    if |ds| == 0 then [x]
    else if x == ds[0] then ds
    else if Before(x, ds[0]) then
      assert forall k :: 0 <= k < |ds| ==> Before(x, ds[k]) by {
        forall k | 0 <= k < |ds| ensures Before(x, ds[k]) {
          if k > 0 { BeforeTransitive(x, ds[0], ds[k]); }
        }
      }
      ConsSorted(x, ds);
      [x] + ds
    else
      var rest := Insert(x, ds[1..]);
      assert forall k :: 0 <= k < |rest| ==> Before(ds[0], rest[k]) by {
        BeforeTotal(x, ds[0]);
        forall k | 0 <= k < |rest| ensures Before(ds[0], rest[k]) {
          assert rest[k] in rest;
          if rest[k] != x {
            var l :| 0 <= l < |ds[1..]| && ds[1..][l] == rest[k];
            assert ds[l + 1] == rest[k];
          }
        }
      }
      ConsSorted(ds[0], rest);
      [ds[0]] + rest
  }

  /** `sorted(set(xs), key=lambda s: s[::-1], reverse=True)` */
  function SortByReversedDesc(xs: seq<string>): (ds: seq<string>)
    ensures SortedDesc(ds)
    ensures forall y :: y in ds <==> y in xs
  {
    if |xs| == 0 then []
    else Insert(xs[0], SortByReversedDesc(xs[1..]))
  }

  /** Two sorted lists with the same items are the same list: the sort
      depends only on the set of domains. */
  lemma {:induction false} SortedUnique(a: seq<string>, b: seq<string>)
    requires SortedDesc(a) && SortedDesc(b)
    requires forall y :: y in a <==> y in b
    ensures a == b
    decreases |a|
  {
    if |b| > 0 { assert b[0] in b; }
    if |a| > 0 {
      assert a[0] in b;
      assert b != [];
      assert b[0] in a;
      if a[0] != b[0] {
        var i :| 0 <= i < |a| && a[i] == b[0];
        var j :| 0 <= j < |b| && b[j] == a[0];
        IndexOrder(b, 0, j);
        assert Before(b[0], a[0]);
        IndexOrder(a, 0, i);
        LessTransitive(Reversed(a[0]), Reversed(b[0]), Reversed(a[0]));
        LessIrreflexive(Reversed(a[0]));
      }
      SortedDistinct(a);
      SortedDistinct(b);
      forall y ensures y in a[1..] <==> y in b[1..] {
        if y in a[1..] {
          var k :| 0 <= k < |a[1..]| && a[1..][k] == y;
          assert y in b;
          var l :| 0 <= l < |b| && b[l] == y;
          assert l != 0;
          assert b[1..][l - 1] == y;
        }
        if y in b[1..] {
          var k :| 0 <= k < |b[1..]| && b[1..][k] == y;
          assert y in a;
          var l :| 0 <= l < |a| && a[l] == y;
          assert l != 0;
          assert a[1..][l - 1] == y;
        }
      }
      SortedUnique(a[1..], b[1..]);
      assert a == [a[0]] + a[1..] && b == [b[0]] + b[1..];
    }
  }

  // ---------------------------------------------------------------------
  // What the map means, stated on the set of domains

  /** Some other domain of `S` may replace `d`. */
  ghost predicate HasParentIn(S: set<string>, d: string) {
    exists p :: p in S && p != d && IsParent(d, p)
  }

  /** `p` is the shortest domain of `S` that may replace `d`. */
  ghost predicate IsShortestParent(S: set<string>, d: string, p: string) {
    && p in S && p != d && IsParent(d, p)
    && forall q :: q in S && q != d && IsParent(d, q) ==> |p| <= |q|
  }

  /** `m` maps exactly the domains of `S` that have a parent in `S`, each to
      its shortest parent. */
  ghost predicate IsCleanupMap(S: set<string>, m: map<string, string>) {
    && (forall d :: d in m <==> d in S && HasParentIn(S, d))
    && (forall d :: d in m ==> IsShortestParent(S, d, m[d]))
  }

  // ---------------------------------------------------------------------
  // The nested loops, stated on positions of the sorted list

  /** `p` is the item at the last position in (a, j) that may replace `ds[a]`. */
  ghost predicate LastParentBelow(ds: seq<string>, a: nat, j: nat, p: string)
    requires a < |ds| && j <= |ds|
  {
    exists m :: a < m < j && ds[m] == p && IsParent(ds[a], ds[m])
                && forall b :: m < b < j ==> !IsParent(ds[a], ds[b])
  }

  /** The inner loop has tried positions (a, j) for `ds[a]`. */
  ghost predicate RowDoneBelow(ds: seq<string>, a: nat, j: nat, res: map<string, string>)
    requires a < |ds| && j <= |ds|
  {
    && (ds[a] in res <==> exists b :: a < b < j && IsParent(ds[a], ds[b]))
    && (ds[a] in res ==> LastParentBelow(ds, a, j, res[ds[a]]))
  }

  ghost predicate Distinct(ds: seq<string>) {
    forall a, b :: 0 <= a < b < |ds| ==> ds[a] != ds[b]
  }

  /** The outer loop has finished the rows of positions [0, i). */
  ghost predicate RowsDone(ds: seq<string>, i: nat, res: map<string, string>)
    requires i <= |ds|
  {
    && (forall a :: 0 <= a < i ==> RowDoneBelow(ds, a, |ds|, res))
    && (forall d :: d in res ==> d in ds[..i])
  }

  /** The inner loop for position `i` has tried positions (i, j). */
  ghost predicate InnerDone(ds: seq<string>, i: nat, j: nat, res: map<string, string>)
    requires i < j <= |ds|
  {
    && (forall a :: 0 <= a < i ==> RowDoneBelow(ds, a, |ds|, res))
    && (forall d :: d in res ==> d in ds[..i + 1])
    && RowDoneBelow(ds, i, j, res)
  }

  lemma InnerStart(ds: seq<string>, i: nat, res: map<string, string>)
    requires i + 1 <= |ds| && Distinct(ds)
    requires RowsDone(ds, i, res)
    ensures InnerDone(ds, i, i + 1, res)
  {
    forall d | d in res ensures d in ds[..i + 1] {
      var k :| 0 <= k < i && ds[..i][k] == d;
      assert ds[..i + 1][k] == d;
    }
  }

  /** One step of the inner loop (lines 22-28). */
  lemma InnerStep(ds: seq<string>, i: nat, j: nat, res: map<string, string>)
    requires i < j < |ds| && Distinct(ds)
    requires InnerDone(ds, i, j, res)
    ensures InnerDone(ds, i, j + 1,
                      if IsParent(ds[i], ds[j]) then res[ds[i] := ds[j]] else res)
  {
    if IsParent(ds[i], ds[j]) {
      var res' := res[ds[i] := ds[j]];
      assert LastParentBelow(ds, i, j + 1, res'[ds[i]]) by {
        assert ds[j] == res'[ds[i]] && IsParent(ds[i], ds[j]);
      }
      forall a | 0 <= a < i ensures RowDoneBelow(ds, a, |ds|, res') {
        assert ds[a] != ds[i];
        assert RowDoneBelow(ds, a, |ds|, res);
      }
      assert ds[..i + 1][i] == ds[i];
    } else if ds[i] in res {
      var m :| i < m < j && ds[m] == res[ds[i]] && IsParent(ds[i], ds[m])
               && forall b :: m < b < j ==> !IsParent(ds[i], ds[b]);
      assert forall b :: m < b < j + 1 ==> !IsParent(ds[i], ds[b]);
      assert LastParentBelow(ds, i, j + 1, res[ds[i]]);
    }
  }

  lemma InnerEnd(ds: seq<string>, i: nat, res: map<string, string>)
    requires i < |ds|
    requires InnerDone(ds, i, |ds|, res)
    ensures RowsDone(ds, i + 1, res)
  {
  }

  /** The outer loop stops one short of the end: the last item has no later
      candidate, so its row holds as well. */
  lemma LoopExit(ds: seq<string>, i: nat, res: map<string, string>)
    requires i <= |ds| && (|ds| > 0 ==> i == |ds| - 1) && Distinct(ds)
    requires RowsDone(ds, i, res)
    ensures forall a :: 0 <= a < |ds| ==> RowDoneBelow(ds, a, |ds|, res)
    ensures forall d :: d in res ==> d in ds
  {
    if |ds| > 0 {
      var n := |ds|;
      assert RowDoneBelow(ds, n - 1, n, res);
    }
    forall d | d in res ensures d in ds {
      var k :| 0 <= k < i && ds[..i][k] == d;
      assert ds[k] == d;
    }
  }

  /** After the loops, the keys are the domains with a parent in the batch. */
  lemma RowsGiveKeys(ds: seq<string>, res: map<string, string>)
    requires SortedDesc(ds)
    requires forall a :: 0 <= a < |ds| ==> RowDoneBelow(ds, a, |ds|, res)
    requires forall d :: d in res ==> d in ds
    ensures forall d :: d in res <==> d in Elems(ds) && HasParentIn(Elems(ds), d)
  {
    var S := Elems(ds);
    SortedDistinct(ds);
    forall d | d in S && HasParentIn(S, d) ensures d in res {
      var a :| 0 <= a < |ds| && ds[a] == d;
      var p :| p in S && p != d && IsParent(d, p);
      var b :| 0 <= b < |ds| && ds[b] == p;
      ProperSuffixShorter(d, p);
      ProperSuffixAfter(d, p);
      IndexOrder(ds, a, b);
      assert RowDoneBelow(ds, a, |ds|, res);
      assert IsParent(ds[a], ds[b]);
    }
    forall d | d in res ensures d in S && HasParentIn(S, d) {
      var a :| 0 <= a < |ds| && ds[a] == d;
      assert RowDoneBelow(ds, a, |ds|, res);
      var b :| a < b < |ds| && IsParent(ds[a], ds[b]);
      assert ds[b] in S && ds[b] != d;
    }
  }

  /** After the loops, the last write for a domain is its shortest parent. */
  lemma RowsGiveShortest(ds: seq<string>, res: map<string, string>, d: string)
    requires SortedDesc(ds)
    requires forall a :: 0 <= a < |ds| ==> RowDoneBelow(ds, a, |ds|, res)
    requires d in res && d in ds
    ensures IsShortestParent(Elems(ds), d, res[d])
  {
    var S := Elems(ds);
    SortedDistinct(ds);
    var a :| 0 <= a < |ds| && ds[a] == d;
    assert RowDoneBelow(ds, a, |ds|, res);
    assert LastParentBelow(ds, a, |ds|, res[d]);
    var m :| a < m < |ds| && ds[m] == res[d] && IsParent(d, ds[m])
             && forall b :: m < b < |ds| ==> !IsParent(d, ds[b]);
    assert ds[m] in S && ds[m] != d;
    forall q | q in S && q != d && IsParent(d, q) ensures |res[d]| <= |q| {
      var b :| 0 <= b < |ds| && ds[b] == q;
      if |q| < |ds[m]| {
        SuffixOfSuffix(d, ds[m], q);
        ProperSuffixAfter(ds[m], q);
        IndexOrder(ds, m, b);
      }
    }
  }

  lemma RowsGiveSpec(ds: seq<string>, res: map<string, string>)
    requires SortedDesc(ds)
    requires forall a :: 0 <= a < |ds| ==> RowDoneBelow(ds, a, |ds|, res)
    requires forall d :: d in res ==> d in ds
    ensures IsCleanupMap(Elems(ds), res)
  {
    RowsGiveKeys(ds, res);
    forall d | d in res ensures IsShortestParent(Elems(ds), d, res[d]) {
      RowsGiveShortest(ds, res, d);
    }
  }

  /** `domains_cleanup_map(domains)`: maps every domain that has a parent in
      the batch to its shortest parent, and nothing else. */
  method DomainsCleanupMap(domains: seq<string>) returns (res: map<string, string>)
    ensures IsCleanupMap(Elems(domains), res)
  {
    var ds := SortByReversedDesc(domains);
    SortedDistinct(ds);
    var n := |ds|;
    res := map[];
    var i := 0;
    while i < n - 1
      invariant 0 <= i <= n && (n > 0 ==> i <= n - 1)
      invariant RowsDone(ds, i, res)
    {
      InnerStart(ds, i, res);
      var j := i + 1;
      while j < n
        invariant i + 1 <= j <= n
        invariant InnerDone(ds, i, j, res)
      {
        InnerStep(ds, i, j, res);
        if IsParent(ds[i], ds[j]) {
          res := res[ds[i] := ds[j]];
        }
        j := j + 1;
      }
      InnerEnd(ds, i, res);
      i := i + 1;
    }
    LoopExit(ds, i, res);
    RowsGiveSpec(ds, res);
    assert Elems(ds) == Elems(domains);
  }

  // ---------------------------------------------------------------------
  // Properties of the map

  /** `d` is one or more labels, a dot, then `p`. */
  ghost predicate OnLabelBoundary(d: string, p: string) {
    |p| < |d| && d[|d| - |p|..] == p && d[|d| - |p| - 1] == '.'
  }

  /** A recorded pair `d -> p` is a match on a label boundary: `d` is some
      labels, a dot, then `p`; `p` has at least two labels and does not start
      with a reserved one. */
  lemma ParentShape(d: string, p: string)
    requires IsParent(d, p) && p != d
    ensures OnLabelBoundary(d, p)
    ensures EndsWith(Split(d, '.'), Split(p, '.'))
    ensures |Split(p, '.')| > 1 && Split(p, '.')[0] !in Reserved
  {
    var labels, tail := Split(d, '.'), Split(p, '.');
    LastNIsSuffix(labels, tail);
    JoinSplit(d, '.');
    JoinSplit(p, '.');
    var k := |labels| - |tail|;
    assert labels == labels[..k] + tail;
    JoinAppend(".", labels[..k], tail);
  }

  lemma IsParentTransitive(d: string, p: string, q: string)
    requires IsParent(d, p) && IsParent(p, q)
    ensures IsParent(d, q)
  {
    EndsWithTransitive(d, p, q);
    var ld, lp, lq := Split(d, '.'), Split(p, '.'), Split(q, '.');
    LastNIsSuffix(ld, lp);
    LastNIsSuffix(lp, lq);
    EndsWithTransitive(ld, lp, lq);
    LastNIsSuffix(ld, lq);
  }

  /** Every pair of the map: both sides come from the batch, differ, and the
      value is a label-boundary suffix of the key with a legal first label. */
  lemma CleanupMapPairs(S: set<string>, m: map<string, string>, d: string)
    requires IsCleanupMap(S, m) && d in m
    ensures d in S && m[d] in S && m[d] != d
    ensures OnLabelBoundary(d, m[d])
    ensures |Split(m[d], '.')| > 1 && Split(m[d], '.')[0] !in Reserved
  {
    var p := m[d];
    assert IsShortestParent(S, d, p);
    ParentShape(d, p);
  }

  /** The shortest parent of a domain has no parent of its own in the batch. */
  lemma ShortestParentIsRoot(S: set<string>, d: string, p: string)
    requires IsShortestParent(S, d, p)
    ensures !HasParentIn(S, p)
  {
    if HasParentIn(S, p) {
      var q :| q in S && q != p && IsParent(p, q);
      ParentShape(p, q);
      ParentShape(d, p);
      IsParentTransitive(d, p, q);
    }
  }

  /** No value of the map is a key, so rewriting is idempotent. */
  lemma {:induction false} CleanupMapIdempotent(S: set<string>, m: map<string, string>)
    requires IsCleanupMap(S, m)
    ensures forall d :: d in m ==> m[d] !in m
  {
    forall d | d in m ensures m[d] !in m {
      ShortestParentIsRoot(S, d, m[d]);
    }
  }

  /** The map is determined by the set of domains: neither the order nor the
      repetitions of the input change it. */
  lemma CleanupMapUnique(S: set<string>, m1: map<string, string>, m2: map<string, string>)
    requires IsCleanupMap(S, m1) && IsCleanupMap(S, m2)
    ensures m1 == m2
  {
    forall d | d in m1 ensures m1[d] == m2[d] {
      var p1, p2 := m1[d], m2[d];
      assert |p1| == |p2|;
      SuffixOfSuffix(d, p1, p2);
    }
  }

  /** The lookup of line 41 in the dictionary built on lines 39-40. */
  function Rewrite(m: map<string, string>, d: string): string {
    if d in m then m[d] else d
  }

  lemma RewriteIdempotent(S: set<string>, m: map<string, string>, d: string)
    requires IsCleanupMap(S, m)
    ensures Rewrite(m, Rewrite(m, d)) == Rewrite(m, d)
  {
    CleanupMapIdempotent(S, m);
  }

  /** What one cell of the `domain` column becomes. */
  ghost predicate CleanedTo(S: set<string>, d: string, r: string) {
    if HasParentIn(S, d) then IsShortestParent(S, d, r) else r == d
  }

  /** `_main`, lines 39-41: every cell becomes its shortest parent in the
      column, cells without one stay as they are, and no cell of the result
      has a parent left in the column. */
  method CleanupColumn(column: seq<string>) returns (cleaned: seq<string>)
    ensures |cleaned| == |column|
    ensures forall i :: 0 <= i < |column| ==> CleanedTo(Elems(column), column[i], cleaned[i])
    ensures forall i :: 0 <= i < |column| ==> !HasParentIn(Elems(column), cleaned[i])
  {
    var lookup := map d | d in column :: d;
    var cleanup := DomainsCleanupMap(column);
    lookup := lookup + cleanup;
    cleaned := seq(|column|, i requires 0 <= i < |column| => lookup[column[i]]);
    forall i | 0 <= i < |column|
      ensures CleanedTo(Elems(column), column[i], cleaned[i])
      ensures !HasParentIn(Elems(column), cleaned[i])
    {
      if column[i] in cleanup {
        ShortestParentIsRoot(Elems(column), column[i], cleanup[column[i]]);
      }
    }
  }

  /** A second pass over the cleaned column finds nothing to replace. */
  lemma SecondPassEmpty(column: seq<string>, cleaned: seq<string>, m: map<string, string>)
    requires |cleaned| == |column|
    requires forall i :: 0 <= i < |column| ==> CleanedTo(Elems(column), column[i], cleaned[i])
    requires forall i :: 0 <= i < |column| ==> !HasParentIn(Elems(column), cleaned[i])
    requires IsCleanupMap(Elems(cleaned), m)
    ensures m == map[]
  {
  }

  // ---------------------------------------------------------------------
  // Examples

  lemma LongerIsNotParent(d: string, p: string)
    requires |d| < |p|
    ensures !IsParent(d, p)
  {
  }

  lemma StanfordLabels(sub: string, parent: string)
    requires sub == "cs.stanford.edu" && parent == "stanford.edu"
    ensures IsParent(sub, parent)
  {
    assert parent[..8] == "stanford" && parent[8] == '.' && parent[9..] == "edu";
    assert sub[..2] == "cs" && sub[2] == '.' && sub[3..] == parent;
    SplitNoSep("edu", '.');
    SplitAt(parent, '.', 8);
    SplitAt(sub, '.', 2);
    var tail := Split(parent, '.');
    assert |tail| == 2 && tail[0] == "stanford";
    assert LastN(Split(sub, '.'), 2) == tail;
  }

  /** A batch of a domain and its parent: only the domain is mapped. */
  lemma TwoDomains(d: string, p: string, m: map<string, string>)
    requires IsParent(d, p) && |p| < |d|
    requires IsCleanupMap({d, p}, m)
    ensures m == map[d := p]
  {
    TwoDomainsKeys(d, p, m);
    assert IsShortestParent({d, p}, d, m[d]);
    SingletonMap(m, d, p);
  }

  lemma TwoDomainsKeys(d: string, p: string, m: map<string, string>)
    requires IsParent(d, p) && |p| < |d|
    requires IsCleanupMap({d, p}, m)
    ensures m.Keys == {d}
  {
    assert d in m by {
      assert HasParentIn({d, p}, d);
    }
    assert p !in m by {
      ShorterHasNoParent(d, p);
    }
    KeysOfPair(m, d, p);
  }

  lemma KeysOfPair(m: map<string, string>, d: string, p: string)
    requires m.Keys <= {d, p} && d in m && p !in m
    ensures m.Keys == {d}
  {
  }

  lemma ShorterHasNoParent(d: string, p: string)
    requires |p| < |d|
    ensures !HasParentIn({d, p}, p)
  {
    forall q | q in {d, p} && q != p ensures !IsParent(p, q) {
      assert q == d;
      LongerIsNotParent(p, d);
    }
  }

  /** `xyzstanford.edu` ends with `stanford.edu` but not on a label boundary. */
  lemma NoMatchInsideLabel(d: string, p: string)
    requires d == "xyzstanford.edu" && p == "stanford.edu"
    ensures !IsParent(d, p)
  {
    if IsParent(d, p) {
      ParentShape(d, p);
    }
  }

  /** `ac.uk` starts with a reserved label, so `ox.ac.uk` is not collapsed onto it. */
  lemma ReservedLabelBlocks(d: string, p: string)
    requires d == "ox.ac.uk" && p == "ac.uk"
    ensures !IsParent(d, p)
  {
    assert p[..2] == "ac" && p[2] == '.';
    SplitAt(p, '.', 2);
  }

  lemma SingletonMap(m: map<string, string>, k: string, v: string)
    requires m.Keys == {k} && m[k] == v
    ensures m == map[k := v]
  {
  }
}
