/** chartr()'s wide translation table, before and after
    patches/0049-character-chartr-sort-table-with-qsort.patch. */
module ChartrTable {

  /** idx counts the entries as they are filled in.  The old code had no such
      field: there it only labels entries, and nothing compares it. */
  datatype Entry = Entry(cOld: int, cNew: int, idx: int)

  // ---------- orders

  /** xtable_comp as the patch defines it. */
  function Comp(x: Entry, y: Entry): int {
    if x.cOld != y.cOld then (if x.cOld < y.cOld then -1 else 1)
    else if x.idx < y.idx then -1
    else if x.idx > y.idx then 1 else 0
  }

  /** xtable_comp as it was. */
  function OldComp(x: Entry, y: Entry): int { x.cOld - y.cOld }

  predicate Before(x: Entry, y: Entry) { Comp(x, y) < 0 }

  predicate Sorted(s: seq<Entry>) { forall i, j :: 0 <= i < j < |s| ==> Before(s[i], s[j]) }

  /** The table as it is filled: entry i has idx i. */
  predicate Filled(s: seq<Entry>) { forall i :: 0 <= i < |s| ==> s[i].idx == i }

  /** What qsort() may leave behind, in whatever way it sorts: the same entries
      with no pair out of order. */
  ghost predicate QsortResult(before: seq<Entry>, after: seq<Entry>) {
    && multiset(after) == multiset(before)
    && forall i, j :: 0 <= i < j < |after| ==> Comp(after[i], after[j]) <= 0
  }

  // ---------- keeping the last entry of each run

  function KeepLast(s: seq<Entry>): seq<Entry> {
    if |s| <= 1 then s
    else if s[0].cOld == s[1].cOld then KeepLast(s[1..])
    else [s[0]] + KeepLast(s[1..])
  }

  /** Dropping an entry whose successor has the same key changes nothing. */
  lemma {:induction false} DropOne(s: seq<Entry>, i: nat)
    requires i + 1 < |s| && s[i].cOld == s[i + 1].cOld
    ensures KeepLast(s[..i] + s[i + 1..]) == KeepLast(s)
  {
    var t := s[..i] + s[i + 1..];
    if i == 0 {
      assert t == s[1..];
    } else {
      DropOne(s[1..], i - 1);
      assert t[1..] == s[1..][..i - 1] + s[1..][i..];
      assert t[0] == s[0] && t[1].cOld == s[1].cOld;
    }
  }

  /** The first n entries all differ from their successors. */
  predicate Distinct(s: seq<Entry>, n: int) {
    forall i :: 0 <= i < n && i + 1 < |s| ==> s[i].cOld != s[i + 1].cOld
  }

  lemma DistinctAfterDrop(s: seq<Entry>, i: nat)
    requires i + 1 < |s| && s[i].cOld == s[i + 1].cOld && Distinct(s, i)
    ensures Distinct(s[..i] + s[i + 1..], i)
  {
  }

  /** A table without equal neighbours is kept whole. */
  lemma {:induction false} NothingToDrop(s: seq<Entry>)
    requires Distinct(s, |s| - 1)
    ensures KeepLast(s) == s
  {
    if |s| > 1 {
      var t := s[1..];
      assert forall i :: 0 <= i < |t| ==> t[i] == s[i + 1];
      NothingToDrop(t);
    }
  }

  lemma KeepFrom(s: seq<Entry>, i: nat)
    requires i < |s|
    ensures KeepLast(s[i..]) ==
            (if i + 1 == |s| || s[i].cOld != s[i + 1].cOld then [s[i]] else []) + KeepLast(s[i + 1..])
  {
    assert s[i..][1..] == s[i + 1..];
  }

  lemma KeepNone(s: seq<Entry>)
    ensures s[0..] == s && KeepLast(s[|s|..]) == []
  {
  }

  // ---------- the old code

  method Swap(a: array<Entry>, i: nat, j: nat)
    requires i < j < a.Length
    modifies a
    ensures a[..] == old(a[..])[i := old(a[j])][j := old(a[i])]
  {
    a[i], a[j] := a[j], a[i];
  }

  lemma SwapIsPermutation(s: seq<Entry>, i: nat, j: nat)
    requires i < j < |s|
    ensures multiset(s[i := s[j]][j := s[i]]) == multiset(s)
  {
  }

  /** The first i entries are sorted and are the first i of the spec; the rest
      is untouched. */
  predicate Prefix(s: seq<Entry>, i: nat) {
    && (forall p, q :: 0 <= p < q < i && q < |s| ==> Before(s[p], s[q]))
    && (forall p :: 0 <= p < i && p < |s| ==> s[p].idx < i)
    && (forall p :: i <= p < |s| ==> s[p].idx == p)
  }

  /** Entry i of the spec has sunk to position j. */
  predicate Sinking(s: seq<Entry>, i: nat, j: nat) {
    && j <= i < |s|
    && s[j].idx == i
    && (forall p, q :: 0 <= p < q <= i && p != j && q != j ==> Before(s[p], s[q]))
    && (forall q :: j < q <= i ==> s[j].cOld < s[q].cOld)
    && (forall p :: 0 <= p <= i && p != j ==> s[p].idx < i)
    && (forall p :: i < p < |s| ==> s[p].idx == p)
  }

  lemma SinkOne(s: seq<Entry>, i: nat, j: nat)
    requires Sinking(s, i, j) && j > 0 && OldComp(s[j - 1], s[j]) > 0
    ensures Sinking(s[j - 1 := s[j]][j := s[j - 1]], i, j - 1)
  {
  }

  lemma Sunk(s: seq<Entry>, i: nat, j: nat)
    requires Sinking(s, i, j) && (j == 0 || OldComp(s[j - 1], s[j]) <= 0)
    ensures Prefix(s, i + 1)
  {
    forall p | 0 <= p < j ensures Before(s[p], s[j]) {
      assert p == j - 1 || Before(s[p], s[j - 1]);
    }
  }

  /** ISORT: insertion sort by swaps, looking at cOld alone.  Being stable it
      leaves a freshly filled table in the order of the new comparison. */
  method InsertionSort(a: array<Entry>)
    requires Filled(a[..])
    modifies a
    ensures multiset(a[..]) == multiset(old(a[..]))
    ensures Sorted(a[..])
  {
    var i := 1;
    while i < a.Length
      invariant 1 <= i
      invariant i <= a.Length || a.Length == 0
      invariant multiset(a[..]) == multiset(old(a[..]))
      invariant Prefix(a[..], i)
    {
      var j := i;
      while j > 0 && OldComp(a[j - 1], a[j]) > 0
        invariant 0 <= j <= i
        invariant multiset(a[..]) == multiset(old(a[..]))
        invariant Sinking(a[..], i, j)
      {
        ghost var s := a[..];
        SinkOne(s, i, j);
        SwapIsPermutation(s, j - 1, j);
        Swap(a, j - 1, j);
        j := j - 1;
      }
      Sunk(a[..], i, j);
      i := i + 1;
    }
  }

  /** COMPRESS's inner loop: every entry from j on takes its successor's place. */
  method ShiftDown(a: array<Entry>, i: nat, n: nat)
    requires i < n <= a.Length
    modifies a
    ensures a[..n - 1] == old(a[..n])[..i] + old(a[..n])[i + 1..]
  {
    ghost var s := a[..n];
    var j := i;
    while j < n - 1
      invariant i <= j <= n - 1
      invariant forall p :: 0 <= p < i ==> a[p] == s[p]
      invariant forall p :: i <= p < j ==> a[p] == s[p + 1]
      invariant forall p :: j <= p < n ==> a[p] == s[p]
    {
      a[j] := a[j + 1];
      j := j + 1;
    }
  }

  /** COMPRESS: on equal neighbours shift the tail down by one, shorten the
      table, and look at the same place again (`_i--`). */
  method Compress(a: array<Entry>, num: nat) returns (n: nat)
    requires num <= a.Length
    modifies a
    ensures n <= num && a[..n] == KeepLast(old(a[..num]))
  {
    n := num;
    var i: int := 0;
    while i < n - 1
      invariant 0 <= i <= n <= num
      invariant KeepLast(a[..n]) == KeepLast(old(a[..num]))
      invariant Distinct(a[..n], i)
      decreases n - i
    {
      if OldComp(a[i], a[i + 1]) == 0 {
        ghost var s, at := a[..n], i as nat;
        DropOne(s, at);
        DistinctAfterDrop(s, at);
        var j := i;
        i := i - 1;
        ShiftDown(a, j, n);
        n := n - 1;
        assert a[..n] == s[..at] + s[at + 1..];
      }
      i := i + 1;
    }
    NothingToDrop(a[..n]);
  }

  // ---------- the new code

  /** The one-pass dedup that follows qsort(). */
  method Dedup(a: array<Entry>, num: nat) returns (n: nat)
    requires num <= a.Length
    modifies a
    ensures n <= num && a[..n] == KeepLast(old(a[..num]))
  {
    hide KeepLast;
    ghost var s := a[..num];
    KeepNone(s);
    var i, j := 0, 0;
    while i < num
      invariant j <= i <= num
      invariant a[..j] + KeepLast(s[i..]) == KeepLast(s)
      invariant forall p :: i <= p < num ==> a[p] == s[p]
    {
      KeepFrom(s, i);
      ghost var kept := a[..j];
      if i + 1 == num || a[i].cOld != a[i + 1].cOld {
        a[j] := a[i];
        j := j + 1;
        assert a[..j] == kept + [s[i]];
      }
      i := i + 1;
    }
    return j;
  }

  // ---------- they agree

  lemma SameFirst(s: seq<Entry>, t: seq<Entry>)
    requires s != [] && Sorted(s) && Sorted(t) && multiset(s) == multiset(t)
    ensures t != [] && s[0] == t[0]
  {
    var x := s[0];
    assert x in multiset(t);
    var i :| 0 <= i < |t| && t[i] == x;
    assert t[0] in multiset(s);
    var j :| 0 <= j < |s| && s[j] == t[0];
  }

  lemma SortedRest(s: seq<Entry>)
    requires s != [] && Sorted(s)
    ensures Sorted(s[1..]) && multiset(s[1..]) == multiset(s) - multiset{s[0]}
  {
    assert s == [s[0]] + s[1..];
    hide Before;
    assert forall i :: 0 <= i < |s| - 1 ==> s[1..][i] == s[i + 1];
  }

  lemma {:induction false} SortedIsUnique(s: seq<Entry>, t: seq<Entry>)
    requires Sorted(s) && Sorted(t) && multiset(s) == multiset(t)
    ensures s == t
  {
    if s != [] {
      SameFirst(s, t);
      SortedRest(s);
      SortedRest(t);
      hide Sorted;
      SortedIsUnique(s[1..], t[1..]);
      assert s == [s[0]] + s[1..] && t == [t[0]] + t[1..];
    } else {
      assert |t| == |multiset(t)| == 0;
    }
  }

  lemma TwiceInMultiset(s: seq<Entry>, i: nat, j: nat)
    requires i < j < |s| && s[i] == s[j]
    ensures multiset(s)[s[i]] >= 2
  {
    assert s == s[..i] + [s[i]] + s[i + 1..j] + [s[j]] + s[j + 1..];
  }

  lemma OnceInFilled(s: seq<Entry>, x: Entry)
    requires Filled(s) && x in s
    ensures multiset(s)[x] == 1
  {
    var p :| 0 <= p < |s| && s[p] == x;
    assert s == s[..p] + [x] + s[p + 1..];
    assert x !in s[..p] && x !in s[p + 1..];
  }

  lemma NoTie(before: seq<Entry>, after: seq<Entry>, i: nat, j: nat)
    requires Filled(before) && multiset(after) == multiset(before) && i < j < |after|
    ensures Comp(after[i], after[j]) != 0
  {
    var x, y := after[i], after[j];
    assert x in multiset(before) && y in multiset(before);
    var p :| 0 <= p < |before| && before[p] == x;
    var q :| 0 <= q < |before| && before[q] == y;
    OnceInFilled(before, x);
    if x == y {
      TwiceInMultiset(after, i, j);
    }
  }

  /** With distinct idx there are no ties, so any qsort() of the table is the
      one strictly sorted arrangement. */
  lemma QsortIsStrict(before: seq<Entry>, after: seq<Entry>)
    requires Filled(before) && QsortResult(before, after)
    ensures Sorted(after)
  {
    forall i, j | 0 <= i < j < |after| ensures Before(after[i], after[j]) {
      NoTie(before, after, i, j);
    }
  }

  /** The old and the new code leave the same table, for every table as filled
      and whatever qsort() made of its copy. */
  method RewriteAgrees(table: array<Entry>, qsorted: array<Entry>) returns (n: nat, m: nat)
    requires table != qsorted && Filled(table[..]) && QsortResult(table[..], qsorted[..])
    modifies table, qsorted
    ensures n == m <= table.Length && m <= qsorted.Length
    ensures table[..n] == qsorted[..m] == KeepLast(old(qsorted[..]))
  {
    ghost var filled, sorted := table[..], qsorted[..];
    InsertionSort(table);
    QsortIsStrict(filled, sorted);
    SortedIsUnique(table[..], sorted);
    assert table[..table.Length] == sorted == qsorted[..qsorted.Length];
    n := Compress(table, table.Length);
    m := Dedup(qsorted, qsorted.Length);
  }

  // ---------- what the table means

  /** Assigning the mappings of the spec one by one, as the narrow path does. */
  function Assigned(spec: seq<Entry>): map<int, int> {
    if spec == [] then map[]
    else var e := spec[|spec| - 1]; Assigned(spec[..|spec| - 1])[e.cOld := e.cNew]
  }

  ghost predicate LookedUp(table: seq<Entry>, c: int, v: int) {
    exists i :: 0 <= i < |table| && table[i].cOld == c && table[i].cNew == v
  }

  predicate StrictKeys(table: seq<Entry>) {
    forall i, j :: 0 <= i < j < |table| ==> table[i].cOld < table[j].cOld
  }

  /** Entry e gives its character's last mapping among s. */
  predicate IsLast(s: seq<Entry>, e: Entry) {
    e in s && forall f :: f in s && f.cOld == e.cOld ==> f.idx <= e.idx
  }

  lemma {:induction false} KeptAreLast(s: seq<Entry>)
    requires Sorted(s)
    ensures StrictKeys(KeepLast(s))
    ensures forall e :: e in KeepLast(s) <==> IsLast(s, e)
  {
    if |s| > 1 {
      var t := s[1..];
      KeptAreLast(t);
      assert forall i :: 0 <= i < |t| ==> t[i] == s[i + 1];
      assert s == [s[0]] + t;
      forall e ensures e in KeepLast(s) <==> IsLast(s, e) {
        if e in t {
          assert Before(s[0], e);
        }
        if e == s[0] {
          assert s[1] in s;
          assert s[0].cOld == s[1].cOld ==> !IsLast(s, e);
          if s[0].cOld != s[1].cOld {
            forall f | f in t ensures f.cOld > e.cOld {
              assert f == s[1] || Before(s[1], f);
            }
            assert IsLast(s, e);
          }
        }
      }
      if s[0].cOld != s[1].cOld {
        forall f | f in KeepLast(t) ensures f.cOld > s[0].cOld {
          assert f in t;
          assert f == s[1] || Before(s[1], f);
        }
      }
    }
  }

  lemma {:induction false} AssignedIsLast(spec: seq<Entry>, c: int)
    requires Filled(spec)
    ensures c in Assigned(spec) <==> exists e :: IsLast(spec, e) && e.cOld == c
    ensures forall e: Entry :: IsLast(spec, e) && e.cOld == c ==> Assigned(spec)[c] == e.cNew
  {
    if spec != [] {
      var n := |spec| - 1;
      var before, last := spec[..n], spec[n];
      AssignedIsLast(before, c);
      assert spec == before + [last];
      assert IsLast(spec, last);
      forall e: Entry | e.cOld == c && c != last.cOld ensures IsLast(spec, e) <==> IsLast(before, e) {
      }
      forall e | IsLast(spec, e) && e.cOld == c == last.cOld ensures e == last {
      }
    }
  }

  /** The deduplicated table has each character once, in increasing order, and
      maps it to the last mapping the spec gives it: what assigning the
      mappings one by one would do. */
  lemma TableMeansLastWins(spec: seq<Entry>, sorted: seq<Entry>, c: int, v: int)
    requires Filled(spec) && QsortResult(spec, sorted)
    ensures StrictKeys(KeepLast(sorted))
    ensures LookedUp(KeepLast(sorted), c, v) <==> c in Assigned(spec) && Assigned(spec)[c] == v
  {
    QsortIsStrict(spec, sorted);
    KeptAreLast(sorted);
    AssignedIsLast(spec, c);
    var table := KeepLast(sorted);
    assert forall e :: e in sorted <==> e in multiset(sorted);
    assert forall e :: e in spec <==> e in multiset(spec);
    assert forall e :: IsLast(sorted, e) <==> IsLast(spec, e);
    if LookedUp(table, c, v) {
      var i :| 0 <= i < |table| && table[i].cOld == c && table[i].cNew == v;
      assert table[i] in table;
      assert IsLast(spec, table[i]);
    }
    if c in Assigned(spec) && Assigned(spec)[c] == v {
      var e :| IsLast(spec, e) && e.cOld == c;
      assert e in table;
      var i :| 0 <= i < |table| && table[i] == e;
    }
  }
}
