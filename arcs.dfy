/** Transducer arcs `[src_state, dest_state, label, aux_label, score]` and the
    stable sort by source state (`sorted(arcs, key=lambda arc: arc[0])`). */
module Arcs {

  /** One arc: source and destination state, input label (token id), output
      label (word id, 0 for epsilon) and weight. */
  datatype Arc = Arc(src: int, dst: int, ilabel: int, olabel: int, weight: int)

  /** Words enter and leave the transducer through state 0. */
  const LoopState: int := 0

  /** The epsilon label. */
  const Epsilon: int := 0

  /** The arcs leaving state `s`, in their original order. */
  function FilterSrc(arcs: seq<Arc>, s: int): seq<Arc>
  {
    if |arcs| == 0 then []
    else (if arcs[0].src == s then [arcs[0]] else []) + FilterSrc(arcs[1..], s)
  }

  /** The arcs entering state `s`, in their original order. */
  function FilterDst(arcs: seq<Arc>, s: int): seq<Arc>
  {
    if |arcs| == 0 then []
    else (if arcs[0].dst == s then [arcs[0]] else []) + FilterDst(arcs[1..], s)
  }

  predicate SortedBySrc(arcs: seq<Arc>) {
    forall i, j :: 0 <= i < j < |arcs| ==> arcs[i].src <= arcs[j].src
  }

  /** Inserts `x` before the first arc whose source is not smaller than its own. */
  function Insert(x: Arc, s: seq<Arc>): (r: seq<Arc>)
    ensures multiset(r) == multiset(s) + multiset{x}
  {
    if |s| == 0 || x.src <= s[0].src then [x] + s
    else
      assert s == [s[0]] + s[1..];
      [s[0]] + Insert(x, s[1..])
  }

  lemma {:induction false} InsertSorted(x: Arc, s: seq<Arc>)
    requires SortedBySrc(s)
    ensures SortedBySrc(Insert(x, s))
    decreases |s|
  {
    if |s| > 0 && x.src > s[0].src {
      var rest := Insert(x, s[1..]);
      InsertSorted(x, s[1..]);
      forall j | 0 <= j < |rest|
        ensures s[0].src <= rest[j].src
      {
        assert rest[j] in multiset(rest);
        assert rest[j] == x || rest[j] in multiset(s[1..]);
      }
    }
  }

  /** A stable sort by source state. */
  function SortBySrc(arcs: seq<Arc>): (r: seq<Arc>)
    ensures multiset(r) == multiset(arcs)
  {
    if |arcs| == 0 then []
    else
      assert arcs == [arcs[0]] + arcs[1..];
      Insert(arcs[0], SortBySrc(arcs[1..]))
  }

  lemma {:induction false} SortBySrcSorted(arcs: seq<Arc>)
    ensures SortedBySrc(SortBySrc(arcs))
    decreases |arcs|
  {
    if |arcs| > 0 {
      SortBySrcSorted(arcs[1..]);
      InsertSorted(arcs[0], SortBySrc(arcs[1..]));
    }
  }

  lemma {:induction false} FilterSrcMembers(arcs: seq<Arc>, s: int)
    ensures forall a :: a in FilterSrc(arcs, s) <==> a in arcs && a.src == s
    decreases |arcs|
  {
    if |arcs| > 0 {
      FilterSrcMembers(arcs[1..], s);
      assert arcs == [arcs[0]] + arcs[1..];
    }
  }

  lemma {:induction false} FilterDstMembers(arcs: seq<Arc>, s: int)
    ensures forall a :: a in FilterDst(arcs, s) <==> a in arcs && a.dst == s
    decreases |arcs|
  {
    if |arcs| > 0 {
      FilterDstMembers(arcs[1..], s);
      assert arcs == [arcs[0]] + arcs[1..];
    }
  }

  lemma {:induction false} FilterSrcAppend(a: seq<Arc>, b: seq<Arc>, s: int)
    ensures FilterSrc(a + b, s) == FilterSrc(a, s) + FilterSrc(b, s)
    decreases |a|
  {
    if |a| > 0 {
      assert (a + b)[0] == a[0] && (a + b)[1..] == a[1..] + b;
      FilterSrcAppend(a[1..], b, s);
    } else {
      assert a + b == b;
    }
  }

  lemma {:induction false} FilterDstAppend(a: seq<Arc>, b: seq<Arc>, s: int)
    ensures FilterDst(a + b, s) == FilterDst(a, s) + FilterDst(b, s)
    decreases |a|
  {
    if |a| > 0 {
      assert (a + b)[0] == a[0] && (a + b)[1..] == a[1..] + b;
      FilterDstAppend(a[1..], b, s);
    } else {
      assert a + b == b;
    }
  }

  lemma {:induction false} InsertFilter(x: Arc, s: seq<Arc>, k: int)
    ensures FilterSrc(Insert(x, s), k) == FilterSrc([x], k) + FilterSrc(s, k)
    decreases |s|
  {
    if |s| == 0 || x.src <= s[0].src {
      FilterSrcAppend([x], s, k);
    } else {
      var rest := Insert(x, s[1..]);
      assert ([s[0]] + rest)[0] == s[0] && ([s[0]] + rest)[1..] == rest;
      InsertFilter(x, s[1..], k);
      assert FilterSrc([x], k) == (if x.src == k then [x] else []);
      assert FilterSrc(s, k) == (if s[0].src == k then [s[0]] else []) + FilterSrc(s[1..], k);
    }
  }

  /** The sort keeps the arcs of each source state in their original order. */
  lemma {:induction false} SortBySrcStable(arcs: seq<Arc>, k: int)
    ensures FilterSrc(SortBySrc(arcs), k) == FilterSrc(arcs, k)
    decreases |arcs|
  {
    if |arcs| > 0 {
      SortBySrcStable(arcs[1..], k);
      InsertFilter(arcs[0], SortBySrc(arcs[1..]), k);
      assert FilterSrc([arcs[0]], k) == (if arcs[0].src == k then [arcs[0]] else []);
    }
  }

  lemma FilterSrcHead(a: seq<Arc>)
    ensures |a| > 0 ==> FilterSrc(a, a[0].src) == [a[0]] + FilterSrc(a[1..], a[0].src)
  {
  }

  /** Sorting by source and keeping each source's arcs in order determines
      the result: two such sequences are equal. */
  lemma {:induction false} SortedWithSameFiltersEqual(a: seq<Arc>, b: seq<Arc>)
    requires SortedBySrc(a) && SortedBySrc(b)
    requires forall k :: FilterSrc(a, k) == FilterSrc(b, k)
    ensures a == b
    decreases |a|
  {
    FilterSrcHead(a);
    FilterSrcHead(b);
    if |a| > 0 && |b| > 0 {
      var ka, kb := a[0].src, b[0].src;
      FilterSrcMembers(a, kb);
      FilterSrcMembers(b, ka);
      assert FilterSrc(b, ka)[0] in b;
      assert FilterSrc(a, kb)[0] in a;
      assert forall x :: x in b ==> kb <= x.src;
      assert forall x :: x in a ==> ka <= x.src;
      assert ka == kb;
      assert a[0] == b[0];
      forall k
        ensures FilterSrc(a[1..], k) == FilterSrc(b[1..], k)
      {
        var head := if a[0].src == k then [a[0]] else [];
        assert FilterSrc(a, k) == head + FilterSrc(a[1..], k);
        assert FilterSrc(b, k) == head + FilterSrc(b[1..], k);
        assert FilterSrc(a[1..], k) == FilterSrc(a, k)[|head|..];
        assert FilterSrc(b[1..], k) == FilterSrc(b, k)[|head|..];
      }
      SortedWithSameFiltersEqual(a[1..], b[1..]);
      assert a == [a[0]] + a[1..] && b == [b[0]] + b[1..];
    } else {
      assert |a| == 0 ==> FilterSrc(a, 0) == [];
    }
  }

  /** `SortBySrc` is Python's stable `sorted` keyed on the source state: the
      only sequence that is ordered by source and keeps every source's arcs in
      their original order. */
  lemma SortBySrcIsStableSort(arcs: seq<Arc>, r: seq<Arc>)
    ensures SortedBySrc(r) && (forall k :: FilterSrc(r, k) == FilterSrc(arcs, k)) ==> r == SortBySrc(arcs)
    ensures r == SortBySrc(arcs) ==> SortedBySrc(r) && forall k :: FilterSrc(r, k) == FilterSrc(arcs, k)
  {
    SortBySrcSorted(arcs);
    forall k ensures FilterSrc(SortBySrc(arcs), k) == FilterSrc(arcs, k) {
      SortBySrcStable(arcs, k);
    }
    if SortedBySrc(r) && (forall k :: FilterSrc(r, k) == FilterSrc(arcs, k)) {
      forall k ensures FilterSrc(r, k) == FilterSrc(SortBySrc(arcs), k) {
        SortBySrcStable(arcs, k);
      }
      SortedWithSameFiltersEqual(r, SortBySrc(arcs));
    }
    if r == SortBySrc(arcs) {
      assert forall k :: FilterSrc(r, k) == FilterSrc(arcs, k);
    }
  }

  /** No arc leaves `s`: nothing is kept. */
  lemma {:induction false} FilterSrcNone(w: seq<Arc>, s: int)
    requires forall j :: 0 <= j < |w| ==> w[j].src != s
    ensures FilterSrc(w, s) == []
    decreases |w|
  {
    if |w| > 0 {
      FilterSrcNone(w[1..], s);
    }
  }

  lemma {:induction false} FilterDstNone(w: seq<Arc>, s: int)
    requires forall j :: 0 <= j < |w| ==> w[j].dst != s
    ensures FilterDst(w, s) == []
    decreases |w|
  {
    if |w| > 0 {
      FilterDstNone(w[1..], s);
    }
  }

  /** Exactly arc `i` leaves `s`: it is all that is kept. */
  lemma FilterSrcSingle(w: seq<Arc>, i: nat, s: int)
    requires i < |w| && w[i].src == s
    requires forall j :: 0 <= j < |w| && j != i ==> w[j].src != s
    ensures FilterSrc(w, s) == [w[i]]
  {
    assert w == w[..i] + [w[i]] + w[i + 1..];
    FilterSrcAppend(w[..i] + [w[i]], w[i + 1..], s);
    FilterSrcAppend(w[..i], [w[i]], s);
    FilterSrcNone(w[..i], s);
    FilterSrcNone(w[i + 1..], s);
  }

  lemma FilterDstSingle(w: seq<Arc>, i: nat, s: int)
    requires i < |w| && w[i].dst == s
    requires forall j :: 0 <= j < |w| && j != i ==> w[j].dst != s
    ensures FilterDst(w, s) == [w[i]]
  {
    assert w == w[..i] + [w[i]] + w[i + 1..];
    FilterDstAppend(w[..i] + [w[i]], w[i + 1..], s);
    FilterDstAppend(w[..i], [w[i]], s);
    FilterDstNone(w[..i], s);
    FilterDstNone(w[i + 1..], s);
  }

  /** How often an arc occurs among those entering `s`. */
  lemma {:induction false} FilterDstMultiset(w: seq<Arc>, s: int, x: Arc)
    ensures multiset(FilterDst(w, s))[x] == if x.dst == s then multiset(w)[x] else 0
    decreases |w|
  {
    if |w| > 0 {
      FilterDstMultiset(w[1..], s, x);
      assert w == [w[0]] + w[1..];
    }
  }

  /** Reordering the arcs does not change how many enter a state. */
  lemma InDegreePermutation(a: seq<Arc>, b: seq<Arc>, s: int)
    requires multiset(a) == multiset(b)
    ensures |FilterDst(a, s)| == |FilterDst(b, s)|
  {
    forall x ensures multiset(FilterDst(a, s))[x] == multiset(FilterDst(b, s))[x] {
      FilterDstMultiset(a, s, x);
      FilterDstMultiset(b, s, x);
    }
    assert multiset(FilterDst(a, s)) == multiset(FilterDst(b, s));
    assert |multiset(FilterDst(a, s))| == |FilterDst(a, s)|;
  }

  /** The sort keeps exactly the arcs it was given. */
  lemma SortBySrcMembers(arcs: seq<Arc>)
    ensures forall a :: a in SortBySrc(arcs) <==> a in arcs
  {
    forall a ensures a in SortBySrc(arcs) <==> a in arcs {
      assert a in SortBySrc(arcs) <==> a in multiset(SortBySrc(arcs));
      assert a in arcs <==> a in multiset(arcs);
    }
  }
}
