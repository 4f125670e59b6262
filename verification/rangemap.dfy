/** A `std::map` keyed by inclusive integer ranges (`pair<int,int>` / `pair<ADDR32,ADDR32>`),
    kept as an association list sorted by the lexicographic order the C++ map iterates in.
    It serves both the symbolic memory (`SEEngine::mem`) and a hybrid value's `childs`. */
module RangeMap {
  import opened Wrappers

  datatype Range = Range(lo: int, hi: int)

  /** `pair<>::operator<`: first components, then second. */
  predicate Less(a: Range, b: Range) {
    a.lo < b.lo || (a.lo == b.lo && a.hi < b.hi)
  }

  datatype Entry = Entry(key: Range, val: nat)

  type Map = seq<Entry>

  ghost predicate Sorted(m: Map) {
    forall i, j :: 0 <= i < j < |m| ==> Less(m[i].key, m[j].key)
  }

  function Keys(m: Map): set<Range> {
    if |m| == 0 then {} else {m[0].key} + Keys(m[1..])
  }

  lemma KeysIndex(m: Map, k: Range)
    ensures k in Keys(m) <==> exists i :: 0 <= i < |m| && m[i].key == k
  {
    if |m| > 0 {
      KeysIndex(m[1..], k);
      if k in Keys(m[1..]) {
        var i :| 0 <= i < |m[1..]| && m[1..][i].key == k;
        assert m[i + 1].key == k;
      }
      if exists i :: 0 <= i < |m| && m[i].key == k {
        var i :| 0 <= i < |m| && m[i].key == k;
        if i > 0 { assert m[1..][i - 1].key == k; }
      }
    }
  }

  /** `map::find`. */
  function Get(m: Map, k: Range): (r: Option<nat>)
    ensures r.Some? <==> k in Keys(m)
    ensures r.Some? ==> Entry(k, r.value) in m
  {
    if |m| == 0 then None
    else if m[0].key == k then Some(m[0].val)
    else
      var r := Get(m[1..], k);
      assert Keys(m) == {m[0].key} + Keys(m[1..]);
      r
  }

  /** `m[k] = v`: overwrite the entry for `k`, or insert it at its place in the order. */
  function Put(m: Map, k: Range, v: nat): (r: Map)
    ensures Sorted(m) ==> Sorted(r)
    ensures Keys(r) == Keys(m) + {k}
    ensures Get(r, k) == Some(v)
    ensures forall k' :: k' != k ==> Get(r, k') == Get(m, k')
  {
    if |m| == 0 then [Entry(k, v)]
    else if m[0].key == k then
      var r := [Entry(k, v)] + m[1..];
      assert r[1..] == m[1..];
      assert Keys(r) == {k} + Keys(m[1..]);
      assert Sorted(m) ==> Sorted(r) by {
        if Sorted(m) { TailAfterHead(m); ConsSorted(Entry(k, v), m[1..]); }
      }
      r
    else if Less(k, m[0].key) then
      var r := [Entry(k, v)] + m;
      assert r[1..] == m;
      assert Keys(r) == {k} + Keys(m);
      KeysSortedAfter(m, k);
      assert Sorted(m) ==> Sorted(r) by {
        if Sorted(m) { ConsSorted(Entry(k, v), m); }
      }
      r
    else
      var t := Put(m[1..], k, v);
      var r := [m[0]] + t;
      assert r[1..] == t;
      assert Keys(r) == {m[0].key} + Keys(t);
      assert Sorted(m) ==> Sorted(r) by {
        if Sorted(m) {
          TailAfterHead(m);
          ConsSorted(m[0], t);
        }
      }
      r
  }

  /** An entry whose key precedes every key of a sorted map can go in front of it. */
  lemma ConsSorted(e: Entry, t: Map)
    requires Sorted(t) && forall k' :: k' in Keys(t) ==> Less(e.key, k')
    ensures Sorted([e] + t)
  {
    var r := [e] + t;
    forall i, j | 0 <= i < j < |r| ensures Less(r[i].key, r[j].key) {
      if i == 0 {
        assert r[j].key == t[j - 1].key;
        KeysIndex(t, t[j - 1].key);
      } else {
        assert r[i] == t[i - 1] && r[j] == t[j - 1];
      }
    }
  }

  /** Every key of a sorted map lies after a key that precedes its first entry. */
  lemma KeysSortedAfter(m: Map, k: Range)
    ensures Sorted(m) ==> forall k' :: k' in Keys(m) && (|m| > 0 && Less(k, m[0].key)) ==> Less(k, k')
  {
    forall k' | Sorted(m) && k' in Keys(m) && |m| > 0 && Less(k, m[0].key)
      ensures Less(k, k')
    {
      KeysIndex(m, k');
    }
  }

  /** In a sorted map every key after the first is larger than the first. */
  lemma TailAfterHead(m: Map)
    requires |m| > 0
    ensures Sorted(m) ==> forall k' :: k' in Keys(m[1..]) ==> Less(m[0].key, k')
  {
    forall k' | Sorted(m) && k' in Keys(m[1..])
      ensures Less(m[0].key, k')
    {
      KeysIndex(m[1..], k');
    }
  }

  /** `map::insert`: like `Put`, but an existing entry for `k` is left alone. */
  function Insert(m: Map, k: Range, v: nat): (r: Map)
    ensures Sorted(m) ==> Sorted(r)
    ensures Keys(r) == Keys(m) + {k}
    ensures k in Keys(m) ==> r == m
    ensures k !in Keys(m) ==> Get(r, k) == Some(v)
    ensures forall k' :: k' != k ==> Get(r, k') == Get(m, k')
  {
    if k in Keys(m) then m else Put(m, k, v)
  }

  /** Successive `map::insert`s of `es`, in order. */
  function InsertAll(m: Map, es: seq<Entry>): (r: Map)
    ensures Sorted(m) ==> Sorted(r)
    decreases |es|
  {
    if |es| == 0 then m else InsertAll(Insert(m, es[0].key, es[0].val), es[1..])
  }

  /** `map::erase(k)`. */
  function Erase(m: Map, k: Range): (r: Map)
    ensures Sorted(m) ==> Sorted(r)
    ensures Sorted(m) ==> Keys(r) == Keys(m) - {k}
    ensures forall k' :: k' != k ==> Get(r, k') == Get(m, k')
  {
    if |m| == 0 then m
    else if m[0].key == k then
      TailAfterHead(m);
      m[1..]
    else
      var t := Erase(m[1..], k);
      var r := [m[0]] + t;
      assert r[1..] == t;
      r
  }

  /** Overwrites the value of every entry whose key is `k`; the keys stay as they are
      (`it->second = v` through an iterator). */
  function Replace(m: Map, k: Range, v: nat): (r: Map)
    ensures |r| == |m|
    ensures forall i :: 0 <= i < |m| ==> r[i].key == m[i].key
    ensures forall i :: 0 <= i < |m| ==> r[i].val == (if m[i].key == k then v else m[i].val)
  {
    if |m| == 0 then m
    else [Entry(m[0].key, if m[0].key == k then v else m[0].val)] + Replace(m[1..], k, v)
  }

  /** After `Replace` a key maps to `v` if it is `k` and was present, and to what it
      mapped to before otherwise. */
  lemma {:induction false} ReplaceGet(m: Map, k: Range, v: nat, k': Range)
    ensures Get(Replace(m, k, v), k') ==
            (if Get(m, k').Some? then Some(if k' == k then v else Get(m, k').value) else None)
  {
    if |m| > 0 {
      ReplaceGet(m[1..], k, v, k');
      assert Replace(m, k, v)[1..] == Replace(m[1..], k, v);
    }
  }

  /** The first key, in iteration order, that satisfies `p`: how the engine's
      `isnew`/`issubset`/`issuperset` scans stop at the first hit. */
  function FirstKey(m: Map, p: Range -> bool): (r: Option<Range>)
    ensures r.Some? ==> r.value in Keys(m) && p(r.value)
    ensures r.None? <==> forall i :: 0 <= i < |m| ==> !p(m[i].key)
  {
    if |m| == 0 then None
    else if p(m[0].key) then Some(m[0].key)
    else
      var r := FirstKey(m[1..], p);
      assert Keys(m) == {m[0].key} + Keys(m[1..]);
      r
  }

  /** The key found is the first entry's key that satisfies `p`: every entry before it
      fails `p`. */
  lemma {:induction false} FirstKeyFirst(m: Map, p: Range -> bool)
    requires FirstKey(m, p).Some?
    ensures exists i :: 0 <= i < |m| && m[i].key == FirstKey(m, p).value &&
                        forall j :: 0 <= j < i ==> !p(m[j].key)
  {
    if !p(m[0].key) {
      var t := m[1..];
      FirstKeyFirst(t, p);
      var i :| 0 <= i < |t| && t[i].key == FirstKey(t, p).value && forall j :: 0 <= j < i ==> !p(t[j].key);
      assert m[i + 1].key == FirstKey(m, p).value;
      forall j | 0 <= j < i + 1 ensures !p(m[j].key) {
        if j > 0 { assert m[j] == t[j - 1]; }
      }
    } else {
      assert m[0].key == FirstKey(m, p).value;
    }
  }

  /** In a sorted map the first hit is also the least hit in the key order. */
  lemma FirstKeyIsLeast(m: Map, p: Range -> bool)
    requires Sorted(m)
    requires FirstKey(m, p).Some?
    ensures forall k :: k in Keys(m) && p(k) && k != FirstKey(m, p).value ==>
                        Less(FirstKey(m, p).value, k)
  {
    var f := FirstKey(m, p).value;
    FirstKeyFirst(m, p);
    var i :| 0 <= i < |m| && m[i].key == f && forall j :: 0 <= j < i ==> !p(m[j].key);
    forall k | k in Keys(m) && p(k) && k != f
      ensures Less(f, k)
    {
      KeysIndex(m, k);
      var j :| 0 <= j < |m| && m[j].key == k;
      assert j != i;
      assert !(j < i);
    }
  }

  /** What a map whose values are all at most `n` finds is at most `n`. */
  lemma {:induction false} GetBelow(m: Map, k: Range, n: nat)
    requires ValsBelow(m, n)
    requires Get(m, k).Some?
    ensures Get(m, k).value <= n
  {
    if m[0].key != k {
      GetBelow(m[1..], k, n);
    }
  }

  /** Every value a map holds is at most `n`. */
  predicate ValsBelow(m: Map, n: nat) {
    forall i | 0 <= i < |m| :: m[i].val <= n
  }

  /** `Put` of a value at most `n` keeps every value at most `n`. */
  lemma {:induction false} PutBelow(m: Map, k: Range, v: nat, n: nat)
    requires ValsBelow(m, n) && v <= n
    ensures ValsBelow(Put(m, k, v), n)
  {
    if |m| > 0 && m[0].key != k && !Less(k, m[0].key) {
      PutBelow(m[1..], k, v, n);
    }
  }

  /** `Erase` keeps every value at most `n`. */
  lemma {:induction false} EraseBelow(m: Map, k: Range, n: nat)
    requires ValsBelow(m, n)
    ensures ValsBelow(Erase(m, k), n)
  {
    if |m| > 0 && m[0].key != k {
      EraseBelow(m[1..], k, n);
    }
  }

  /** Successive inserts of values at most `n` keep every value at most `n`. */
  lemma {:induction false} InsertAllBelow(m: Map, es: seq<Entry>, n: nat)
    requires ValsBelow(m, n) && forall i | 0 <= i < |es| :: es[i].val <= n
    ensures ValsBelow(InsertAll(m, es), n)
    decreases |es|
  {
    if |es| > 0 {
      if es[0].key !in Keys(m) {
        PutBelow(m, es[0].key, es[0].val, n);
      }
      InsertAllBelow(Insert(m, es[0].key, es[0].val), es[1..], n);
    }
  }
}
