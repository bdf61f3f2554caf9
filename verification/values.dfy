/** Python values as the core builds and returns them: `None`, ints, strings,
    lists and insertion-ordered dicts. Every `to_dict` projection of the AST
    and the configuration merge produce values of this shape. */
module Values {
  import opened Wrappers

  /** A dict key: the AST dicts use string keys, `Region.inline_explanations`
      uses line numbers. */
  datatype Key = KStr(name: string) | KInt(line: int)

  datatype Value =
    | VNone
    | VInt(i: int)
    | VStr(s: string)
    | VList(items: seq<Value>)
    /** A dict, its entries in insertion order. */
    | VDict(entries: seq<Entry>)

  datatype Entry = Entry(key: Key, val: Value)

  /** The keys of a dict, in insertion order. */
  function Keys(es: seq<Entry>): (r: seq<Key>)
    ensures |r| == |es|
    ensures forall i :: 0 <= i < |es| ==> r[i] == es[i].key
  {
    if |es| == 0 then [] else [es[0].key] + Keys(es[1..])
  }

  /** No key occurs twice, as in every Python dict. */
  predicate UniqueKeys(es: seq<Entry>) {
    forall i, j :: 0 <= i < j < |es| ==> es[i].key != es[j].key
  }

  /** `d[k]`, or None when `k` is absent. */
  function Get(es: seq<Entry>, k: Key): (r: Option<Value>)
  {
    if |es| == 0 then None
    else if es[0].key == k then Some(es[0].val)
    else Get(es[1..], k)
  }

  /** `d[k]` is the value of the first entry whose key is `k`. */
  lemma {:induction false} GetFirst(es: seq<Entry>, k: Key, i: nat)
    requires i < |es| && es[i].key == k
    requires forall j :: 0 <= j < i ==> es[j].key != k
    ensures Get(es, k) == Some(es[i].val)
  {
    if i > 0 {
      GetFirst(es[1..], k, i - 1);
    }
  }

  /** The value under a string key of a dict value. */
  function Field(v: Value, name: string): Option<Value> {
    if v.VDict? then Get(v.entries, KStr(name)) else None
  }

  /** A lookup fails exactly when the key is absent. */
  lemma {:induction false} GetNone(es: seq<Entry>, k: Key)
    ensures Get(es, k).None? <==> k !in Keys(es)
  {
    if |es| > 0 {
      GetNone(es[1..], k);
      assert Keys(es) == [es[0].key] + Keys(es[1..]);
    }
  }

  /** `d[k] = v`: an existing key keeps its position, a new key goes last. */
  function Put(es: seq<Entry>, k: Key, v: Value): (r: seq<Entry>)
    ensures Keys(r) == if k in Keys(es) then Keys(es) else Keys(es) + [k]
  {
    if |es| == 0 then [Entry(k, v)]
    else if es[0].key == k then
      var r := [Entry(k, v)] + es[1..];
      assert r[1..] == es[1..];
      r
    else
      var rest := Put(es[1..], k, v);
      var r := [es[0]] + rest;
      assert r[1..] == rest;
      assert Keys(es) == [es[0].key] + Keys(es[1..]);
      r
  }

  /** After `d[k] = v`, `d[k]` is `v` and every other key reads as before. */
  lemma {:induction false} PutGet(es: seq<Entry>, k: Key, v: Value, k': Key)
    ensures Get(Put(es, k, v), k') == if k' == k then Some(v) else Get(es, k')
  {
    if |es| > 0 && es[0].key != k {
      PutGet(es[1..], k, v, k');
      assert Put(es, k, v)[1..] == Put(es[1..], k, v);
    } else if |es| > 0 {
      assert Put(es, k, v)[1..] == es[1..];
    }
  }

  lemma {:induction false} PutUnique(es: seq<Entry>, k: Key, v: Value)
    requires UniqueKeys(es)
    ensures UniqueKeys(Put(es, k, v))
  {
    var r := Put(es, k, v);
    forall i, j | 0 <= i < j < |r| ensures r[i].key != r[j].key {
      assert Keys(r)[i] == r[i].key && Keys(r)[j] == r[j].key;
      if k in Keys(es) {
        assert Keys(es)[i] == es[i].key && Keys(es)[j] == es[j].key;
      } else if j < |es| {
        assert Keys(es)[i] == es[i].key && Keys(es)[j] == es[j].key;
      } else {
        assert Keys(r)[j] == k;
        assert Keys(es)[i] == es[i].key;
      }
    }
  }

  function AsStr(v: Value): Option<string> {
    if v.VStr? then Some(v.s) else None
  }

  function AsInt(v: Value): Option<int> {
    if v.VInt? then Some(v.i) else None
  }

  function StrList(xs: seq<string>): (r: Value)
    ensures r.VList? && |r.items| == |xs|
  {
    if |xs| == 0 then VList([]) else VList([VStr(xs[0])] + StrList(xs[1..]).items)
  }

  /** The strings of a list of strings; None on any other value. */
  function AsStrList(v: Value): Option<seq<string>> {
    if v.VList? then AsStrs(v.items) else None
  }

  function AsStrs(vs: seq<Value>): Option<seq<string>> {
    if |vs| == 0 then Some([])
    else
      match (AsStr(vs[0]), AsStrs(vs[1..]))
      case (Some(x), Some(xs)) => Some([x] + xs)
      case _ => None
  }

  lemma {:induction false} StrListRoundTrip(xs: seq<string>)
    ensures AsStrList(StrList(xs)) == Some(xs)
  {
    if |xs| > 0 {
      StrListRoundTrip(xs[1..]);
      assert StrList(xs).items[1..] == StrList(xs[1..]).items;
      assert [xs[0]] + xs[1..] == xs;
    }
  }

  /** `[f(x) for x in xs]`. */
  function Map<T, U>(f: T -> U, xs: seq<T>): (r: seq<U>)
    ensures |r| == |xs|
    ensures forall i :: 0 <= i < |xs| ==> r[i] == f(xs[i])
  {
    if |xs| == 0 then [] else [f(xs[0])] + Map(f, xs[1..])
  }

  /** No element occurs twice. */
  predicate Distinct<T(==)>(xs: seq<T>) {
    forall i, j :: 0 <= i < j < |xs| ==> xs[i] != xs[j]
  }

  /** `[x for x in xs if p(x)]`. */
  function Filter<T(==,!new)>(p: T -> bool, xs: seq<T>): (r: seq<T>)
    ensures forall x :: x in r <==> x in xs && p(x)
    ensures |r| <= |xs|
  {
    if |xs| == 0 then []
    else
      var rest := Filter(p, xs[1..]);
      assert forall x :: x in xs <==> x == xs[0] || x in xs[1..];
      (if p(xs[0]) then [xs[0]] else []) + rest
  }

  /** Nothing passes a filter no element satisfies. */
  lemma {:induction false} FilterNone<T(!new)>(p: T -> bool, xs: seq<T>)
    requires forall x :: x in xs ==> !p(x)
    ensures Filter(p, xs) == []
  {
    if |xs| > 0 {
      assert xs[0] in xs;
      assert forall x :: x in xs[1..] ==> x in xs;
      FilterNone(p, xs[1..]);
    }
  }

  /** Filtering a list without repeats leaves a list without repeats. */
  lemma {:induction false} FilterDistinct<T(!new)>(p: T -> bool, xs: seq<T>)
    requires Distinct(xs)
    ensures Distinct(Filter(p, xs))
  {
    if |xs| > 0 {
      FilterDistinct(p, xs[1..]);
      var rest := Filter(p, xs[1..]);
      assert Filter(p, xs) == (if p(xs[0]) then [xs[0]] else []) + rest;
      assert xs[0] !in xs[1..] by {
        forall k | 0 <= k < |xs[1..]| ensures xs[1..][k] != xs[0] {
          assert xs[1..][k] == xs[k + 1];
        }
      }
      if p(xs[0]) {
        var r := [xs[0]] + rest;
        forall i, j | 0 <= i < j < |r| ensures r[i] != r[j] {
          assert r[j] == rest[j - 1] && r[j] in rest;
          if i > 0 {
            assert r[i] == rest[i - 1];
          }
        }
      }
    }
  }

  /** Decodes every element; None as soon as one element does not decode. */
  function DecodeAll<A, T>(g: A -> Option<T>, vs: seq<A>): (r: Option<seq<T>>)
    ensures r.Some? ==> |r.value| == |vs|
  {
    if |vs| == 0 then Some([])
    else
      match (g(vs[0]), DecodeAll(g, vs[1..]))
      case (Some(x), Some(xs)) => Some([x] + xs)
      case _ => None
  }

  /** Decoding what an encoder produced gives back each element's normal form. */
  lemma {:induction false} DecodeAllMap<T, A>(f: T -> A, g: A -> Option<T>, n: T -> T, xs: seq<T>)
    requires forall x :: x in xs ==> g(f(x)) == Some(n(x))
    ensures DecodeAll(g, Map(f, xs)) == Some(Map(n, xs))
  {
    if |xs| > 0 {
      assert xs[0] in xs;
      assert forall x :: x in xs[1..] ==> x in xs;
      DecodeAllMap(f, g, n, xs[1..]);
      assert Map(f, xs)[1..] == Map(f, xs[1..]);
    }
  }
}
