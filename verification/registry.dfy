/** The string-keyed registries of the model builder (the HashMaps of
    heart/xtt/XTTModel.Builder): a map, and the order in which its keys are
    iterated. The iteration order of a Java HashMap is left unspecified by the
    library; here a new key goes to the end and a replaced key keeps its place. */
module Registries {
  import opened Errors

  datatype Registry<B> = Registry(m: map<string, B>, order: seq<string>)

  predicate Distinct(s: seq<string>) {
    forall i, j :: 0 <= i < j < |s| ==> s[i] != s[j]
  }

  /** A concatenation repeats nothing exactly when neither part does and no
      element is in both. */
  lemma DistinctConcat(a: seq<string>, b: seq<string>)
    ensures Distinct(a + b) <==> Distinct(a) && Distinct(b) && forall k :: k in a ==> k !in b
  {
    if Distinct(a + b) {
      assert forall i :: 0 <= i < |a| ==> (a + b)[i] == a[i];
      assert forall j :: 0 <= j < |b| ==> (a + b)[|a| + j] == b[j];
    }
    if Distinct(a) && Distinct(b) && forall k :: k in a ==> k !in b {
      forall i, j | 0 <= i < j < |a + b|
        ensures (a + b)[i] != (a + b)[j]
      {
        if j < |a| {
          assert (a + b)[i] == a[i] && (a + b)[j] == a[j];
        } else if i >= |a| {
          assert (a + b)[i] == b[i - |a|] && (a + b)[j] == b[j - |a|];
        } else {
          assert (a + b)[i] == a[i] && (a + b)[j] == b[j - |a|];
          assert a[i] in a && b[j - |a|] in b;
        }
      }
    }
  }

  /** Every key is iterated exactly once. */
  predicate Valid<B>(r: Registry<B>) {
    Distinct(r.order) && (forall k :: k in r.m ==> k in r.order) && (forall k :: k in r.order ==> k in r.m)
  }

  function Empty<B>(): (r: Registry<B>)
    ensures Valid(r) && r.m == map[]
  {
    Registry(map[], [])
  }

  /** HashMap.put. */
  function Put<B>(r: Registry<B>, k: string, b: B): (r1: Registry<B>)
    requires Valid(r)
    ensures Valid(r1)
    ensures r1.m == r.m[k := b]
    ensures k in r.m ==> r1.order == r.order
    ensures k !in r.m ==> r1.order == r.order + [k]
  {
    if k in r.m then Registry(r.m[k := b], r.order) else Registry(r.m[k := b], r.order + [k])
  }

  /** `s` without `k`, in order. */
  function Drop(s: seq<string>, k: string): (r: seq<string>)
    ensures forall x :: x in r <==> x in s && x != k
    ensures Distinct(s) ==> Distinct(r)
    ensures |r| <= |s|
    decreases |s|
  {
    if |s| == 0 then []
    else
      var rest := Drop(s[1..], k);
      assert forall x :: x in s <==> x == s[0] || x in s[1..];
      if s[0] == k then rest
      else
        assert Distinct(s) ==> s[0] !in s[1..] by {
          if Distinct(s) {
            assert forall j :: 0 <= j < |s| - 1 ==> s[1..][j] == s[j + 1] != s[0];
          }
        }
        [s[0]] + rest
  }

  /** Dropping a key that is not there changes nothing. */
  lemma {:induction false} DropAbsent(s: seq<string>, k: string)
    requires k !in s
    ensures Drop(s, k) == s
    decreases |s|
  {
    if |s| > 0 {
      assert s[0] != k;
      DropAbsent(s[1..], k);
      assert [s[0]] + s[1..] == s;
    }
  }

  /** HashMap.remove: a key that is not there is ignored. */
  function Remove<B>(r: Registry<B>, k: string): (r1: Registry<B>)
    requires Valid(r)
    ensures Valid(r1)
    ensures r1.m == r.m - {k}
    ensures k !in r.m ==> r1 == r
  {
    if k !in r.m then
      DropAbsent(r.order, k);
      r
    else Registry(r.m - {k}, Drop(r.order, k))
  }

  /** Putting a new key and removing it again gives back the registry. */
  lemma PutThenRemove<B>(r: Registry<B>, k: string, b: B)
    requires Valid(r) && k !in r.m
    ensures Remove(Put(r, k, b), k) == r
  {
    var r1 := Put(r, k, b);
    DropAbsent(r.order, k);
    DropLast(r.order, k);
    assert r1.m - {k} == r.m;
  }

  /** Removing a key commutes with putting a new, different key. */
  lemma RemovePutSwap<B>(r: Registry<B>, k: string, a: string, b: B)
    requires Valid(r) && k != a && a !in r.m
    ensures Remove(Put(r, a, b), k) == Put(Remove(r, k), a, b)
  {
    if k in r.m {
      DropConcat(r.order, [a], k);
      assert Drop([a], k) == [a];
      assert r.m[a := b] - {k} == (r.m - {k})[a := b];
    }
  }

  /** Dropping distributes over concatenation. */
  lemma {:induction false} DropConcat(s: seq<string>, t: seq<string>, k: string)
    ensures Drop(s + t, k) == Drop(s, k) + Drop(t, k)
    decreases |s|
  {
    if |s| > 0 {
      assert (s + t)[0] == s[0] && (s + t)[1..] == s[1..] + t;
      DropConcat(s[1..], t, k);
    } else {
      assert s + t == t;
    }
  }

  lemma {:induction false} DropLast(s: seq<string>, k: string)
    requires k !in s
    ensures Drop(s + [k], k) == s
    decreases |s|
  {
    if |s| == 0 {
      assert s + [k] == [k];
    } else {
      assert (s + [k])[0] == s[0] && (s + [k])[1..] == s[1..] + [k];
      DropLast(s[1..], k);
      assert [s[0]] + s[1..] == s;
    }
  }

  /** The entries in iteration order. */
  function Entries<B>(r: Registry<B>): (vs: seq<B>)
    requires Valid(r)
    ensures |vs| == |r.order| && forall i :: 0 <= i < |vs| ==> vs[i] == r.m[r.order[i]]
  {
    seq(|r.order|, i requires 0 <= i < |r.order| => r.m[r.order[i]])
  }
}
