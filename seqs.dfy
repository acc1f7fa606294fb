/** First-match lookup and first-match deletion over ordered collections: the
    selection policy behind every delete and every lookup by label. */
module Seqs {
  import opened Wrappers

  /** Position of the first occurrence of `x` in `s`, or `None`. */
  function IndexOf<T(==)>(s: seq<T>, x: T): (r: Option<nat>)
    ensures r.Some? ==> r.value < |s| && s[r.value] == x && forall j :: 0 <= j < r.value ==> s[j] != x
    ensures r.None? <==> x !in s
    decreases |s|
  {
    if |s| == 0 then None
    else if s[0] == x then Some(0)
    else match IndexOf(s[1..], x)
      case None => None
      case Some(i) => Some(i + 1)
  }

  /** The loop `for i, e in enumerate(s): if key(e) == k: ... break`, given the
      keys `keys[i]` of the elements: the index it stops at. */
  method FindFirst<T(==)>(keys: seq<T>, k: T) returns (r: Option<nat>)
    ensures r == IndexOf(keys, k)
  {
    var i := 0;
    r := None;
    while i < |keys|
      invariant 0 <= i <= |keys|
      invariant forall j :: 0 <= j < i ==> keys[j] != k
    {
      if keys[i] == k {
        r := Some(i);
        break;
      }
      i := i + 1;
    }
    IndexOfFirst(keys, k, r);
  }

  /** Any position that holds `x` and is preceded only by other values is what
      `IndexOf` returns; no such position means `x` is absent. */
  lemma {:induction false} IndexOfFirst<T>(s: seq<T>, x: T, r: Option<nat>)
    requires r.Some? ==> r.value < |s| && s[r.value] == x && forall j :: 0 <= j < r.value ==> s[j] != x
    requires r.None? ==> forall j :: 0 <= j < |s| ==> s[j] != x
    ensures r == IndexOf(s, x)
  {
    var q := IndexOf(s, x);
    if r.Some? && q.Some? {
      assert !(r.value < q.value) && !(q.value < r.value);
    }
  }

  /** `IndexOf` names position `i` exactly when `i` holds `x` and no earlier
      position does. */
  lemma IndexOfIs<T>(s: seq<T>, x: T, i: nat)
    ensures IndexOf(s, x) == Some(i) <==> i < |s| && s[i] == x && forall m :: 0 <= m < i ==> s[m] != x
  {
    if i < |s| && s[i] == x && forall m :: 0 <= m < i ==> s[m] != x {
      IndexOfFirst(s, x, Some(i));
    }
  }

  /** Remove the element at the first position whose key is `k` (`keys[i]` is
      the key of `s[i]`): `del s[i]` after the loop above. */
  function DeleteFirst<T, K(==)>(s: seq<T>, keys: seq<K>, k: K): (r: seq<T>)
    requires |keys| == |s|
    ensures k !in keys ==> r == s
    ensures k in keys ==> var i := IndexOf(keys, k).value;
      |r| == |s| - 1 && r[..i] == s[..i] && r[i..] == s[i + 1..]
  {
    match IndexOf(keys, k)
    case None => s
    case Some(i) => s[..i] + s[i + 1..]
  }

  /** Of two elements sharing the key, deleting by that key spares the later
      one: it moves down one place and nothing after it is touched. */
  lemma DeleteFirstSparesLater<T, K>(s: seq<T>, keys: seq<K>, k: K, a: nat, b: nat)
    requires |keys| == |s| && a < b < |s| && keys[a] == k && keys[b] == k
    ensures var r := DeleteFirst(s, keys, k);
      |r| == |s| - 1 && r[b - 1] == s[b] && r[b..] == s[b + 1..]
  {
    var i := IndexOf(keys, k).value;
    assert i <= a;
    var r := DeleteFirst(s, keys, k);
    assert r[i..][b - 1 - i] == s[i + 1..][b - 1 - i];
  }
}
