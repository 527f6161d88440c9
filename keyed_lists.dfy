/**
 * The list transforms the store applies to its collections, each over a list whose
 * elements carry a string key (a custom entry's `key`, an edge's or a node's `id`):
 * `.some(x => key(x) === k)`, `.filter(x => key(x) !== k)`, `.map` that replaces the
 * matching elements, and `.find(x => key(x) === k)`.
 */
module KeyedLists {
  import opened Wrappers

  /** `s.some(x => keyOf(x) === k)`. */
  function HasKey<T>(s: seq<T>, keyOf: T -> string, k: string): (r: bool)
    ensures r <==> exists i :: 0 <= i < |s| && keyOf(s[i]) == k
  {
    if s == [] then false
    else keyOf(s[0]) == k || HasKey(s[1..], keyOf, k)
  }

  /** How many elements carry key `k`. */
  function CountKey<T>(s: seq<T>, keyOf: T -> string, k: string): (n: nat)
    ensures n <= |s|
    ensures n > 0 <==> HasKey(s, keyOf, k)
  {
    if s == [] then 0
    else (if keyOf(s[0]) == k then 1 else 0) + CountKey(s[1..], keyOf, k)
  }

  /** No two elements share a key. */
  ghost predicate UniqueKeys<T>(s: seq<T>, keyOf: T -> string)
  {
    forall i, j :: 0 <= i < j < |s| ==> keyOf(s[i]) != keyOf(s[j])
  }

  /** `s.filter(x => keyOf(x) !== k)`: every element with another key, in order. */
  function WithoutKey<T>(s: seq<T>, keyOf: T -> string, k: string): (r: seq<T>)
    ensures |r| <= |s|
  {
    if s == [] then []
    else
      var rest := WithoutKey(s[1..], keyOf, k);
      assert s == [s[0]] + s[1..];
      if keyOf(s[0]) == k then rest else [s[0]] + rest
  }

  /** `s.map(x => keyOf(x) !== k ? x : y)`, walking the list from its head. */
  function ReplaceKey<T>(s: seq<T>, keyOf: T -> string, k: string, y: T): seq<T>
  {
    if s == [] then []
    else [if keyOf(s[0]) == k then y else s[0]] + ReplaceKey(s[1..], keyOf, k, y)
  }

  /** `s.find(x => keyOf(x) === k)`: the first element with key `k`, if any. */
  function FindByKey<T>(s: seq<T>, keyOf: T -> string, k: string): (r: Option<T>)
    ensures r.None? <==> !HasKey(s, keyOf, k)
    ensures r.Some? ==> exists i :: 0 <= i < |s| && s[i] == r.value && keyOf(s[i]) == k
                                   && forall j :: 0 <= j < i ==> keyOf(s[j]) != k
  {
    if s == [] then None
    else if keyOf(s[0]) == k then Some(s[0])
    else
      var r := FindByKey(s[1..], keyOf, k);
      FindByKeyShift(s, keyOf, k, r);
      r
  }

  /** The first match in the tail is the first match in the list when the head does not match. */
  lemma FindByKeyShift<T>(s: seq<T>, keyOf: T -> string, k: string, r: Option<T>)
    requires s != [] && keyOf(s[0]) != k
    requires r.Some? ==> exists i :: 0 <= i < |s[1..]| && s[1..][i] == r.value && keyOf(s[1..][i]) == k
                                     && forall j :: 0 <= j < i ==> keyOf(s[1..][j]) != k
    ensures r.Some? ==> exists i :: 0 <= i < |s| && s[i] == r.value && keyOf(s[i]) == k
                                    && forall j :: 0 <= j < i ==> keyOf(s[j]) != k
  {
    if r.Some? {
      var i :| 0 <= i < |s[1..]| && s[1..][i] == r.value && keyOf(s[1..][i]) == k
               && forall j :: 0 <= j < i ==> keyOf(s[1..][j]) != k;
      assert s[i + 1] == r.value && forall j :: 0 <= j < i + 1 ==> keyOf(s[j]) != k;
    }
  }

  // ---- filter ----

  /** One step of the filter: the head is kept or dropped, then the tail is filtered. */
  lemma WithoutKeyCons<T>(s: seq<T>, keyOf: T -> string, k: string)
    requires s != []
    ensures WithoutKey(s, keyOf, k)
         == (if keyOf(s[0]) == k then [] else [s[0]]) + WithoutKey(s[1..], keyOf, k)
  {
  }

  /** Filtering distributes over concatenation, so the kept elements keep their order. */
  lemma {:induction false} WithoutKeyAppend<T>(a: seq<T>, b: seq<T>, keyOf: T -> string, k: string)
    ensures WithoutKey(a + b, keyOf, k) == WithoutKey(a, keyOf, k) + WithoutKey(b, keyOf, k)
  {
    if a == [] {
      assert a + b == b;
    } else {
      var head := if keyOf(a[0]) == k then [] else [a[0]];
      var x, y := WithoutKey(a[1..], keyOf, k), WithoutKey(b, keyOf, k);
      assert WithoutKey(a + b, keyOf, k) == head + WithoutKey(a[1..] + b, keyOf, k) by {
        WithoutKeyCons(a + b, keyOf, k);
        assert (a + b)[1..] == a[1..] + b;
        assert (a + b)[0] == a[0];
      }
      assert WithoutKey(a, keyOf, k) == head + x by {
        WithoutKeyCons(a, keyOf, k);
      }
      WithoutKeyAppend(a[1..], b, keyOf, k);
      assert head + (x + y) == (head + x) + y;
    }
  }

  /**
   * The filter keeps exactly the elements with another key: no kept element has the key,
   * each kept element is from the list, and each element with another key is kept.
   */
  lemma {:induction false} WithoutKeyContents<T>(s: seq<T>, keyOf: T -> string, k: string)
    ensures var r := WithoutKey(s, keyOf, k);
      && !HasKey(r, keyOf, k)
      && (forall i :: 0 <= i < |r| ==> r[i] in s && keyOf(r[i]) != k)
      && (forall i :: 0 <= i < |s| && keyOf(s[i]) != k ==> s[i] in r)
  {
    if s != [] {
      WithoutKeyContents(s[1..], keyOf, k);
      WithoutKeyCons(s, keyOf, k);
      var r := WithoutKey(s, keyOf, k);
      var rest := WithoutKey(s[1..], keyOf, k);
      forall i | 0 <= i < |r| ensures r[i] in s && keyOf(r[i]) != k {
        if keyOf(s[0]) == k {
          assert r[i] == rest[i];
        } else if i > 0 {
          assert r[i] == rest[i - 1];
        }
      }
      forall i | 0 <= i < |s| && keyOf(s[i]) != k ensures s[i] in r {
        if i > 0 {
          assert s[i] == s[1..][i - 1];
        }
      }
    }
  }

  /** Filtering leaves the list unchanged exactly when no element has the key. */
  lemma {:induction false} WithoutKeyUnchanged<T>(s: seq<T>, keyOf: T -> string, k: string)
    ensures WithoutKey(s, keyOf, k) == s <==> !HasKey(s, keyOf, k)
  {
    if s != [] {
      WithoutKeyUnchanged(s[1..], keyOf, k);
      if keyOf(s[0]) == k {
        assert |WithoutKey(s, keyOf, k)| <= |s[1..]| < |s|;
      } else {
        assert WithoutKey(s, keyOf, k) == [s[0]] + WithoutKey(s[1..], keyOf, k);
        assert s == [s[0]] + s[1..];
      }
    }
  }

  /** Filtering twice by the same key is filtering once. */
  lemma WithoutKeyIdempotent<T>(s: seq<T>, keyOf: T -> string, k: string)
    ensures WithoutKey(WithoutKey(s, keyOf, k), keyOf, k) == WithoutKey(s, keyOf, k)
  {
    WithoutKeyContents(s, keyOf, k);
    WithoutKeyUnchanged(WithoutKey(s, keyOf, k), keyOf, k);
  }

  /** Filtering keeps the keys unique if they were. */
  lemma {:induction false} WithoutKeyUnique<T>(s: seq<T>, keyOf: T -> string, k: string)
    requires UniqueKeys(s, keyOf)
    ensures UniqueKeys(WithoutKey(s, keyOf, k), keyOf)
  {
    if s != [] {
      WithoutKeyUnique(s[1..], keyOf, k);
      WithoutKeyContents(s[1..], keyOf, k);
      var rest := WithoutKey(s[1..], keyOf, k);
      if keyOf(s[0]) != k {
        var r := [s[0]] + rest;
        forall j | 0 < j < |r| ensures keyOf(r[0]) != keyOf(r[j]) {
          assert r[j] == rest[j - 1];
          var m :| 0 <= m < |s[1..]| && s[1..][m] == r[j];
          assert s[m + 1] == r[j];
        }
      }
    }
  }

  // ---- counting ----

  lemma {:induction false} CountKeyAppend<T>(a: seq<T>, b: seq<T>, keyOf: T -> string, k: string)
    ensures CountKey(a + b, keyOf, k) == CountKey(a, keyOf, k) + CountKey(b, keyOf, k)
  {
    if a != [] {
      CountKeyAppend(a[1..], b, keyOf, k);
      assert (a + b)[1..] == a[1..] + b;
      assert (a + b)[0] == a[0];
    } else {
      assert a + b == b;
    }
  }

  // ---- map-replace ----

  /** Replacing keeps the length and touches exactly the positions that carry the key. */
  lemma {:induction false} ReplaceKeyAt<T>(s: seq<T>, keyOf: T -> string, k: string, y: T)
    ensures var r := ReplaceKey(s, keyOf, k, y);
      |r| == |s| && forall i :: 0 <= i < |s| ==> r[i] == if keyOf(s[i]) == k then y else s[i]
  {
    if s != [] {
      ReplaceKeyAt(s[1..], keyOf, k, y);
      var r := ReplaceKey(s, keyOf, k, y);
      forall i | 0 < i < |s| ensures r[i] == if keyOf(s[i]) == k then y else s[i] {
        assert r[i] == ReplaceKey(s[1..], keyOf, k, y)[i - 1];
        assert s[i] == s[1..][i - 1];
      }
    }
  }

  /** Replacing a key no element carries changes nothing. */
  lemma ReplaceKeyAbsent<T>(s: seq<T>, keyOf: T -> string, k: string, y: T)
    requires !HasKey(s, keyOf, k)
    ensures ReplaceKey(s, keyOf, k, y) == s
  {
    ReplaceKeyAt(s, keyOf, k, y);
  }

  /**
   * Replacing twice with the same element is replacing once, whatever the element's key:
   * if it keeps the key, the second pass writes the same element again; if not, no element
   * carries the key any more after the first pass.
   */
  lemma ReplaceKeyIdempotent<T>(s: seq<T>, keyOf: T -> string, k: string, y: T)
    ensures ReplaceKey(ReplaceKey(s, keyOf, k, y), keyOf, k, y) == ReplaceKey(s, keyOf, k, y)
  {
    var once := ReplaceKey(s, keyOf, k, y);
    ReplaceKeyAt(s, keyOf, k, y);
    ReplaceKeyAt(once, keyOf, k, y);
  }

  /**
   * From unique keys, replacing keeps them unique exactly when the replacement cannot collide
   * with an element that stays: its key is the replaced key, or no element carries its key,
   * or no element carries the replaced key (nothing is replaced).
   */
  lemma ReplaceKeyUnique<T>(s: seq<T>, keyOf: T -> string, k: string, y: T)
    requires UniqueKeys(s, keyOf)
    ensures UniqueKeys(ReplaceKey(s, keyOf, k, y), keyOf)
        <==> keyOf(y) == k || !HasKey(s, keyOf, keyOf(y)) || !HasKey(s, keyOf, k)
  {
    var r := ReplaceKey(s, keyOf, k, y);
    ReplaceKeyAt(s, keyOf, k, y);
    if keyOf(y) != k && HasKey(s, keyOf, keyOf(y)) && HasKey(s, keyOf, k) {
      var i :| 0 <= i < |s| && keyOf(s[i]) == keyOf(y);
      var j :| 0 <= j < |s| && keyOf(s[j]) == k;
      assert r[i] == s[i] && r[j] == y;
      if i < j {
        assert !(keyOf(r[i]) != keyOf(r[j]));
      } else {
        assert !(keyOf(r[j]) != keyOf(r[i]));
      }
    } else if !HasKey(s, keyOf, k) {
      ReplaceKeyAbsent(s, keyOf, k, y);
    }
  }
}
