/** The tag library's view of one file, taken as an abstract ordered map from
    native key to value, and the Python list operations the translators apply
    to its key list (`list.remove`, filtering comprehensions). */
module NativeTables {
  import opened Results

  /** No key occurs twice. */
  predicate Distinct(s: seq<string>) {
    forall i, j | 0 <= i < j < |s| :: s[i] != s[j]
  }

  /** An ordered native tag table: the keys in the library's iteration order and
      the value stored under each. */
  datatype Table<V> = Table(keys: seq<string>, entries: map<string, V>) {

    ghost predicate Valid() {
      && Distinct(keys)
      && (forall k :: k in entries <==> k in keys)
    }

    /** Subscripting the table: `None` stands for the `KeyError` the library raises. */
    function Get(k: string): Option<V> {
      if k in entries then Some(entries[k]) else None
    }
  }

  type KeyTable<V> = t: Table<V> | t.Valid() witness Table([], map[])

  /** The table with no keys at all. */
  function EmptyTable<V>(): (t: KeyTable<V>)
    ensures t.keys == []
    ensures forall k :: t.Get(k) == None
  {
    Table([], map[])
  }

  /** The elements of `s` that `keep` accepts, in order: Python's
      `[x for x in s if keep(x)]`. */
  function Filter(s: seq<string>, keep: string -> bool): (r: seq<string>)
    ensures forall x :: x in r <==> x in s && keep(x)
    ensures Distinct(s) ==> Distinct(r)
    ensures |r| <= |s|
  {
    if |s| == 0 then []
    else
      var rest := Filter(s[1..], keep);
      assert forall x :: x in s <==> x == s[0] || x in s[1..] by {
        assert s == [s[0]] + s[1..];
      }
      var r := (if keep(s[0]) then [s[0]] else []) + rest;
      assert Distinct(s) ==> Distinct(r) by {
        if Distinct(s) && keep(s[0]) {
          assert s[0] !in s[1..];
          forall i, j | 0 <= i < j < |r|
            ensures r[i] != r[j]
          {
            if i == 0 {
              assert r[j] == rest[j - 1];
            } else {
              assert r[i] == rest[i - 1] && r[j] == rest[j - 1];
            }
          }
        }
      }
      r
  }

  /** The elements of `s` that are not in `xs`, in order. */
  function Without(s: seq<string>, xs: seq<string>): (r: seq<string>)
    ensures forall x :: x in r <==> x in s && x !in xs
    ensures Distinct(s) ==> Distinct(r)
  {
    Filter(s, x => x !in xs)
  }

  lemma {:induction false} FilterAppend(s: seq<string>, x: string, keep: string -> bool)
    ensures Filter(s + [x], keep) == Filter(s, keep) + (if keep(x) then [x] else [])
    decreases |s|
  {
    if |s| > 0 {
      assert (s + [x])[1..] == s[1..] + [x];
      FilterAppend(s[1..], x, keep);
    } else {
      assert s + [x] == [x];
    }
  }

  lemma {:induction false} FilterKeepsAll(s: seq<string>, keep: string -> bool)
    requires forall x | x in s :: keep(x)
    ensures Filter(s, keep) == s
    decreases |s|
  {
    if |s| > 0 {
      assert forall x | x in s[1..] :: x in s;
      FilterKeepsAll(s[1..], keep);
      assert keep(s[0]);
      assert Filter(s, keep) == [s[0]] + Filter(s[1..], keep);
      assert [s[0]] + s[1..] == s;
    }
  }

  lemma {:induction false} FilterTwice(s: seq<string>, p: string -> bool, q: string -> bool, both: string -> bool)
    requires forall x :: both(x) == (p(x) && q(x))
    ensures Filter(Filter(s, p), q) == Filter(s, both)
    decreases |s|
  {
    if |s| > 0 {
      FilterTwice(s[1..], p, q, both);
      var fp := Filter(s[1..], p);
      if p(s[0]) {
        assert Filter(s, p) == [s[0]] + fp;
        assert ([s[0]] + fp)[1..] == fp;
        assert Filter([s[0]] + fp, q) == (if q(s[0]) then [s[0]] else []) + Filter(fp, q);
      } else {
        assert Filter(s, p) == fp;
      }
    }
  }

  /** Python's `s.remove(x)`: drops the first occurrence of `x`; `None` stands for
      the `ValueError` raised when `x` is not in the list. */
  function RemoveFirst(s: seq<string>, x: string): (r: Option<seq<string>>)
    ensures r.None? <==> x !in s
    ensures r.Some? && Distinct(s) ==> r.value == Without(s, [x])
  {
    if |s| == 0 then None
    else if s[0] == x then
      assert Distinct(s) ==> Without(s, [x]) == s[1..] by {
        if Distinct(s) {
          assert s[0] !in s[1..];
          FilterKeepsAll(s[1..], y => y !in [x]);
        }
      }
      Some(s[1..])
    else
      match RemoveFirst(s[1..], x)
      case None =>
        assert s == [s[0]] + s[1..];
        None
      case Some(rest) =>
        assert s == [s[0]] + s[1..];
        Some([s[0]] + rest)
  }

  /** Removes each of `xs` in turn, skipping any that is absent: the source's
      `try: keys.remove(k) except: pass` loop. On a list without duplicates this
      is exactly the keys not in `xs`. */
  function RemoveEachIfPresent(s: seq<string>, xs: seq<string>): (r: seq<string>)
    ensures Distinct(s) ==> r == Without(s, xs)
    decreases |xs|
  {
    if |xs| == 0 then
      assert Distinct(s) ==> Without(s, xs) == s by {
        if Distinct(s) {
          FilterKeepsAll(s, y => y !in xs);
        }
      }
      s
    else
      var s' := match RemoveFirst(s, xs[0]) case Some(rest) => rest case None => s;
      var r := RemoveEachIfPresent(s', xs[1..]);
      assert Distinct(s) ==> r == Without(s, xs) by {
        if Distinct(s) {
          assert s' == Without(s, [xs[0]]) by {
            if xs[0] !in s {
              FilterKeepsAll(s, y => y !in [xs[0]]);
            }
          }
          assert forall y :: (y !in xs) == (y !in [xs[0]] && y !in xs[1..]) by {
            assert xs == [xs[0]] + xs[1..];
          }
          FilterTwice(s, y => y !in [xs[0]], y => y !in xs[1..], y => y !in xs);
        }
      }
      r
  }

  /** Removes each of `xs` in turn with a bare `list.remove`; the failure
      carries the element whose removal raised `ValueError`. */
  function RemoveEach(s: seq<string>, xs: seq<string>): (r: Result<seq<string>, string>)
    ensures r.Failure? ==> r.error in xs
    ensures Distinct(s) && r.Success? ==> r.value == Without(s, xs)
    decreases |xs|
  {
    if |xs| == 0 then
      assert Distinct(s) ==> Without(s, xs) == s by {
        if Distinct(s) {
          FilterKeepsAll(s, y => y !in xs);
        }
      }
      Success(s)
    else
      match RemoveFirst(s, xs[0])
      case None => Failure(xs[0])
      case Some(s') =>
        var r := RemoveEach(s', xs[1..]);
        assert Distinct(s) && r.Success? ==> r.value == Without(s, xs) by {
          if Distinct(s) && r.Success? {
            assert forall y :: (y !in xs) == (y !in [xs[0]] && y !in xs[1..]) by {
              assert xs == [xs[0]] + xs[1..];
            }
            FilterTwice(s, y => y !in [xs[0]], y => y !in xs[1..], y => y !in xs);
          }
        }
        r
  }

  /** On lists without duplicates, the removals all succeed exactly when every
      element to remove is present. */
  lemma {:induction false} RemoveEachSucceeds(s: seq<string>, xs: seq<string>)
    requires Distinct(s) && Distinct(xs)
    ensures RemoveEach(s, xs).Success? <==> forall x | x in xs :: x in s
    decreases |xs|
  {
    if |xs| > 0 {
      assert forall x :: x in xs <==> x == xs[0] || x in xs[1..] by {
        assert xs == [xs[0]] + xs[1..];
      }
      if xs[0] in s {
        var s' := RemoveFirst(s, xs[0]).value;
        RemoveEachSucceeds(s', xs[1..]);
        assert xs[0] !in xs[1..];
        assert forall x | x != xs[0] :: x in s' <==> x in s;
      }
    }
  }

  /** On lists without duplicates, a failure names the first element to remove
      that is missing. */
  lemma {:induction false} RemoveEachFailsAtFirstMissing(s: seq<string>, xs: seq<string>)
    requires Distinct(s) && Distinct(xs)
    requires RemoveEach(s, xs).Failure?
    ensures exists i | 0 <= i < |xs| ::
      xs[i] == RemoveEach(s, xs).error && xs[i] !in s && forall j | 0 <= j < i :: xs[j] in s
    decreases |xs|
  {
    if xs[0] in s {
      var s' := RemoveFirst(s, xs[0]).value;
      RemoveEachFailsAtFirstMissing(s', xs[1..]);
      var r := RemoveEach(s', xs[1..]);
      var i :| 0 <= i < |xs[1..]| && xs[1..][i] == r.error && xs[1..][i] !in s'
        && forall j | 0 <= j < i :: xs[1..][j] in s';
      assert xs[0] !in xs[1..];
      assert xs[i + 1] == r.error && xs[i + 1] != xs[0];
      forall j | 0 <= j < i + 1 ensures xs[j] in s {
        if j > 0 {
          assert xs[1..][j - 1] in s';
        }
      }
    }
  }

  /** A filter followed by a `list.remove` of each of `xs`, all of which pass
      the filter: the result keeps what passes `both`, the filter and "not in `xs`". */
  function FilterThenRemove(s: seq<string>, keep: string -> bool, xs: seq<string>, both: string -> bool): (r: Result<seq<string>, string>)
    requires Distinct(s) && Distinct(xs)
    requires forall x | x in xs :: keep(x)
    requires forall y :: both(y) == (keep(y) && y !in xs)
    ensures r.Success? <==> forall x | x in xs :: x in s
    ensures r.Success? ==> r.value == Filter(s, both)
    ensures r.Failure? ==> exists i | 0 <= i < |xs| ::
      xs[i] == r.error && xs[i] !in s && forall j | 0 <= j < i :: xs[j] in s
  {
    var kept := Filter(s, keep);
    assert forall x | x in xs :: x in kept <==> x in s;
    RemoveEachSucceeds(kept, xs);
    var r := RemoveEach(kept, xs);
    if r.Success? then
      FilterTwice(s, keep, y => y !in xs, both);
      r
    else
      RemoveEachFailsAtFirstMissing(kept, xs);
      r
  }

  /** Python's `table[k] = v` on a dict: an existing key keeps its place, a new
      key goes last; no other entry changes. */
  function Put<V>(t: KeyTable<V>, k: string, v: V): (r: KeyTable<V>)
    ensures r.Get(k) == Some(v)
    ensures forall x | x != k :: r.Get(x) == t.Get(x)
    ensures k in t.keys ==> r.keys == t.keys
    ensures k !in t.keys ==> r.keys == t.keys + [k]
  {
    if k in t.keys then Table(t.keys, t.entries[k := v])
    else
      var keys := t.keys + [k];
      assert Distinct(keys) by {
        forall i, j | 0 <= i < j < |keys| ensures keys[i] != keys[j] {
          if j == |t.keys| {
            assert keys[i] in t.keys;
          }
        }
      }
      Table(keys, t.entries[k := v])
  }

  /** Assignment into a Vorbis comment table: the old entries for `k` are
      deleted and the new one is appended, so `k` moves to the end; no other
      entry changes. */
  function PutLast<V>(t: KeyTable<V>, k: string, v: V): (r: KeyTable<V>)
    ensures r.Get(k) == Some(v)
    ensures forall x | x != k :: r.Get(x) == t.Get(x)
    ensures r.keys == Without(t.keys, [k]) + [k]
  {
    var rest := Without(t.keys, [k]);
    var keys := rest + [k];
    assert Distinct(keys) by {
      forall i, j | 0 <= i < j < |keys| ensures keys[i] != keys[j] {
        if j == |rest| {
          assert keys[i] in rest;
        }
      }
    }
    Table(keys, t.entries[k := v])
  }

  /** The key list after dict stores under `keys` in turn: each key not yet
      present goes last, the others keep their places. */
  function AppendNew(s: seq<string>, keys: seq<string>): seq<string>
    decreases |keys|
  {
    if |keys| == 0 then s
    else AppendNew(if keys[0] in s then s else s + [keys[0]], keys[1..])
  }

  /** Keys that a filter drops do not change what it keeps, wherever they are appended. */
  lemma {:induction false} FilterAppendNew(s: seq<string>, keys: seq<string>, keep: string -> bool)
    requires forall k | k in keys :: !keep(k)
    ensures Filter(AppendNew(s, keys), keep) == Filter(s, keep)
    decreases |keys|
  {
    if |keys| > 0 {
      var s' := if keys[0] in s then s else s + [keys[0]];
      if keys[0] !in s {
        FilterAppend(s, keys[0], keep);
      }
      assert forall k | k in keys[1..] :: k in keys;
      FilterAppendNew(s', keys[1..], keep);
    }
  }

  /** One assignment: a dict store (`Put`) or a delete-and-append (`PutLast`). */
  function Store<V>(t: KeyTable<V>, k: string, v: V, moveToEnd: bool): (r: KeyTable<V>)
    ensures r.Get(k) == Some(v)
    ensures forall x | x != k :: r.Get(x) == t.Get(x)
    ensures forall x :: x in r.keys <==> x in t.keys || x == k
    ensures !moveToEnd ==> r.keys == AppendNew(t.keys, [k])
  {
    if moveToEnd then PutLast(t, k, v) else Put(t, k, v)
  }

  /** Assigns `values[i]` to `keys[i]` for each `i` in turn. */
  function PutAll<V>(t: KeyTable<V>, keys: seq<string>, values: seq<V>, moveToEnd: bool): (r: KeyTable<V>)
    requires |keys| == |values|
    requires Distinct(keys)
    ensures forall i | 0 <= i < |keys| :: r.Get(keys[i]) == Some(values[i])
    ensures forall k | k !in keys :: r.Get(k) == t.Get(k)
    ensures forall k :: k in r.keys <==> k in t.keys || k in keys
    ensures !moveToEnd ==> r.keys == AppendNew(t.keys, keys)
    decreases |keys|
  {
    if |keys| == 0 then t
    else
      var first := Store(t, keys[0], values[0], moveToEnd);
      var rest := keys[1..];
      assert Distinct(rest);
      assert keys[0] !in rest;
      assert forall k :: k in keys <==> k == keys[0] || k in rest by {
        assert keys == [keys[0]] + rest;
      }
      var r := PutAll(first, rest, values[1..], moveToEnd);
      assert forall i | 0 <= i < |keys| :: r.Get(keys[i]) == Some(values[i]) by {
        forall i | 1 <= i < |keys| ensures r.Get(keys[i]) == Some(values[i]) {
          assert keys[i] == rest[i - 1] && values[i] == values[1..][i - 1];
        }
      }
      r
  }
}
