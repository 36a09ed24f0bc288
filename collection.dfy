/** The document-store operations the routes use, over a table held as a sequence in
    natural (insertion) order: `findOne` is FindFirst, `find` is Filter, `deleteOne`
    is DeleteFirst. A filter document is a predicate on records. */
module Collection {
  import opened Records

  /** Position of the first record satisfying `p`, as `findOne` returns the first match. */
  function FindFirst<T>(t: seq<T>, p: T -> bool): (r: Option<nat>)
    ensures r.Some? ==> r.value < |t| && p(t[r.value])
    ensures r.Some? ==> forall j :: 0 <= j < r.value ==> !p(t[j])
    ensures r.None? ==> forall j :: 0 <= j < |t| ==> !p(t[j])
  {
    if t == [] then None
    else if p(t[0]) then Some(0)
    else match FindFirst(t[1..], p)
      case None => None
      case Some(i) => Some(i + 1)
  }

  /** Every record satisfying `p`, in table order, as `find` returns them. */
  function Filter<T(!new)>(t: seq<T>, p: T -> bool): (r: seq<T>)
    ensures |r| <= |t|
    ensures forall x :: x in r <==> x in t && p(x)
    ensures forall x :: multiset(r)[x] == if p(x) then multiset(t)[x] else 0
  {
    if t == [] then []
    else
      assert t == [t[0]] + t[1..];
      (if p(t[0]) then [t[0]] else []) + Filter(t[1..], p)
  }

  /** `deleteOne`: removes the first record satisfying `p`, and reports how many it removed. */
  function DeleteFirst<T(!new)>(t: seq<T>, p: T -> bool): (r: (seq<T>, nat))
    ensures r.1 <= 1 && |r.0| == |t| - r.1
    ensures r.1 == 0 <==> forall j :: 0 <= j < |t| ==> !p(t[j])
    ensures r.1 == 0 ==> r.0 == t
    ensures r.1 == 1 ==> exists i :: 0 <= i < |t| && p(t[i]) && (forall j :: 0 <= j < i ==> !p(t[j]))
                                     && r.0 == t[..i] + t[i + 1..]
    ensures forall x :: x in r.0 ==> x in t
    ensures forall x :: x in t && !p(x) ==> x in r.0
  {
    match FindFirst(t, p)
    case None => (t, 0)
    case Some(i) =>
      assert t == t[..i] + [t[i]] + t[i + 1..];
      (t[..i] + t[i + 1..], 1)
  }

  /** No two records of the table share a key. */
  predicate UniqueKeys<T, K(==)>(t: seq<T>, key: T -> K)
  {
    forall i, j :: 0 <= i < j < |t| ==> key(t[i]) != key(t[j])
  }

  /** At most one record of the table satisfies `p`. */
  predicate AtMostOne<T>(t: seq<T>, p: T -> bool)
  {
    forall i, j :: 0 <= i < j < |t| && p(t[i]) ==> !p(t[j])
  }

  /** Appending a record leaves an earlier match first; otherwise the new record is the match. */
  lemma {:induction false} FindFirstAppend<T>(t: seq<T>, x: T, p: T -> bool)
    ensures FindFirst(t + [x], p) == if FindFirst(t, p).Some? then FindFirst(t, p)
                                     else if p(x) then Some(|t|) else None
  {
    if t == [] {
      assert [x][1..] == [];
    } else {
      assert (t + [x])[0] == t[0];
      assert (t + [x])[1..] == t[1..] + [x];
      FindFirstAppend(t[1..], x, p);
    }
  }

  lemma {:induction false} FilterConcat<T(!new)>(a: seq<T>, b: seq<T>, p: T -> bool)
    ensures Filter(a + b, p) == Filter(a, p) + Filter(b, p)
  {
    if a == [] {
      assert a + b == b;
    } else {
      var head := if p(a[0]) then [a[0]] else [];
      assert (a + b)[0] == a[0];
      assert (a + b)[1..] == a[1..] + b;
      calc {
        Filter(a + b, p);
        head + Filter(a[1..] + b, p);
        { FilterConcat(a[1..], b, p); }
        head + (Filter(a[1..], p) + Filter(b, p));
        (head + Filter(a[1..], p)) + Filter(b, p);
        Filter(a, p) + Filter(b, p);
      }
    }
  }

  /** Appending a record adds it to the end of exactly the queries it satisfies. */
  lemma FilterAppend<T(!new)>(t: seq<T>, x: T, p: T -> bool)
    ensures Filter(t + [x], p) == if p(x) then Filter(t, p) + [x] else Filter(t, p)
  {
    FilterConcat(t, [x], p);
    assert [x][1..] == [];
  }

  /** When at most one record matches, deleting once leaves nothing more to delete. */
  lemma DeleteFirstIdempotent<T(!new)>(t: seq<T>, p: T -> bool)
    requires AtMostOne(t, p)
    ensures DeleteFirst(DeleteFirst(t, p).0, p) == (DeleteFirst(t, p).0, 0)
  {
    var rest := DeleteFirst(t, p).0;
    match FindFirst(t, p) {
      case None =>
      case Some(i) =>
        assert rest == t[..i] + t[i + 1..];
        forall j | 0 <= j < |rest| ensures !p(rest[j]) {
          if j < i {
            assert rest[j] == t[j];
          } else {
            assert rest[j] == t[j + 1];
          }
        }
    }
  }

  /** Deleting a record that a query does not select leaves that query's result unchanged. */
  lemma FilterAfterDelete<T(!new)>(t: seq<T>, p: T -> bool, keep: T -> bool)
    requires forall j :: 0 <= j < |t| && p(t[j]) ==> !keep(t[j])
    ensures Filter(DeleteFirst(t, p).0, keep) == Filter(t, keep)
  {
    match FindFirst(t, p) {
      case None =>
      case Some(i) =>
        var front, x, back := t[..i], t[i], t[i + 1..];
        assert DeleteFirst(t, p).0 == front + back;
        SplitAt(t, i);
        FilterSkip(front, x, back, keep);
    }
  }

  lemma SplitAt<T>(t: seq<T>, i: nat)
    requires i < |t|
    ensures t == t[..i] + [t[i]] + t[i + 1..]
  {
  }

  lemma FilterSkip<T(!new)>(front: seq<T>, x: T, back: seq<T>, keep: T -> bool)
    requires !keep(x)
    ensures Filter(front + [x] + back, keep) == Filter(front + back, keep)
  {
    calc {
      Filter(front + [x] + back, keep);
      { FilterConcat(front + [x], back, keep); }
      Filter(front + [x], keep) + Filter(back, keep);
      { FilterAppend(front, x, keep); }
      Filter(front, keep) + Filter(back, keep);
      { FilterConcat(front, back, keep); }
      Filter(front + back, keep);
    }
  }

  lemma UniqueKeysAppend<T, K>(t: seq<T>, x: T, key: T -> K)
    requires UniqueKeys(t, key)
    requires forall j :: 0 <= j < |t| ==> key(t[j]) != key(x)
    ensures UniqueKeys(t + [x], key)
  {
    forall i, j | 0 <= i < j < |t| + 1 ensures key((t + [x])[i]) != key((t + [x])[j]) {
      assert (t + [x])[i] == t[i];
      if j < |t| {
        assert (t + [x])[j] == t[j];
      } else {
        assert (t + [x])[j] == x;
      }
    }
  }

  lemma UniqueKeysAfterDelete<T(!new), K>(t: seq<T>, p: T -> bool, key: T -> K)
    requires UniqueKeys(t, key)
    ensures UniqueKeys(DeleteFirst(t, p).0, key)
  {
    var rest := DeleteFirst(t, p).0;
    match FindFirst(t, p) {
      case None =>
      case Some(k) =>
        assert rest == t[..k] + t[k + 1..];
        forall i, j | 0 <= i < j < |rest| ensures key(rest[i]) != key(rest[j]) {
          var i', j' := if i < k then i else i + 1, if j < k then j else j + 1;
          assert rest[i] == t[i'] && rest[j] == t[j'];
        }
    }
  }

  lemma UniqueKeysAtMostOne<T, K>(t: seq<T>, key: T -> K, p: T -> bool)
    requires UniqueKeys(t, key)
    requires forall x, y :: p(x) && p(y) ==> key(x) == key(y)
    ensures AtMostOne(t, p)
  {
  }
}
