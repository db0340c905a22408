/** The order in which a bucket's keys are visited: bytewise lexicographic
    order on byte strings, where a proper prefix comes before every longer
    string that extends it (the order SQLite gives BLOB keys). */
module ByteOrder {
  import opened Common

  /** `a` sorts strictly before `b`. */
  predicate Less(a: Bytes, b: Bytes)
  {
    |b| > 0 && (|a| == 0 || a[0] < b[0] || (a[0] == b[0] && Less(a[1..], b[1..])))
  }

  predicate LessEq(a: Bytes, b: Bytes)
  {
    a == b || Less(a, b)
  }

  lemma {:induction false} LessIrreflexive(a: Bytes)
    ensures !Less(a, a)
  {
    if |a| > 0 {
      LessIrreflexive(a[1..]);
    }
  }

  lemma {:induction false} LessTransitive(a: Bytes, b: Bytes, c: Bytes)
    requires Less(a, b) && Less(b, c)
    ensures Less(a, c)
  {
    if |a| > 0 && a[0] == b[0] && b[0] == c[0] {
      LessTransitive(a[1..], b[1..], c[1..]);
    }
  }

  /** Two different strings are ordered one way or the other. */
  lemma {:induction false} LessTotal(a: Bytes, b: Bytes)
    requires a != b
    ensures Less(a, b) || Less(b, a)
  {
    if |a| > 0 && |b| > 0 && a[0] == b[0] {
      assert a == [a[0]] + a[1..] && b == [b[0]] + b[1..];
      LessTotal(a[1..], b[1..]);
    }
  }

  lemma {:induction false} LessAsymmetric(a: Bytes, b: Bytes)
    requires Less(a, b)
    ensures !Less(b, a)
  {
    if |a| > 0 && a[0] == b[0] {
      LessAsymmetric(a[1..], b[1..]);
    }
  }

  /** `m` belongs to `s` and sorts no later than any element of it. */
  predicate IsLeast(m: Bytes, s: set<Bytes>)
  {
    m in s && forall k :: k in s ==> LessEq(m, k)
  }

  /** Every finite non-empty set of strings has a least element. */
  lemma {:induction false} LeastExists(s: set<Bytes>)
    requires s != {}
    ensures exists m :: IsLeast(m, s)
    decreases |s|
  {
    var x :| x in s;
    var others := s - {x};
    if others == {} {
      assert s == {x};
      assert IsLeast(x, s);
    } else {
      LeastExists(others);
      var m :| IsLeast(m, others);
      if Less(x, m) {
        LessBelowLeast(x, m, others);
        assert IsLeast(x, s);
      } else {
        if x != m {
          LessTotal(x, m);
        }
        assert s == others + {x};
        assert IsLeast(m, s);
      }
    }
  }

  lemma LessBelowLeast(x: Bytes, m: Bytes, s: set<Bytes>)
    requires IsLeast(m, s) && Less(x, m)
    ensures forall k :: k in s ==> Less(x, k)
  {
    forall k | k in s
      ensures Less(x, k)
    {
      if k != m {
        LessTransitive(x, m, k);
      }
    }
  }

  /** A least element is unique. */
  lemma LeastUnique(s: set<Bytes>, m1: Bytes, m2: Bytes)
    requires IsLeast(m1, s) && IsLeast(m2, s)
    ensures m1 == m2
  {
    if m1 != m2 {
      assert Less(m1, m2) && Less(m2, m1);
      LessAsymmetric(m1, m2);
    }
  }

  /** Strictly ascending: every earlier element sorts before every later one. */
  predicate Ascending(s: seq<Bytes>)
  {
    forall i, j :: 0 <= i < j < |s| ==> Less(s[i], s[j])
  }

  /** The least element of a finite non-empty set. */
  ghost function Least(s: set<Bytes>): (m: Bytes)
    requires s != {}
    ensures IsLeast(m, s)
  {
    LeastExists(s);
    var m :| IsLeast(m, s);
    m
  }

  /** The elements of a finite set of strings in ascending order: the
      least first, then the rest in the same way. */
  ghost function Sorted(s: set<Bytes>): (r: seq<Bytes>)
    ensures |r| == |s|
    decreases |s|
  {
    if s == {} then []
    else
      var m := Least(s);
      [m] + Sorted(s - {m})
  }

  /** `Sorted(s)` lists exactly the elements of `s`, each before every
      greater one. */
  lemma {:induction false} SortedEnumerates(s: set<Bytes>)
    ensures Ascending(Sorted(s))
    ensures forall k :: k in s <==> k in Sorted(s)
    decreases |s|
  {
    if s != {} {
      var m := Least(s);
      var rest := Sorted(s - {m});
      SortedEnumerates(s - {m});
      assert Sorted(s) == [m] + rest;
      forall k | k in rest
        ensures Less(m, k)
      {
        assert LessEq(m, k) && k != m;
      }
    }
  }

  /** The keys a scan starting at `start` visits: those not before it. */
  function From(keys: set<Bytes>, start: Bytes): set<Bytes>
  {
    set k | k in keys && LessEq(start, k)
  }

  /** The keys a cursor positioned on `x` has still ahead of it. */
  function After(keys: set<Bytes>, x: Bytes): set<Bytes>
  {
    set k | k in keys && Less(x, k)
  }

  /** The first key of the scan is the first of the ascending order. */
  lemma FirstInOrder(keys: set<Bytes>, start: Bytes)
    ensures var order := Sorted(From(keys, start));
      (order == [] <==> From(keys, start) == {})
      && (order != [] ==> IsLeast(order[0], From(keys, start)))
  {
    var order := Sorted(From(keys, start));
    SortedEnumerates(From(keys, start));
    if order != [] {
      forall k | k in From(keys, start)
        ensures LessEq(order[0], k)
      {
        var j :| 0 <= j < |order| && order[j] == k;
        assert j == 0 || Less(order[0], order[j]);
      }
    }
  }

  /** From the `i`-th key of the scan, the least key ahead of the cursor is
      the next key of the ascending order, and there is none after the last. */
  lemma NextInOrder(keys: set<Bytes>, start: Bytes, i: nat)
    requires i < |Sorted(From(keys, start))|
    ensures var order := Sorted(From(keys, start));
      && (i + 1 < |order| ==> IsLeast(order[i + 1], After(keys, order[i])))
      && (i + 1 == |order| ==> After(keys, order[i]) == {})
  {
    var order := Sorted(From(keys, start));
    SortedEnumerates(From(keys, start));
    var after := After(keys, order[i]);
    forall k | k in after
      ensures exists j :: i < j < |order| && order[j] == k
    {
      assert order[i] in From(keys, start);
      if start != order[i] {
        LessTransitive(start, order[i], k);
      }
      assert k in From(keys, start);
      var j :| 0 <= j < |order| && order[j] == k;
      if j < i {
        LessAsymmetric(order[j], order[i]);
      } else if j == i {
        LessIrreflexive(k);
      }
    }
    if i + 1 < |order| {
      assert order[i + 1] in From(keys, start);
      assert order[i + 1] in after;
      forall k | k in after
        ensures LessEq(order[i + 1], k)
      {
        var j :| i < j < |order| && order[j] == k;
        assert j == i + 1 || Less(order[i + 1], order[j]);
      }
    }
  }

  /** A cursor placed by `First` or `Seek` is on the first key of the scan,
      or on no key when the scan is empty. */
  lemma CursorAtStart(keys: set<Bytes>, start: Bytes, cur: Option<Bytes>)
    requires cur.None? <==> From(keys, start) == {}
    requires cur.Some? ==> IsLeast(cur.value, From(keys, start))
    ensures var order := Sorted(From(keys, start));
      cur == if |order| > 0 then Some(order[0]) else None
  {
    FirstInOrder(keys, start);
    var order := Sorted(From(keys, start));
    if cur.Some? {
      LeastUnique(From(keys, start), cur.value, order[0]);
    }
  }

  /** A cursor moved by `Next` from the `i`-th key of the scan is on the
      next one, or on no key after the last. */
  lemma CursorAfter(keys: set<Bytes>, start: Bytes, i: nat, cur: Option<Bytes>)
    requires i < |Sorted(From(keys, start))|
    requires cur.None? <==> After(keys, Sorted(From(keys, start))[i]) == {}
    requires cur.Some? ==> IsLeast(cur.value, After(keys, Sorted(From(keys, start))[i]))
    ensures var order := Sorted(From(keys, start));
      cur == if i + 1 < |order| then Some(order[i + 1]) else None
  {
    NextInOrder(keys, start, i);
    var order := Sorted(From(keys, start));
    if cur.Some? {
      LeastUnique(After(keys, order[i]), cur.value, order[i + 1]);
    }
  }

  /** Every key of the scan is one of the keys. */
  lemma ScanKeys(keys: set<Bytes>, start: Bytes)
    ensures forall k :: k in Sorted(From(keys, start)) ==> k in keys
  {
    SortedEnumerates(From(keys, start));
  }
}
