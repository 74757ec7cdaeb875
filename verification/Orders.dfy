/**
 Stable sorting, as `slice::sort_by` promises it: the result is ordered, and elements the order
 does not tell apart keep their input order. Two facts follow, and the callers rely on them: a
 sorted list is fixed by its multiset when the order is antisymmetric, and by its classes of
 equivalent elements otherwise. The unstable sorts of the program are on orders that are antisymmetric,
 so they give the same list as a stable one.
 */
module Orders {
  import opened Text

  ghost predicate TotalPreorder<T(!new)>(le: (T, T) -> bool) {
    && (forall x, y :: le(x, y) || le(y, x))
    && (forall x, y, z :: le(x, y) && le(y, z) ==> le(x, z))
  }

  ghost predicate Antisymmetric<T(!new)>(le: (T, T) -> bool) {
    forall x, y :: le(x, y) && le(y, x) ==> x == y
  }

  ghost predicate Sorted<T>(le: (T, T) -> bool, s: seq<T>) {
    forall i, j :: 0 <= i < j < |s| ==> le(s[i], s[j])
  }

  /** `x` goes in front of the first element that is not smaller. */
  function Insert<T>(le: (T, T) -> bool, x: T, s: seq<T>): seq<T> {
    if s == [] || le(x, s[0]) then [x] + s else [s[0]] + Insert(le, x, s[1..])
  }

  function Sort<T>(le: (T, T) -> bool, s: seq<T>): seq<T> {
    if s == [] then [] else Insert(le, s[0], Sort(le, s[1..]))
  }

  lemma {:induction false} InsertElements<T>(le: (T, T) -> bool, x: T, s: seq<T>)
    ensures multiset(Insert(le, x, s)) == multiset(s) + multiset{x}
  {
    if s != [] && !le(x, s[0]) {
      InsertElements(le, x, s[1..]);
      assert s == [s[0]] + s[1..];
    }
  }

  lemma {:induction false} SortElements<T>(le: (T, T) -> bool, s: seq<T>)
    ensures multiset(Sort(le, s)) == multiset(s)
    ensures |Sort(le, s)| == |s|
    ensures forall x :: x in Sort(le, s) <==> x in s
  {
    if s != [] {
      SortElements(le, s[1..]);
      InsertElements(le, s[0], Sort(le, s[1..]));
      assert s == [s[0]] + s[1..];
    }
    SameElements(Sort(le, s), s);
  }

  lemma SameElements<T>(a: seq<T>, b: seq<T>)
    requires multiset(a) == multiset(b)
    ensures |a| == |b| && forall x :: x in a <==> x in b
  {
    assert |a| == |multiset(a)| && |b| == |multiset(b)|;
    forall x ensures x in a <==> x in b {
      assert x in a <==> x in multiset(a);
      assert x in b <==> x in multiset(b);
    }
  }

  lemma {:induction false} InsertSorted<T(!new)>(le: (T, T) -> bool, x: T, s: seq<T>)
    requires TotalPreorder(le) && Sorted(le, s)
    ensures Sorted(le, Insert(le, x, s))
  {
    if s != [] && !le(x, s[0]) {
      var rest := Insert(le, x, s[1..]);
      InsertSorted(le, x, s[1..]);
      InsertElements(le, x, s[1..]);
      forall j | 0 <= j < |rest| ensures le(s[0], rest[j]) {
        assert rest[j] in multiset(rest);
        assert rest[j] == x || rest[j] in s[1..];
      }
    }
  }

  lemma {:induction false} SortSorted<T(!new)>(le: (T, T) -> bool, s: seq<T>)
    requires TotalPreorder(le)
    ensures Sorted(le, Sort(le, s))
  {
    if s != [] {
      SortSorted(le, s[1..]);
      InsertSorted(le, s[0], Sort(le, s[1..]));
    }
  }

  /** `y`, if the order cannot tell it from `x`. */
  ghost function Tie<T>(le: (T, T) -> bool, x: T, y: T): seq<T> {
    if le(x, y) && le(y, x) then [y] else []
  }

  /** The elements the order cannot tell from `x`, in list order. */
  ghost function Class<T>(le: (T, T) -> bool, x: T, s: seq<T>): seq<T> {
    if s == [] then [] else Tie(le, x, s[0]) + Class(le, x, s[1..])
  }

  lemma {:induction false} ClassJoin<T>(le: (T, T) -> bool, a: seq<T>, b: seq<T>, x: T)
    ensures Class(le, x, a + b) == Class(le, x, a) + Class(le, x, b)
  {
    if a == [] {
      assert a + b == b;
    } else {
      ClassJoin(le, a[1..], b, x);
      assert (a + b)[1..] == a[1..] + b;
      Assoc(Tie(le, x, a[0]), Class(le, x, a[1..]), Class(le, x, b));
    }
  }

  lemma {:induction false} InsertStable<T(!new)>(le: (T, T) -> bool, x: T, s: seq<T>, y: T)
    requires TotalPreorder(le)
    ensures Class(le, y, Insert(le, x, s)) == Class(le, y, [x] + s)
  {
    assert ([x] + s)[1..] == s;
    if s == [] || le(x, s[0]) {
    } else {
      var rest := Insert(le, x, s[1..]);
      InsertStable(le, x, s[1..], y);
      assert ([s[0]] + rest)[1..] == rest;
      assert ([x] + s[1..])[1..] == s[1..];
      var first := s[0];
      assert le(x, y) && le(y, first) ==> le(x, first);
    }
  }

  /** Sorting keeps every class in its input order. */
  lemma {:induction false} SortStable<T(!new)>(le: (T, T) -> bool, s: seq<T>, y: T)
    requires TotalPreorder(le)
    ensures Class(le, y, Sort(le, s)) == Class(le, y, s)
  {
    if s != [] {
      var rest := Sort(le, s[1..]);
      SortStable(le, s[1..], y);
      InsertStable(le, s[0], rest, y);
      assert ([s[0]] + rest)[1..] == rest;
    }
  }

  lemma {:induction false} ClassHas<T(!new)>(le: (T, T) -> bool, x: T, s: seq<T>)
    requires TotalPreorder(le)
    ensures x in s ==> x in Class(le, x, s)
    ensures forall z :: z in Class(le, x, s) ==> z in s && le(x, z) && le(z, x)
  {
    if s != [] {
      ClassHas(le, x, s[1..]);
    }
  }

  /** A list ordered by a preorder is determined by its classes. */
  lemma {:induction false} SortedByClasses<T(!new)>(le: (T, T) -> bool, a: seq<T>, b: seq<T>)
    requires TotalPreorder(le) && Sorted(le, a) && Sorted(le, b)
    requires forall y :: Class(le, y, a) == Class(le, y, b)
    ensures a == b
  {
    if a == [] {
      assert b == [];
    } else {
      var x := a[0];
      ClassHas(le, x, a);
      ClassHas(le, x, b);
      assert Class(le, x, b) != [];
      assert b != [];
      ClassHas(le, b[0], a);
      ClassHas(le, b[0], b);
      assert Class(le, b[0], b) != [];
      assert le(x, b[0]) && le(b[0], x) by {
        assert Class(le, b[0], a)[0] in a;
        assert Class(le, x, b)[0] in b;
      }
      assert Class(le, x, a)[0] == a[0] && Class(le, x, b)[0] == b[0];
      forall y ensures Class(le, y, a[1..]) == Class(le, y, b[1..]) {
        assert Class(le, y, a) == Class(le, y, b);
        var same := le(y, x) && le(x, y);
        assert Class(le, y, a) == (if same then [x] else []) + Class(le, y, a[1..]);
        assert Class(le, y, b) == (if same then [x] else []) + Class(le, y, b[1..]);
        if same {
          assert Class(le, y, a)[1..] == Class(le, y, a[1..]);
          assert Class(le, y, b)[1..] == Class(le, y, b[1..]);
        } else {
          assert [] + Class(le, y, a[1..]) == Class(le, y, a[1..]);
          assert [] + Class(le, y, b[1..]) == Class(le, y, b[1..]);
        }
      }
      SortedByClasses(le, a[1..], b[1..]);
      assert a == [x] + a[1..] && b == [x] + b[1..];
    }
  }

  lemma FirstIsLeast<T(!new)>(le: (T, T) -> bool, s: seq<T>, x: T)
    requires TotalPreorder(le) && Sorted(le, s) && x in s
    ensures le(s[0], x)
  {
    var i :| 0 <= i < |s| && s[i] == x;
    assert le(x, x);
  }

  lemma RestElements<T>(s: seq<T>)
    requires s != []
    ensures s == [s[0]] + s[1..] && multiset(s[1..]) == multiset(s) - multiset{s[0]}
  {
    assert s == [s[0]] + s[1..];
  }

  /** A list ordered by an antisymmetric order is determined by its elements. */
  lemma {:induction false} SortedByElements<T(!new)>(le: (T, T) -> bool, a: seq<T>, b: seq<T>)
    requires TotalPreorder(le) && Antisymmetric(le) && Sorted(le, a) && Sorted(le, b)
    requires multiset(a) == multiset(b)
    ensures a == b
  {
    SameElements(a, b);
    if a != [] {
      FirstIsLeast(le, a, b[0]);
      FirstIsLeast(le, b, a[0]);
      RestElements(a);
      RestElements(b);
      SortedByElements(le, a[1..], b[1..]);
    }
  }

  ghost predicate DistinctBy<T, K>(s: seq<T>, key: T -> K) {
    forall i, j :: 0 <= i < j < |s| ==> key(s[i]) != key(s[j])
  }

  lemma TwiceIn<T>(s: seq<T>, k: nat, l: nat)
    requires k < l < |s| && s[k] == s[l]
    ensures 2 <= multiset(s)[s[k]]
  {
    assert s == s[..k] + [s[k]] + s[k + 1..l] + [s[l]] + s[l + 1..];
  }

  lemma OnceIn<T>(s: seq<T>, k: nat)
    requires k < |s| && forall l :: 0 <= l < |s| && l != k ==> s[l] != s[k]
    ensures multiset(s)[s[k]] == 1
  {
    assert s == s[..k] + [s[k]] + s[k + 1..];
    assert s[k] !in s[..k] && s[k] !in s[k + 1..];
  }

  /** A rearrangement of elements with distinct keys has distinct keys. */
  lemma StillDistinct<T, K>(a: seq<T>, b: seq<T>, key: T -> K)
    requires DistinctBy(a, key) && multiset(a) == multiset(b)
    ensures DistinctBy(b, key)
  {
    SameElements(a, b);
    forall k, l | 0 <= k < l < |b| ensures key(b[k]) != key(b[l]) {
      assert b[k] in a && b[l] in a;
      if b[k] == b[l] {
        TwiceIn(b, k, l);
        var m :| 0 <= m < |a| && a[m] == b[k];
        OnceIn(a, m);
        assert false;
      }
    }
  }

  lemma StrOrder()
    ensures TotalPreorder(StrLe) && Antisymmetric(StrLe)
  {
    forall a, b ensures StrLe(a, b) || StrLe(b, a) { StrLeTotal(a, b); }
    forall a, b, c | StrLe(a, b) && StrLe(b, c) ensures StrLe(a, c) { StrLeTransitive(a, b, c); }
    forall a, b | StrLe(a, b) && StrLe(b, a) ensures a == b { StrLeAntisymmetric(a, b); }
  }
}
