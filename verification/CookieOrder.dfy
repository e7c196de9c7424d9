/** The order in which cookies are sent (`cookie_sort` in cookie.c). */
module CookieOrder {
  import opened Bytes
  import opened CookieJar

  function Length(s: Option<string>): nat {
    if s.None? then 0 else |s.value|
  }

  /** `cookie_sort`: longer paths, then longer domains, then longer names first; at last the larger creation
      time. */
  function Compare(c1: Cookie, c2: Cookie): (r: int)
    ensures r == 1 || r == -1
  {
    var p1, p2 := Length(c1.path), Length(c2.path);
    var d1, d2 := Length(c1.domain), Length(c2.domain);
    var n1, n2 := |c1.name|, |c2.name|;
    if p1 != p2 then (if p2 > p1 then 1 else -1)
    else if d1 != d2 then (if d2 > d1 then 1 else -1)
    else if n1 != n2 then (if n2 > n1 then 1 else -1)
    else if c2.creationtime > c1.creationtime then 1 else -1
  }

  predicate Before(c1: Cookie, c2: Cookie) {
    Compare(c1, c2) < 0
  }

  /** On cookies with different creation times the comparison is a strict total order, ... */
  lemma StrictTotalOrder(a: Cookie, b: Cookie, c: Cookie)
    ensures a.creationtime != b.creationtime ==> (Before(a, b) <==> !Before(b, a))
    ensures Before(a, b) && Before(b, c) ==> Before(a, c)
  {
  }

  /** ... and on equal ones it is not: each of two such cookies can come before the other. */
  lemma EqualTimesTie(a: Cookie, t: int)
    ensures Before(a, a) && Before(a.(creationtime := t), a.(creationtime := t, value := "other"))
    ensures Before(a.(creationtime := t, value := "other"), a.(creationtime := t))
  {
  }

  ghost predicate Sorted(list: seq<Cookie>) {
    forall i, j :: 0 <= i < j < |list| ==> Before(list[i], list[j])
  }

  ghost predicate DistinctTimes(list: seq<Cookie>) {
    forall i, j :: 0 <= i < j < |list| ==> list[i].creationtime != list[j].creationtime
  }

  function Insert(c: Cookie, list: seq<Cookie>): seq<Cookie> {
    if list == [] || Before(c, list[0]) then [c] + list else [list[0]] + Insert(c, list[1..])
  }

  /** The cookies in the order of `cookie_sort`. Any sorting algorithm gives this list: see SortIsUnique. */
  function Sort(list: seq<Cookie>): seq<Cookie> {
    if list == [] then [] else Insert(list[0], Sort(list[1..]))
  }

  lemma {:induction false} InsertPermutes(c: Cookie, list: seq<Cookie>)
    ensures multiset(Insert(c, list)) == multiset(list) + multiset{c}
    decreases |list|
  {
    hide Before;
    if list != [] && !Before(c, list[0]) {
      InsertPermutes(c, list[1..]);
      assert list == [list[0]] + list[1..];
    }
  }

  lemma {:induction false} SortPermutes(list: seq<Cookie>)
    ensures multiset(Sort(list)) == multiset(list)
    decreases |list|
  {
    if list != [] {
      SortPermutes(list[1..]);
      InsertPermutes(list[0], Sort(list[1..]));
      assert list == [list[0]] + list[1..];
      hide Insert;
    }
  }

  lemma SortMembers(list: seq<Cookie>)
    ensures |Sort(list)| == |list|
    ensures forall c :: c in Sort(list) <==> c in list
  {
    SortPermutes(list);
    hide Sort;
    assert |multiset(Sort(list))| == |multiset(list)|;
    assert forall c :: c in Sort(list) <==> c in multiset(Sort(list));
  }

  lemma InsertMembers(c: Cookie, list: seq<Cookie>)
    ensures forall d :: d in Insert(c, list) <==> d == c || d in list
  {
    InsertPermutes(c, list);
    hide Insert;
    assert forall d :: d in Insert(c, list) <==> d in multiset(Insert(c, list));
  }

  lemma {:induction false} InsertSorts(c: Cookie, list: seq<Cookie>)
    requires Sorted(list) && forall d :: d in list ==> d.creationtime != c.creationtime
    ensures Sorted(Insert(c, list))
    decreases |list|
  {
    hide Compare;
    if list != [] {
      if Before(c, list[0]) {
        forall j | 0 <= j < |list|
          ensures Before(c, list[j])
        {
          StrictTotalOrder(c, list[0], list[j]);
        }
      } else {
        StrictTotalOrder(c, list[0], c);
        InsertSorts(c, list[1..]);
        var rest := Insert(c, list[1..]);
        InsertMembers(c, list[1..]);
        forall j | 0 <= j < |rest|
          ensures Before(list[0], rest[j])
        {
          assert rest[j] in rest;
        }
      }
    }
  }

  lemma {:induction false} SortSorts(list: seq<Cookie>)
    requires DistinctTimes(list)
    ensures Sorted(Sort(list))
    decreases |list|
  {
    hide Compare;
    if list != [] {
      SortSorts(list[1..]);
      SortMembers(list[1..]);
      InsertSorts(list[0], Sort(list[1..]));
    }
  }

  lemma SameHead(a: seq<Cookie>, b: seq<Cookie>)
    requires Sorted(a) && Sorted(b) && multiset(a) == multiset(b) && DistinctTimes(a) && a != []
    ensures b != [] && a[0] == b[0]
  {
    hide Compare;
    assert a[0] in multiset(a);
    var i :| 0 <= i < |b| && b[i] == a[0];
    assert b[0] in multiset(b);
    var j :| 0 <= j < |a| && a[j] == b[0];
    if i > 0 && j > 0 {
      StrictTotalOrder(a[0], b[0], a[0]);
    }
  }

  lemma SameRest(a: seq<Cookie>, b: seq<Cookie>)
    requires multiset(a) == multiset(b) && a != [] && b != [] && a[0] == b[0]
    ensures multiset(a[1..]) == multiset(b[1..])
  {
    assert a == [a[0]] + a[1..] && b == [b[0]] + b[1..];
    assert multiset(a[1..]) == multiset(a) - multiset{a[0]} && multiset(b[1..]) == multiset(b) - multiset{b[0]};
  }

  /** Two sorted lists of the same cookies are equal. */
  lemma {:induction false} SortIsUnique(a: seq<Cookie>, b: seq<Cookie>)
    requires Sorted(a) && Sorted(b) && multiset(a) == multiset(b) && DistinctTimes(a)
    ensures a == b
    decreases |a|
  {
    hide Compare, Before;
    if a == [] {
      assert |multiset(b)| == 0;
    } else {
      SameHead(a, b);
      SameRest(a, b);
      SortIsUnique(a[1..], b[1..]);
      assert a == [a[0]] + a[1..] && b == [b[0]] + b[1..];
    }
  }
}
