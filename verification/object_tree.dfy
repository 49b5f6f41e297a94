/** `ObjectTree`: bus objects keyed by path. A lookup iterates in the order of the paths. */
module ObjectTree {
  import opened Paths

  /** A bus object: its path and its properties. */
  datatype Object<P> = Object(path: string, props: P)

  /** What a `std::map` keyed by path guarantees: ascending, hence distinct paths. */
  ghost predicate InPathOrder<P>(objects: seq<Object<P>>) {
    forall i, j | 0 <= i < j < |objects| :: Before(objects[i].path, objects[j].path)
  }

  function Inserted<P>(objects: seq<Object<P>>, o: Object<P>): (r: seq<Object<P>>) {
    if objects == [] then [o]
    else if Before(o.path, objects[0].path) then [o] + objects
    else [objects[0]] + Inserted(objects[1..], o)
  }

  function Filter<P>(objects: seq<Object<P>>, keep: Object<P> -> bool): (r: seq<Object<P>>) {
    if objects == [] then []
    else (if keep(objects[0]) then [objects[0]] else []) + Filter(objects[1..], keep)
  }

  // -------- contents --------

  lemma {:induction false} FilterMembers<P(!new)>(objects: seq<Object<P>>, keep: Object<P> -> bool)
    ensures forall o :: o in Filter(objects, keep) <==> o in objects && keep(o)
    decreases |objects|
  {
    if objects != [] {
      FilterMembers(objects[1..], keep);
      assert objects == [objects[0]] + objects[1..];
    }
  }

  lemma {:induction false} FilterCounts<P(!new)>(objects: seq<Object<P>>, keep: Object<P> -> bool, o: Object<P>)
    ensures multiset(Filter(objects, keep))[o] == if keep(o) then multiset(objects)[o] else 0
    decreases |objects|
  {
    if objects != [] {
      FilterCounts(objects[1..], keep, o);
      assert objects == [objects[0]] + objects[1..];
    }
  }

  /** Filtering the same objects in another order gives the same objects. */
  lemma FilterOfSame<P(!new)>(a: seq<Object<P>>, b: seq<Object<P>>, keep: Object<P> -> bool)
    requires multiset(a) == multiset(b)
    ensures multiset(Filter(a, keep)) == multiset(Filter(b, keep))
  {
    forall o ensures multiset(Filter(a, keep))[o] == multiset(Filter(b, keep))[o] {
      FilterCounts(a, keep, o);
      FilterCounts(b, keep, o);
    }
    assert multiset(Filter(a, keep)) == multiset(Filter(b, keep));
  }

  lemma {:induction false} FilterAll<P(!new)>(objects: seq<Object<P>>, keep: Object<P> -> bool)
    requires forall o | o in objects :: keep(o)
    ensures Filter(objects, keep) == objects
    decreases |objects|
  {
    if objects != [] {
      assert forall o | o in objects[1..] :: o in objects;
      assert objects[0] in objects;
      FilterAll(objects[1..], keep);
    }
  }

  lemma {:induction false} FilterNone<P(!new)>(objects: seq<Object<P>>, keep: Object<P> -> bool)
    requires forall o | o in objects :: !keep(o)
    ensures Filter(objects, keep) == []
    decreases |objects|
  {
    if objects != [] {
      assert forall o | o in objects[1..] :: o in objects;
      assert objects[0] in objects;
      FilterNone(objects[1..], keep);
    }
  }

  lemma Regroup<T>(a: seq<T>, b: seq<T>, c: seq<T>)
    ensures a + (b + c) == a + b + c
  {}

  lemma {:induction false} FilterConcat<P(!new)>(a: seq<Object<P>>, b: seq<Object<P>>, keep: Object<P> -> bool)
    ensures Filter(a + b, keep) == Filter(a, keep) + Filter(b, keep)
    decreases |a|
  {
    if a == [] {
      assert a + b == b;
    } else {
      var head := if keep(a[0]) then [a[0]] else [];
      FilterConcat(a[1..], b, keep);
      assert (a + b)[1..] == a[1..] + b;
      Regroup(head, Filter(a[1..], keep), Filter(b, keep));
    }
  }

  lemma {:induction false} FilterTwice<P(!new)>(objects: seq<Object<P>>, first: Object<P> -> bool,
                                                second: Object<P> -> bool, both: Object<P> -> bool)
    requires forall o :: both(o) <==> first(o) && second(o)
    ensures Filter(Filter(objects, first), second) == Filter(objects, both)
    decreases |objects|
  {
    if objects != [] {
      var head := if first(objects[0]) then [objects[0]] else [];
      FilterTwice(objects[1..], first, second, both);
      FilterConcat(head, Filter(objects[1..], first), second);
      assert head != [] ==> head[1..] == [];
    }
  }

  lemma {:induction false} InsertedContents<P(!new)>(objects: seq<Object<P>>, o: Object<P>)
    ensures multiset(Inserted(objects, o)) == multiset(objects) + multiset{o}
    decreases |objects|
  {
    if objects != [] {
      InsertedContents(objects[1..], o);
      assert objects == [objects[0]] + objects[1..];
    }
  }

  // -------- order --------

  lemma {:induction false} FilterKeepsOrder<P(!new)>(objects: seq<Object<P>>, keep: Object<P> -> bool)
    requires InPathOrder(objects)
    ensures InPathOrder(Filter(objects, keep))
    decreases |objects|
  {
    if objects != [] {
      var rest := Filter(objects[1..], keep);
      FilterKeepsOrder(objects[1..], keep);
      FilterMembers(objects[1..], keep);
      forall i | 0 <= i < |rest| ensures Before(objects[0].path, rest[i].path) {
        assert rest[i] in Filter(objects[1..], keep);
        assert rest[i] in objects[1..];
        var j :| 0 <= j < |objects[1..]| && objects[1..][j] == rest[i];
        assert objects[j + 1] == rest[i];
      }
    }
  }

  lemma {:induction false} InsertedKeepsOrder<P(!new)>(objects: seq<Object<P>>, o: Object<P>)
    requires InPathOrder(objects) && forall x | x in objects :: x.path != o.path
    ensures InPathOrder(Inserted(objects, o))
    decreases |objects|
  {
    if objects != [] {
      var rest := objects[1..];
      assert objects[0] in objects && forall x | x in rest :: x in objects;
      InsertedKeepsOrder(rest, o);
      BeforeTotal(o.path, objects[0].path);
      if Before(o.path, objects[0].path) {
        forall j | 0 < j < |objects| ensures Before(o.path, objects[j].path) {
          BeforeTransitive(o.path, objects[0].path, objects[j].path);
        }
      } else {
        InsertedContents(rest, o);
        forall x | x in Inserted(rest, o) ensures Before(objects[0].path, x.path) {
          assert x in multiset(Inserted(rest, o));
          assert x == o || x in rest;
        }
      }
    }
  }

  /** Objects created one after another, each taking its place. */
  function InsertedAll<P>(objects: seq<Object<P>>, news: seq<Object<P>>): (r: seq<Object<P>>)
    decreases |news|
  {
    if news == [] then objects else Inserted(InsertedAll(objects, news[..|news| - 1]), news[|news| - 1])
  }

  lemma {:induction false} InsertedAllContents<P(!new)>(objects: seq<Object<P>>, news: seq<Object<P>>)
    ensures multiset(InsertedAll(objects, news)) == multiset(objects) + multiset(news)
    decreases |news|
  {
    if news != [] {
      var init, last := news[..|news| - 1], news[|news| - 1];
      InsertedAllContents(objects, init);
      InsertedContents(InsertedAll(objects, init), last);
      assert news == init + [last];
    }
  }

  ghost predicate DistinctPaths<P>(objects: seq<Object<P>>) {
    forall i, j | 0 <= i < j < |objects| :: objects[i].path != objects[j].path
  }

  lemma {:induction false} InsertedAllKeepsOrder<P(!new)>(objects: seq<Object<P>>, news: seq<Object<P>>)
    requires InPathOrder(objects) && DistinctPaths(news)
    requires forall x, y | x in objects && y in news :: x.path != y.path
    ensures InPathOrder(InsertedAll(objects, news))
    decreases |news|
  {
    if news != [] {
      var init, last := news[..|news| - 1], news[|news| - 1];
      assert last in news && forall y | y in init :: y in news;
      InsertedAllKeepsOrder(objects, init);
      InsertedAllContents(objects, init);
      forall x | x in InsertedAll(objects, init) ensures x.path != last.path {
        assert x in multiset(objects) + multiset(init);
        assert x in objects || x in init;
      }
      InsertedKeepsOrder(InsertedAll(objects, init), last);
    }
  }

  /** There is one way only to list given objects in path order. */
  lemma {:induction false} OrderIsUnique<P(!new)>(a: seq<Object<P>>, b: seq<Object<P>>)
    requires InPathOrder(a) && InPathOrder(b) && multiset(a) == multiset(b)
    ensures a == b
    decreases |a|
  {
    assert |a| == |multiset(a)| == |multiset(b)| == |b|;
    if a != [] {
      HeadsEqual(a, b);
      assert a == [a[0]] + a[1..] && b == [b[0]] + b[1..];
      assert multiset(a[1..]) == multiset(a) - multiset{a[0]};
      assert multiset(b[1..]) == multiset(b) - multiset{b[0]};
      OrderIsUnique(a[1..], b[1..]);
    }
  }

  lemma HeadsEqual<P(!new)>(a: seq<Object<P>>, b: seq<Object<P>>)
    requires InPathOrder(a) && InPathOrder(b) && multiset(a) == multiset(b) && a != [] && b != []
    ensures a[0] == b[0]
  {
    assert a[0] in multiset(a) && b[0] in multiset(b);
    assert a[0] in multiset(b) && b[0] in multiset(a);
    var i :| 0 <= i < |b| && b[i] == a[0];
    var j :| 0 <= j < |a| && a[j] == b[0];
    if i > 0 && j > 0 {
      BeforeAsymmetric(a[0].path, b[0].path);
    }
  }
}
