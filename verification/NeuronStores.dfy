/** The two neuron stores: the same following graph kept in two ways, each with an index of followers. */
module NeuronStores {
  import opened Types
  import opened Cascade

  ghost predicate Increasing(s: seq<nat>) {
    forall i, j :: 0 <= i < j < |s| ==> s[i] < s[j]
  }

  /** The members of a set in order. */
  method InOrder(s: set<nat>) returns (l: seq<nat>)
    ensures Increasing(l) && forall x :: x in l <==> x in s
  {
    l := [];
    var left := s;
    while left != {}
      invariant left <= s && Increasing(l) && (forall x :: x in l <==> x in s - left)
      invariant forall x, y :: x in l && y in left ==> x < y
      decreases left
    {
      var m := Least(left);
      assert forall i :: 0 <= i < |l| ==> l[i] in l;
      assert forall x :: x in l + [m] <==> x in l || x == m;
      l := l + [m];
      left := left - {m};
    }
  }

  method Least(s: set<nat>) returns (m: nat)
    requires s != {}
    ensures m in s && forall x :: x in s ==> m <= x
  {
    m :| m in s;
    var left := s - {m};
    while left != {}
      invariant left <= s && m in s && forall x :: x in s && x !in left ==> m <= x
      decreases left
    {
      var y :| y in left;
      if y < m {
        m := y;
      }
      left := left - {y};
    }
  }

  lemma {:induction false} LastOf(a: seq<nat>)
    requires Increasing(a) && a != []
    ensures var m := |a| - 1; a[m] in a && Increasing(a[..m]) && forall x :: (x in a ==> x <= a[m]) && (x in a[..m] <==> x in a && x != a[m])
  {
    var m := |a| - 1;
    assert a == a[..m] + [a[m]];
    forall x | x in a
      ensures x <= a[m]
    {
      var i :| 0 <= i < |a| && a[i] == x;
    }
    forall x | x in a[..m]
      ensures x != a[m]
    {
      var i :| 0 <= i < m && a[..m][i] == x;
    }
  }

  /** An ordered list is determined by its members. */
  lemma {:induction false} OneOrder(a: seq<nat>, b: seq<nat>)
    requires Increasing(a) && Increasing(b) && forall x :: x in a <==> x in b
    ensures a == b
  {
    hide Increasing;
    assert a != [] ==> a[0] in a;
    assert b != [] ==> b[0] in b;
    if a != [] {
      var m, n := |a| - 1, |b| - 1;
      LastOf(a);
      LastOf(b);
      OneOrder(a[..m], b[..n]);
      assert a == a[..m] + [a[m]] && b == b[..n] + [b[n]];
    }
  }

  ghost function Refollowed(g: Graph, n: Neuron, t: Topic, es: seq<Neuron>): Graph {
    g[(n, t) := es]
  }

  lemma {:induction false} RefollowedLists(g: Graph, n: Neuron, t: Topic, es: seq<Neuron>)
    ensures forall m, u :: FolloweesOf(Refollowed(g, n, t, es), m, u) == if m == n && u == t then es else FolloweesOf(g, m, u)
  {
  }

  /** One map from (follower, topic, index) to followee, and one set of (topic, followee, follower). */
  class StableNeuronStore {
    var followees: map<(Neuron, Topic, nat), Neuron>
    var followers: set<(Topic, Neuron, Neuron)>

    ghost var graph: Graph

    ghost predicate Valid()
      reads this
    {
      && (forall n: Neuron, t: Topic, i: nat :: (n, t, i) in followees <==> i < |FolloweesOf(graph, n, t)|)
      && (forall n: Neuron, t: Topic, i: nat :: (n, t, i) in followees ==> followees[(n, t, i)] == FolloweesOf(graph, n, t)[i])
      && (forall t: Topic, e: Neuron, n: Neuron :: (t, e, n) in followers <==> e in FolloweesOf(graph, n, t))
    }

    constructor ()
      ensures Valid() && graph == map[]
    {
      followees, followers, graph := map[], {}, map[];
    }

    method GetFollowees(n: Neuron, t: Topic) returns (es: seq<Neuron>)
      requires Valid()
      ensures es == FolloweesOf(graph, n, t)
    {
      hide FolloweesOf;
      es := [];
      while (n, t, |es|) in followees
        invariant |es| <= |FolloweesOf(graph, n, t)| && es == FolloweesOf(graph, n, t)[..|es|]
        decreases |FolloweesOf(graph, n, t)| - |es|
      {
        es := es + [followees[(n, t, |es|)]];
      }
    }

    method GetFollowers(e: Neuron, t: Topic) returns (ns: seq<Neuron>)
      requires Valid()
      ensures Increasing(ns) && forall n :: n in ns <==> n in FollowersOf(graph, e, t)
    {
      hide FolloweesOf;
      var found := set k | k in followers && k.0 == t && k.1 == e :: k.2;
      assert forall n :: n in found <==> (t, e, n) in followers;
      ns := InOrder(found);
    }

    method SetFollowees(n: Neuron, t: Topic, es: seq<Neuron>)
      requires Valid()
      modifies this
      ensures Valid() && graph == Refollowed(old(graph), n, t, es)
    {
      hide FolloweesOf, Refollowed;
      var previous := GetFollowees(n, t);
      ReplaceList(n, t, previous, es);
      RefollowedLists(graph, n, t, es);
      var before, after := set e | e in previous, set e | e in es;
      UpdateIndex(n, t, before - after, after - before);
      graph := Refollowed(graph, n, t, es);
    }

    /** Removes the keys of the old list and inserts the new one by index. */
    method ReplaceList(n: Neuron, t: Topic, previous: seq<Neuron>, es: seq<Neuron>)
      requires Valid() && previous == FolloweesOf(graph, n, t)
      modifies this`followees
      ensures forall m: Neuron, u: Topic, i: nat :: (m, u, i) in followees <==> if (m, u) == (n, t) then i < |es| else (m, u, i) in old(followees)
      ensures forall m: Neuron, u: Topic, i: nat :: (m, u, i) in followees ==>
                followees[(m, u, i)] == if (m, u) == (n, t) then es[i] else old(followees[(m, u, i)])
    {
      hide FolloweesOf;
      for j := 0 to |previous|
        invariant forall m: Neuron, u: Topic, i: nat :: (m, u, i) in followees <==> (m, u, i) in old(followees) && ((m, u) == (n, t) ==> j <= i)
        invariant forall k :: k in followees ==> k in old(followees) && followees[k] == old(followees)[k]
      {
        followees := followees - {(n, t, j)};
      }
      for j := 0 to |es|
        invariant forall m: Neuron, u: Topic, i: nat :: (m, u, i) in followees <==> if (m, u) == (n, t) then i < j else (m, u, i) in old(followees)
        invariant forall m: Neuron, u: Topic, i: nat :: (m, u, i) in followees ==>
                    followees[(m, u, i)] == if (m, u) == (n, t) then es[i] else old(followees[(m, u, i)])
      {
        followees := followees[(n, t, j) := es[j]];
      }
    }

    method UpdateIndex(n: Neuron, t: Topic, gone: set<Neuron>, come: set<Neuron>)
      modifies this`followers
      ensures forall u, e, m :: (u, e, m) in followers <==> if u == t && m == n then e in come || ((t, e, n) in old(followers) && e !in gone) else (u, e, m) in old(followers)
    {
      var left := gone;
      while left != {}
        invariant left <= gone
        invariant forall u, e, m :: (u, e, m) in followers <==> (u, e, m) in old(followers) && !(u == t && m == n && e in gone - left)
        decreases left
      {
        var e :| e in left;
        followers := followers - {(t, e, n)};
        left := left - {e};
      }
      left := come;
      while left != {}
        invariant left <= come
        invariant forall u, e, m :: (u, e, m) in followers <==> ((u, e, m) in old(followers) && !(u == t && m == n && e in gone)) || (u == t && m == n && e in come - left)
        decreases left
      {
        var e :| e in left;
        followers := followers + {(t, e, n)};
        left := left - {e};
      }
    }
  }

  function ListIn(m: map<Neuron, map<Topic, seq<Neuron>>>, n: Neuron, t: Topic): seq<Neuron> {
    if n in m && t in m[n] then m[n][t] else []
  }

  function IndexIn(m: map<Topic, map<Neuron, set<Neuron>>>, t: Topic, e: Neuron): set<Neuron> {
    if t in m && e in m[t] then m[t][e] else {}
  }

  /** The lists by follower and topic, and the sets of followers by topic and followee. */
  class HeapNeuronStore {
    var followees: map<Neuron, map<Topic, seq<Neuron>>>
    var followers: map<Topic, map<Neuron, set<Neuron>>>

    ghost var graph: Graph

    function List(n: Neuron, t: Topic): seq<Neuron>
      reads this
    {
      ListIn(followees, n, t)
    }

    function Index(t: Topic, e: Neuron): set<Neuron>
      reads this
    {
      IndexIn(followers, t, e)
    }

    ghost predicate Valid()
      reads this
    {
      && (forall n, t :: List(n, t) == FolloweesOf(graph, n, t))
      && (forall t, e, n :: n in Index(t, e) <==> e in FolloweesOf(graph, n, t))
    }

    constructor ()
      ensures Valid() && graph == map[]
    {
      followees, followers, graph := map[], map[], map[];
    }

    method GetFollowees(n: Neuron, t: Topic) returns (es: seq<Neuron>)
      requires Valid()
      ensures es == FolloweesOf(graph, n, t)
    {
      es := List(n, t);
    }

    method GetFollowers(e: Neuron, t: Topic) returns (ns: seq<Neuron>)
      requires Valid()
      ensures Increasing(ns) && forall n :: n in ns <==> n in FollowersOf(graph, e, t)
    {
      ns := InOrder(Index(t, e));
    }

    method SetFollowees(n: Neuron, t: Topic, es: seq<Neuron>)
      requires Valid()
      modifies this
      ensures Valid() && graph == Refollowed(old(graph), n, t, es)
    {
      hide FolloweesOf, Refollowed, ListIn, IndexIn;
      var previous := List(n, t);
      RefollowedLists(graph, n, t, es);
      ReplaceList(n, t, es);
      var before, after := set e | e in previous, set e | e in es;
      ghost var g := graph;
      assert forall u, e, m :: m in Index(u, e) <==> e in FolloweesOf(g, m, u);
      UpdateIndex(n, t, before - after, after - before);
      graph := Refollowed(g, n, t, es);
      forall u, e, m
        ensures m in Index(u, e) <==> e in FolloweesOf(graph, m, u)
      {
        assert e in before <==> e in FolloweesOf(g, n, t);
      }
    }

    method RemoveFollower(n: Neuron, t: Topic, e: Neuron)
      modifies this`followers
      ensures forall u, d :: Index(u, d) == if u == t && d == e then old(Index(t, e)) - {n} else old(Index(u, d))
    {
      if t in followers && e in followers[t] {
        var byTopic: map<Neuron, set<Neuron>> := followers[t];
        followers := followers[t := byTopic[e := byTopic[e] - {n}]];
      }
    }

    method AddFollower(n: Neuron, t: Topic, e: Neuron)
      modifies this`followers
      ensures forall u, d :: Index(u, d) == if u == t && d == e then old(Index(t, e)) + {n} else old(Index(u, d))
    {
      var byTopic: map<Neuron, set<Neuron>> := if t in followers then followers[t] else map[];
      followers := followers[t := byTopic[e := Index(t, e) + {n}]];
    }

    /** Stores a list; an empty one is not kept. */
    method ReplaceList(n: Neuron, t: Topic, es: seq<Neuron>)
      modifies this`followees
      ensures forall m, u :: List(m, u) == if m == n && u == t then es else old(List(m, u))
      ensures forall u, e :: Index(u, e) == old(Index(u, e))
    {
      var lists := if n in followees then followees[n] else map[];
      followees := followees[n := if es == [] then lists - {t} else lists[t := es]];
    }

    method UpdateIndex(n: Neuron, t: Topic, gone: set<Neuron>, come: set<Neuron>)
      modifies this`followers
      ensures forall m, u :: List(m, u) == old(List(m, u))
      ensures forall u, e, m :: m in Index(u, e) <==> if u == t && m == n then e in come || (n in old(Index(t, e)) && e !in gone) else m in old(Index(u, e))
    {
      var left := gone;
      while left != {}
        invariant left <= gone
        invariant forall u, e, m :: m in Index(u, e) <==> m in old(Index(u, e)) && !(u == t && m == n && e in gone - left)
        decreases left
      {
        var e :| e in left;
        RemoveFollower(n, t, e);
        left := left - {e};
      }
      left := come;
      while left != {}
        invariant left <= come
        invariant forall u, e, m :: m in Index(u, e) <==> (m in old(Index(u, e)) && !(u == t && m == n && e in gone)) || (u == t && m == n && e in come - left)
        decreases left
      {
        var e :| e in left;
        AddFollower(n, t, e);
        left := left - {e};
      }
    }
  }

  datatype Call = Call(neuron: Neuron, topic: Topic, followees: seq<Neuron>)

  /** The lists after a run of calls. */
  ghost function GraphOf(calls: seq<Call>): Graph {
    if calls == [] then map[]
    else
      var c := calls[|calls| - 1];
      Refollowed(GraphOf(calls[..|calls| - 1]), c.neuron, c.topic, c.followees)
  }

  /** The list of a neuron as it was given, and those whose lists name it, in order. */
  ghost predicate IsAnswer(g: Graph, n: Neuron, t: Topic, a: (seq<Neuron>, seq<Neuron>)) {
    a.0 == FolloweesOf(g, n, t) && Increasing(a.1) && forall m :: m in a.1 <==> m in FollowersOf(g, n, t)
  }

  /** Given the same calls, whatever they are, the two stores answer every question alike. */
  method SameAnswers(calls: seq<Call>, questions: seq<(Neuron, Topic)>)
    returns (fromStable: seq<(seq<Neuron>, seq<Neuron>)>, fromHeap: seq<(seq<Neuron>, seq<Neuron>)>)
    ensures fromStable == fromHeap && |fromStable| == |questions|
    ensures forall k :: 0 <= k < |questions| ==> IsAnswer(GraphOf(calls), questions[k].0, questions[k].1, fromStable[k])
  {
    hide StableNeuronStore.Valid, HeapNeuronStore.Valid, FolloweesOf;
    var stable, heap := RunBoth(calls);
    fromStable, fromHeap := [], [];
    for k := 0 to |questions|
      invariant stable.Valid() && heap.Valid() && stable.graph == heap.graph == GraphOf(calls)
      invariant fromStable == fromHeap && |fromStable| == k
      invariant forall j :: 0 <= j < k ==> IsAnswer(GraphOf(calls), questions[j].0, questions[j].1, fromStable[j])
    {
      var (n, t) := questions[k];
      var a := stable.GetFollowees(n, t);
      var b := stable.GetFollowers(n, t);
      var c := heap.GetFollowees(n, t);
      var d := heap.GetFollowers(n, t);
      OneOrder(b, d);
      fromStable, fromHeap := fromStable + [(a, b)], fromHeap + [(c, d)];
    }
  }

  /** Makes the same calls on a new store of each kind. */
  method RunBoth(calls: seq<Call>) returns (stable: StableNeuronStore, heap: HeapNeuronStore)
    ensures fresh(stable) && fresh(heap) && stable.Valid() && heap.Valid() && stable.graph == heap.graph == GraphOf(calls)
  {
    hide StableNeuronStore.Valid, HeapNeuronStore.Valid, Refollowed;
    stable := new StableNeuronStore();
    heap := new HeapNeuronStore();
    for k := 0 to |calls|
      invariant stable.Valid() && heap.Valid() && stable.graph == heap.graph == GraphOf(calls[..k])
    {
      var c := calls[k];
      assert calls[..k + 1][..k] == calls[..k];
      stable.SetFollowees(c.neuron, c.topic, c.followees);
      heap.SetFollowees(c.neuron, c.topic, c.followees);
    }
    assert calls[..|calls|] == calls;
  }
}
