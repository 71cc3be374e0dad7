/** The full sync of the integration guide: pages are collected until one is empty, and the client then goes on from the
    sequence number that came with that last page. */
module GuidedSync {
  import opened Types
  import opened ChangeFeed

  /** The server, and a client that collects pages. */
  datatype Sync<T, X> = Sync(feed: Feed<T, X>, after: Option<Key>, replica: map<T, X>)

  /** What happens during a sync: a change at the server, or a page that is not empty. */
  datatype Turn<T, X> = Changed(change: Change<T, X>) | Arrived(limit: nat, page: seq<(T, X)>)

  function Begun<T, X>(f: Feed<T, X>): Sync<T, X> {
    Sync(f, None, map[])
  }

  /** Every row stands at the place of its tag. */
  ghost predicate Placed<T(!new), X>(rank: (T, X) -> Key, place: T -> Key, state: map<T, X>) {
    forall t :: t in state ==> rank(t, state[t]) == place(t)
  }

  ghost predicate CanTurn<T(!new), X>(rank: (T, X) -> Key, place: T -> Key, w: Sync<T, X>, e: Turn<T, X>) {
    match e
    case Changed(c) => c.Setting? ==> rank(c.tag, c.value) == place(c.tag)
    case Arrived(limit, page) => page != [] && IsPage(rank, w.feed.state, w.after, limit, page)
  }

  ghost function Turned<T(!new), X>(rank: (T, X) -> Key, w: Sync<T, X>, e: Turn<T, X>): Sync<T, X> {
    match e
    case Changed(c) => w.(feed := Applied(w.feed, c))
    case Arrived(_, page) =>
      if page == [] then w
      else Sync(w.feed, Some(rank(page[|page| - 1].0, page[|page| - 1].1)), WithPage(w.replica, page))
  }

  ghost predicate Syncs<T(!new), X>(rank: (T, X) -> Key, place: T -> Key, w: Sync<T, X>, es: seq<Turn<T, X>>, w': Sync<T, X>)
    decreases |es|
  {
    if es == [] then w' == w else CanTurn(rank, place, w, es[0]) && Syncs(rank, place, Turned(rank, w, es[0]), es[1..], w')
  }

  /** The last page is empty although rows were asked for. */
  ghost predicate Ended<T(!new), X>(rank: (T, X) -> Key, w: Sync<T, X>, limit: nat) {
    0 < limit && IsPage(rank, w.feed.state, w.after, limit, [])
  }

  /** The client of the guide goes on from the present number. */
  function Finished<T, X>(w: Sync<T, X>): Client<T, X> {
    Following(Now(w.feed), w.replica)
  }

  // ---- Late changes

  ghost function Status<T, X>(m: map<T, X>, t: T): Option<X> {
    if t in m then Some(m[t]) else None
  }

  /** What a change makes of a tag, if it does anything to it. */
  ghost function Effect<T(!new), X>(state: map<T, X>, c: Change<T, X>, t: T): seq<Option<X>> {
    match c
    case Setting(u, x) => if u == t then [Some(x)] else []
    case Deletion(u) => if u == t && t in state then [None] else []
    case Clearing => if t in state then [None] else []
    case Compaction => []
  }

  /** A turn that changes a tag the pages have gone past. */
  ghost function LateEffect<T(!new), X>(place: T -> Key, w: Sync<T, X>, e: Turn<T, X>, t: T): seq<Option<X>> {
    if e.Changed? && !Past(w.after, place(t)) then Effect(w.feed.state, e.change, t) else []
  }

  /** What late changes made of a tag, one after the other. */
  ghost function LateWrites<T(!new), X>(rank: (T, X) -> Key, place: T -> Key, w: Sync<T, X>, es: seq<Turn<T, X>>, t: T): seq<Option<X>>
    decreases |es|
  {
    if es == [] then [] else LateEffect(place, w, es[0], t) + LateWrites(rank, place, Turned(rank, w, es[0]), es[1..], t)
  }

  /** What the first late change of a tag found there. */
  ghost function Found<T(!new), X>(rank: (T, X) -> Key, place: T -> Key, w: Sync<T, X>, es: seq<Turn<T, X>>, t: T): Option<X>
    decreases |es|
  {
    if es == [] || LateEffect(place, w, es[0], t) != [] then Status(w.feed.state, t)
    else Found(rank, place, Turned(rank, w, es[0]), es[1..], t)
  }

  /** No change came late to the tag, or the last one that did put back what the first had found. */
  ghost predicate MadeUp<T(!new), X>(rank: (T, X) -> Key, place: T -> Key, w: Sync<T, X>, es: seq<Turn<T, X>>, t: T) {
    var late := LateWrites(rank, place, w, es, t);
    late == [] || late[|late| - 1] == Found(rank, place, w, es, t)
  }

  /** Every change came to a tag that the pages had still to reach. */
  ghost predicate AllEarly<T(!new), X>(rank: (T, X) -> Key, place: T -> Key, w: Sync<T, X>, es: seq<Turn<T, X>>) {
    forall t :: LateWrites(rank, place, w, es, t) == []
  }

  lemma {:induction false} EffectMeaning<T(!new), X>(f: Feed<T, X>, c: Change<T, X>, t: T)
    ensures var e := Effect(f.state, c, t);
            |e| <= 1 && Status(Applied(f, c).state, t) == if e == [] then Status(f.state, t) else e[0]
  {
  }

  lemma {:induction false} StaysPlaced<T(!new), X>(rank: (T, X) -> Key, place: T -> Key, w: Sync<T, X>, e: Turn<T, X>)
    requires Placed(rank, place, w.feed.state) && CanTurn(rank, place, w, e)
    ensures Placed(rank, place, Turned(rank, w, e).feed.state)
  {
  }

  /** A page takes in what is at the places it goes past, and nothing else. */
  lemma {:induction false} PageTakes<T(!new), X>(rank: (T, X) -> Key, place: T -> Key, w: Sync<T, X>, limit: nat, page: seq<(T, X)>, t: T)
    requires Placed(rank, place, w.feed.state) && page != [] && IsPage(rank, w.feed.state, w.after, limit, page)
    ensures var w' := Turned(rank, w, Arrived(limit, page));
            && (!Past(w.after, place(t)) ==> !Past(w'.after, place(t)) && Status(w'.replica, t) == Status(w.replica, t))
            && (Past(w'.after, place(t)) ==> Status(w'.replica, t) == Status(w.replica, t))
            && (Past(w.after, place(t)) && !Past(w'.after, place(t)) && t !in w.replica ==> Status(w'.replica, t) == Status(w.feed.state, t))
  {
    var last := page[|page| - 1];
    WithPageMeaning(w.replica, page, w.feed.state, t);
    assert Past(w.after, rank(last.0, last.1));
    if t in w.feed.state && (t, w.feed.state[t]) in page {
      var i :| 0 <= i < |page| && page[i] == (t, w.feed.state[t]);
      assert rank(page[i].0, page[i].1) == place(t);
      assert i < |page| - 1 ==> rank(page[i].0, page[i].1) < rank(last.0, last.1);
    }
  }

  /** Once the pages have gone past a tag, the replica keeps what it has, and late changes decide what the server has. */
  lemma {:induction false} GonePast<T(!new), X>(rank: (T, X) -> Key, place: T -> Key, w: Sync<T, X>, es: seq<Turn<T, X>>, w': Sync<T, X>, t: T)
    requires Syncs(rank, place, w, es, w') && Placed(rank, place, w.feed.state) && !Past(w.after, place(t))
    ensures Status(w'.replica, t) == Status(w.replica, t) && Found(rank, place, w, es, t) == Status(w.feed.state, t)
    ensures !Past(w'.after, place(t))
    ensures var late := LateWrites(rank, place, w, es, t);
            Status(w'.feed.state, t) == if late == [] then Status(w.feed.state, t) else late[|late| - 1]
    decreases |es|
  {
    if es != [] {
      hide IsPage, Placed, Applied, Effect;
      var w1 := Turned(rank, w, es[0]);
      StaysPlaced(rank, place, w, es[0]);
      if es[0].Changed? {
        EffectMeaning(w.feed, es[0].change, t);
      } else {
        PageTakes(rank, place, w, es[0].limit, es[0].page, t);
      }
      GonePast(rank, place, w1, es[1..], w', t);
    }
  }

  /** A tag the pages have still to reach. */
  lemma {:induction false} StillAhead<T(!new), X>(rank: (T, X) -> Key, place: T -> Key, w: Sync<T, X>, es: seq<Turn<T, X>>, w': Sync<T, X>, t: T)
    requires Syncs(rank, place, w, es, w') && Placed(rank, place, w.feed.state) && Past(w.after, place(t)) && t !in w.replica
    ensures Past(w'.after, place(t)) ==> t !in w'.replica && LateWrites(rank, place, w, es, t) == []
    ensures !Past(w'.after, place(t)) ==> Status(w'.replica, t) == Found(rank, place, w, es, t)
    ensures !Past(w'.after, place(t)) ==>
              var late := LateWrites(rank, place, w, es, t);
              Status(w'.feed.state, t) == if late == [] then Found(rank, place, w, es, t) else late[|late| - 1]
    decreases |es|
  {
    if es != [] {
      hide IsPage, Placed, Applied, Effect;
      var w1 := Turned(rank, w, es[0]);
      StaysPlaced(rank, place, w, es[0]);
      if es[0].Arrived? {
        PageTakes(rank, place, w, es[0].limit, es[0].page, t);
      }
      assert LateEffect(place, w, es[0], t) == [];
      if Past(w1.after, place(t)) {
        StillAhead(rank, place, w1, es[1..], w', t);
      } else {
        GonePast(rank, place, w1, es[1..], w', t);
      }
    }
  }

  /** The replica of the guide's client is right on a tag exactly if every late change of it was made up for. */
  lemma {:induction false} RightOnTag<T(!new), X>(rank: (T, X) -> Key, place: T -> Key, f: Feed<T, X>, es: seq<Turn<T, X>>, w: Sync<T, X>, limit: nat, t: T)
    requires Placed(rank, place, f.state) && Syncs(rank, place, Begun(f), es, w) && Ended(rank, w, limit)
    ensures Same(w.replica, w.feed.state, t) <==> MadeUp(rank, place, Begun(f), es, t)
  {
    StillAhead(rank, place, Begun(f), es, w, t);
    AllPlaced(rank, place, Begun(f), es, w);
    if Past(w.after, place(t)) {
      assert t !in w.feed.state;
    }
  }

  lemma {:induction false} AllPlaced<T(!new), X>(rank: (T, X) -> Key, place: T -> Key, w: Sync<T, X>, es: seq<Turn<T, X>>, w': Sync<T, X>)
    requires Placed(rank, place, w.feed.state) && Syncs(rank, place, w, es, w')
    ensures Placed(rank, place, w'.feed.state)
    decreases |es|
  {
    if es != [] {
      StaysPlaced(rank, place, w, es[0]);
      AllPlaced(rank, place, Turned(rank, w, es[0]), es[1..], w');
    }
  }

  /** Whatever the server does during a sync, writes, deletions, clearings and compactions included: the guide's client
      equals the server if every change came to a tag the pages had still to reach; and it does so exactly if for every
      other tag the last late change put back what the first had found. Neither condition looks at the client. */
  lemma {:induction false} GuidedClientExact<T(!new), X>(rank: (T, X) -> Key, place: T -> Key, f: Feed<T, X>, es: seq<Turn<T, X>>, w: Sync<T, X>, limit: nat)
    requires Placed(rank, place, f.state) && Syncs(rank, place, Begun(f), es, w) && Ended(rank, w, limit)
    ensures AllEarly(rank, place, Begun(f), es) ==> Finished(w).replica == w.feed.state
    ensures Finished(w).replica == w.feed.state <==> forall t :: MadeUp(rank, place, Begun(f), es, t)
    ensures Good(rank, w.feed, Finished(w)) <==> forall t :: MadeUp(rank, place, Begun(f), es, t)
  {
    hide Syncs, Ended, Placed, MadeUp;
    forall t
      ensures Same(w.replica, w.feed.state, t) <==> MadeUp(rank, place, Begun(f), es, t)
    {
      RightOnTag(rank, place, f, es, w, limit, t);
    }
    if forall t :: MadeUp(rank, place, Begun(f), es, t) {
      EqualMaps(w.replica, w.feed.state);
    }
    if AllEarly(rank, place, Begun(f), es) {
      forall t
        ensures MadeUp(rank, place, Begun(f), es, t)
      {
        EarlyIsMadeUp(rank, place, Begun(f), es, t);
      }
      EqualMaps(w.replica, w.feed.state);
    }
    AtTheEnd(rank, w.feed, w.replica);
  }

  lemma {:induction false} EarlyIsMadeUp<T(!new), X>(rank: (T, X) -> Key, place: T -> Key, w: Sync<T, X>, es: seq<Turn<T, X>>, t: T)
    requires AllEarly(rank, place, w, es)
    ensures MadeUp(rank, place, w, es, t)
  {
  }

  lemma {:induction false} EqualMaps<T(!new), X>(m: map<T, X>, n: map<T, X>)
    requires forall t :: Same(m, n, t)
    ensures m == n
  {
    forall t
      ensures t in m <==> t in n
      ensures t in m ==> m[t] == n[t]
    {
      assert Same(m, n, t);
    }
  }

  /** At the end of the log, to be good is to be equal. */
  lemma {:induction false} AtTheEnd<T(!new), X>(rank: (T, X) -> Key, f: Feed<T, X>, r: map<T, X>)
    ensures Good(rank, f, Following(Now(f), r)) <==> forall t :: Same(r, f.state, t)
  {
    assert From(f, Now(f)) == [];
    assert forall t :: Last(From(f, Now(f)), t).None?;
  }

  // ---- What the log can tell

  /** The log entries made during a sync, each with how far the pages had come. */
  ghost function Mentions<T(!new), X>(rank: (T, X) -> Key, w: Sync<T, X>, es: seq<Turn<T, X>>): seq<(Mention<T>, Option<Key>)>
    decreases |es|
  {
    if es == [] then [] else Mentioned(w, es[0]) + Mentions(rank, Turned(rank, w, es[0]), es[1..])
  }

  ghost function Mentioned<T(!new), X>(w: Sync<T, X>, e: Turn<T, X>): seq<(Mention<T>, Option<Key>)> {
    if e.Changed? && (e.change.Setting? || (e.change.Deletion? && e.change.tag in w.feed.state))
    then [(Mention(e.change.tag, e.change.Setting?), w.after)]
    else []
  }

  ghost function Entries<T(!new)>(ms: seq<(Mention<T>, Option<Key>)>): (r: seq<Mention<T>>)
    ensures |r| == |ms|
  {
    seq(|ms|, i requires 0 <= i < |ms| => ms[i].0)
  }

  /** Every entry was made while its tag lay beyond where the pages had come. */
  ghost predicate LoggedEarly<T(!new)>(place: T -> Key, ms: seq<(Mention<T>, Option<Key>)>) {
    forall i :: 0 <= i < |ms| ==> Past(ms[i].1, place(ms[i].0.tag))
  }

  /** As long as the log reaches back to a number, it has the entries made since. */
  lemma {:induction false} LogRecords<T(!new), X>(rank: (T, X) -> Key, place: T -> Key, w: Sync<T, X>, es: seq<Turn<T, X>>, w': Sync<T, X>, n: nat)
    requires Syncs(rank, place, w, es, w') && n <= Now(w.feed) && w'.feed.epoch <= n
    ensures w.feed.epoch <= n <= Now(w'.feed) && From(w'.feed, n) == From(w.feed, n) + Entries(Mentions(rank, w, es))
    ensures forall e :: e in es && e.Changed? && e.change.Clearing? ==> false
    decreases |es|
  {
    if es != [] {
      hide Mentioned, Turned, CanTurn;
      var w1 := Turned(rank, w, es[0]);
      NumberGrows(rank, w, es[0]);
      LogRecords(rank, place, w1, es[1..], w', n);
      OneRecord(rank, w, es[0], n);
      EntriesJoin(Mentioned(w, es[0]), Mentions(rank, w1, es[1..]));
      assert es == [es[0]] + es[1..];
    }
  }

  lemma {:induction false} EntriesJoin<T(!new)>(a: seq<(Mention<T>, Option<Key>)>, b: seq<(Mention<T>, Option<Key>)>)
    ensures Entries(a + b) == Entries(a) + Entries(b)
  {
  }

  lemma {:induction false} NumberGrows<T(!new), X>(rank: (T, X) -> Key, w: Sync<T, X>, e: Turn<T, X>)
    ensures Now(w.feed) <= Now(Turned(rank, w, e).feed)
  {
  }

  /** One turn adds its entry to the log, if it has one. */
  lemma {:induction false} OneRecord<T(!new), X>(rank: (T, X) -> Key, w: Sync<T, X>, e: Turn<T, X>, n: nat)
    requires n <= Now(w.feed) && Turned(rank, w, e).feed.epoch <= n
    ensures w.feed.epoch <= n && (e.Changed? ==> !e.change.Clearing?)
    ensures From(Turned(rank, w, e).feed, n) == From(w.feed, n) + Entries(Mentioned(w, e))
  {
  }

  /** Without a clearing, all changes were early exactly if all entries were. */
  lemma {:induction false} EarlyByEntries<T(!new), X>(rank: (T, X) -> Key, place: T -> Key, w: Sync<T, X>, es: seq<Turn<T, X>>)
    requires forall e :: e in es && e.Changed? && e.change.Clearing? ==> false
    ensures AllEarly(rank, place, w, es) <==> LoggedEarly(place, Mentions(rank, w, es))
    decreases |es|
  {
    if es != [] {
      hide AllEarly, LoggedEarly, LateEffect, Mentioned, Turned;
      var w1, e := Turned(rank, w, es[0]), es[0];
      assert e in es && forall x :: x in es[1..] ==> x in es;
      EarlyByEntries(rank, place, w1, es[1..]);
      OneEarly(place, w, e);
      EarlyParts(rank, place, w, es);
      EarlyJoin(place, Mentioned(w, e), Mentions(rank, w1, es[1..]));
    } else {
      assert forall t :: LateWrites(rank, place, w, es, t) == [];
    }
  }

  lemma {:induction false} EarlyJoin<T(!new)>(place: T -> Key, a: seq<(Mention<T>, Option<Key>)>, b: seq<(Mention<T>, Option<Key>)>)
    ensures LoggedEarly(place, a + b) <==> LoggedEarly(place, a) && LoggedEarly(place, b)
  {
    assert forall i :: 0 <= i < |a| ==> (a + b)[i] == a[i];
    assert forall i :: 0 <= i < |b| ==> (a + b)[|a| + i] == b[i];
  }

  lemma {:induction false} EarlyParts<T(!new), X>(rank: (T, X) -> Key, place: T -> Key, w: Sync<T, X>, es: seq<Turn<T, X>>)
    requires es != []
    ensures AllEarly(rank, place, w, es) <==>
              (forall t :: LateEffect(place, w, es[0], t) == []) && AllEarly(rank, place, Turned(rank, w, es[0]), es[1..])
  {
    forall t
      ensures LateWrites(rank, place, w, es, t) == [] <==>
                LateEffect(place, w, es[0], t) == [] && LateWrites(rank, place, Turned(rank, w, es[0]), es[1..], t) == []
    {
    }
  }

  lemma {:induction false} OneEarly<T(!new), X>(place: T -> Key, w: Sync<T, X>, e: Turn<T, X>)
    requires e.Changed? ==> !e.change.Clearing?
    ensures (forall t :: LateEffect(place, w, e, t) == []) <==> LoggedEarly(place, Mentioned(w, e))
  {
    if Mentioned(w, e) != [] {
      var t := e.change.tag;
      assert LateEffect(place, w, e, t) == [] <==> Past(w.after, place(t));
      assert Mentioned(w, e)[0].0.tag == t;
    }
  }

  /** What a client can check that has kept the number of its first page, and of each page how far it went: if the log
      still reaches back to the first page, and every entry since was made while its tag lay beyond the pages, then the
      client equals the server. That is so, in particular, if there is no such entry. */
  lemma {:induction false} GuidedClientCheck<T(!new), X>(rank: (T, X) -> Key, place: T -> Key, f: Feed<T, X>, es: seq<Turn<T, X>>, w: Sync<T, X>, limit: nat)
    requires Placed(rank, place, f.state) && Syncs(rank, place, Begun(f), es, w) && Ended(rank, w, limit) && w.feed.epoch <= Now(f)
    ensures Now(f) <= Now(w.feed) && From(w.feed, Now(f)) == Entries(Mentions(rank, Begun(f), es))
    ensures AllEarly(rank, place, Begun(f), es) <==> LoggedEarly(place, Mentions(rank, Begun(f), es))
    ensures LoggedEarly(place, Mentions(rank, Begun(f), es)) ==> Finished(w).replica == w.feed.state
    ensures Now(f) == Now(w.feed) ==> Finished(w).replica == w.feed.state
  {
    hide Syncs, Ended, Placed, AllEarly, MadeUp;
    LogRecords(rank, place, Begun(f), es, w, Now(f));
    assert From(f, Now(f)) == [];
    EarlyByEntries(rank, place, Begun(f), es);
    GuidedClientExact(rank, place, f, es, w, limit);
  }

  // ---- Nothing will tell the client

  /** The client is wrong on a tag that no change it has still to take in mentions; or it has been turned away. */
  ghost predicate Stuck<T(!new), X>(f: Feed<T, X>, c: Client<T, X>, t: T) {
    match c
    case Following(n, r) => n <= Now(f) && !Same(r, f.state, t) && (f.epoch <= n ==> Last(From(f, n), t).None?)
    case Resolving(n, r, b) => n <= Now(f) && !Same(r, f.state, t) && Last(b, t).None? && (f.epoch <= n ==> Last(From(f, n), t).None?)
    case Paging(_, _, _) => false
    case Lost => true
  }

  /** A client that finishes wrong on a tag stays wrong on it, through all fetches, until the tag is changed again or the
      client is turned away. */
  lemma {:induction false} StaysStuck<T(!new), X>(f: Feed<T, X>, c: Client<T, X>, t: T, change: Change<T, X>, limit: nat)
    requires Stuck(f, c, t)
    ensures Effect(f.state, change, t) == [] ==> Stuck(Applied(f, change), c, t)
    ensures Stuck(f, Fetched(f, c, limit), t) && Stuck(f, Resolved(f, c), t)
  {
    if Effect(f.state, change, t) == [] {
      ChangeElsewhere(f, c, t, change);
    }
    if c.Following? && f.epoch <= c.cursor {
      var d := Fetched(f, c, limit);
      assert From(f, c.cursor) == d.batch + From(f, d.cursor);
      LastConcat(d.batch, From(f, d.cursor), t);
    }
    if c.Resolving? {
      TakenMeaning(c.replica, c.batch, f.state, t);
    }
  }

  lemma {:induction false} ChangeElsewhere<T(!new), X>(f: Feed<T, X>, c: Client<T, X>, t: T, change: Change<T, X>)
    requires Stuck(f, c, t) && Effect(f.state, change, t) == []
    ensures Stuck(Applied(f, change), c, t)
  {
    hide Last;
    EffectMeaning(f, change, t);
    if !c.Lost? {
      NotMentioned(f, change, c.cursor, t);
    }
  }

  /** A change that does nothing to a tag leaves it out of the log. */
  lemma {:induction false} NotMentioned<T(!new), X>(f: Feed<T, X>, change: Change<T, X>, n: nat, t: T)
    requires n <= Now(f) && Effect(f.state, change, t) == [] && (f.epoch <= n ==> Last(From(f, n), t).None?)
    ensures var g := Applied(f, change); n <= Now(g) && (g.epoch <= n ==> Last(From(g, n), t).None?)
  {
    hide Last, Applied;
    match change
    case Setting(u, x) =>
      assert Applied(f, change) == Feed(f.state[u := x], f.log + [Mention(u, true)], f.epoch) by { Unfolded(f, change); }
      LogGrows(f, f.state[u := x], Mention(u, true), n, t);
    case Deletion(u) =>
      Unfolded(f, change);
      LogGrows(f, f.state - {u}, Mention(u, false), n, t);
    case Clearing => Unfolded(f, change);
    case Compaction =>
      Unfolded(f, change);
      NothingLogged(f, n, t);
  }

  lemma {:induction false} Unfolded<T(!new), X>(f: Feed<T, X>, c: Change<T, X>)
    ensures c.Setting? ==> Applied(f, c) == Feed(f.state[c.tag := c.value], f.log + [Mention(c.tag, true)], f.epoch)
    ensures c.Deletion? ==> Applied(f, c) == if c.tag in f.state then Feed(f.state - {c.tag}, f.log + [Mention(c.tag, false)], f.epoch) else f
    ensures c.Clearing? ==> Applied(f, c) == Feed(map[], [], Now(f) + 1)
    ensures c.Compaction? ==> Applied(f, c) == Feed(f.state, [], Now(f))
  {
  }

  lemma {:induction false} LogGrows<T(!new), X>(f: Feed<T, X>, state: map<T, X>, m: Mention<T>, n: nat, t: T)
    requires n <= Now(f) && (f.epoch <= n ==> Last(From(f, n), t).None?)
    ensures var g := Feed(state, f.log + [m], f.epoch); n <= Now(g) && (g.epoch <= n && m.tag != t ==> Last(From(g, n), t).None?)
  {
    hide Last;
    if f.epoch <= n {
      var g := Feed(state, f.log + [m], f.epoch);
      assert From(g, n) == From(f, n) + [m];
      LastConcat(From(f, n), [m], t);
      LastOfOne(m, t);
    }
  }

  lemma {:induction false} NothingLogged<T(!new), X>(f: Feed<T, X>, n: nat, t: T)
    requires n <= Now(f)
    ensures var g := Feed(f.state, [], Now(f)); n <= Now(g) && (g.epoch <= n ==> Last(From(g, n), t).None?)
  {
  }

  lemma {:induction false} LastOfOne<T>(m: Mention<T>, t: T)
    ensures m.tag != t ==> Last([m], t).None?
  {
    assert [m][..0] == [];
  }

  lemma {:induction false} FinishesStuck<T(!new), X>(w: Sync<T, X>, t: T)
    requires !Same(w.replica, w.feed.state, t)
    ensures Stuck(w.feed, Finished(w), t)
  {
    assert From(w.feed, Now(w.feed)) == [];
  }

  // ---- Two runs that go wrong

  /** Two keys and pages of one row. The first key is changed after its page: the guide's client goes on to the empty page,
      takes itself to be up to date and is not; and nothing in the log will tell it. */
  lemma {:induction false} GuidedClientMisses() returns (f: Feed<Key, nat>, es: seq<Turn<Key, nat>>, w: Sync<Key, nat>)
    ensures var rank := (k: Key, x: nat) => k;
            var place := (k: Key) => k;
            && Placed(rank, place, f.state) && Syncs(rank, place, Begun(f), es, w) && Ended(rank, w, 1)
            && (forall i :: 0 <= i < |es| && es[i].Arrived? ==> es[i].limit == 1)
            && Finished(w) == Following(Now(w.feed), map[1.0 := 10, 2.0 := 20]) && w.feed.state == map[1.0 := 11, 2.0 := 20]
            && !MadeUp(rank, place, Begun(f), es, 1.0) && Stuck(w.feed, Finished(w), 1.0)
  {
    hide IsPage, Stuck, MadeUp;
    var rank := (k: Key, x: nat) => k;
    var place := (k: Key) => k;
    f := Feed(map[1.0 := 10, 2.0 := 20], [Mention(1.0, true), Mention(2.0, true)], 0);
    PagesOfOne(rank, 10);
    PagesOfOne(rank, 11);
    es := [Arrived(1, [(1.0, 10)]), Changed(Setting(1.0, 11)), Arrived(1, [(2.0, 20)])];
    var w1 := Sync(f, Some(1.0), map[1.0 := 10]);
    var w2 := w1.(feed := Applied(f, Setting(1.0, 11)));
    assert w2.feed.state == map[1.0 := 11, 2.0 := 20];
    w := Sync(w2.feed, Some(2.0), map[1.0 := 10, 2.0 := 20]);
    OneRow(map[], (1.0, 10));
    OneRow(map[1.0 := 10], (2.0, 20));
    assert Turned(rank, Begun(f), es[0]) == w1 && Turned(rank, w1, es[1]) == w2 && Turned(rank, w2, es[2]) == w;
    ThreeTurns(rank, place, Begun(f), w1, w2, w, es);
    RightOnTag(rank, place, f, es, w, 1, 1.0);
    FinishesStuck(w, 1.0);
  }

  /** The map is cleared after a page: the client keeps the rows it has and is not turned away. */
  lemma {:induction false} GuidedClientKeepsCleared() returns (f: Feed<Key, nat>, es: seq<Turn<Key, nat>>, w: Sync<Key, nat>)
    ensures var rank := (k: Key, x: nat) => k;
            var place := (k: Key) => k;
            && Placed(rank, place, f.state) && Syncs(rank, place, Begun(f), es, w) && Ended(rank, w, 1)
            && w.feed.state == map[] && Finished(w).replica == map[1.0 := 10] && !Fetched(w.feed, Finished(w), 500).Lost?
            && !MadeUp(rank, place, Begun(f), es, 1.0) && Stuck(w.feed, Finished(w), 1.0)
  {
    var rank := (k: Key, x: nat) => k;
    var place := (k: Key) => k;
    f := Feed(map[1.0 := 10], [Mention(1.0, true)], 0);
    es := [Arrived(1, [(1.0, 10)]), Changed(Clearing)];
    var w1 := Sync(f, Some(1.0), map[1.0 := 10]);
    w := w1.(feed := Applied(f, Clearing));
    OneRow(map[], (1.0, 10));
    assert Turned(rank, Begun(f), es[0]) == w1 && Turned(rank, w1, es[1]) == w;
    TwoTurns(rank, place, Begun(f), w1, w, es);
    RightOnTag(rank, place, f, es, w, 1, 1.0);
    FinishesStuck(w, 1.0);
  }

  lemma {:induction false} PagesOfOne(rank: (Key, nat) -> Key, x: nat)
    requires forall k, y :: rank(k, y) == k
    ensures var m: map<Key, nat> := map[1.0 := x, 2.0 := 20];
            && IsPage(rank, m, None, 1, [(1.0, x)]) && IsPage(rank, m, Some(1.0), 1, [(2.0, 20)]) && IsPage(rank, m, Some(2.0), 1, [])
  {
  }

  lemma {:induction false} OneRow<T(!new), X>(r: map<T, X>, row: (T, X))
    ensures WithPage(r, [row]) == r[row.0 := row.1]
  {
    assert [row][..0] == [];
  }

  lemma {:induction false} TwoTurns<T(!new), X>(rank: (T, X) -> Key, place: T -> Key, w: Sync<T, X>, w1: Sync<T, X>, w2: Sync<T, X>, es: seq<Turn<T, X>>)
    requires |es| == 2 && CanTurn(rank, place, w, es[0]) && Turned(rank, w, es[0]) == w1
    requires CanTurn(rank, place, w1, es[1]) && Turned(rank, w1, es[1]) == w2
    ensures Syncs(rank, place, w, es, w2)
  {
    assert es[1..][0] == es[1] && es[1..][1..] == [];
    assert Syncs(rank, place, w1, es[1..], w2);
  }

  lemma {:induction false} ThreeTurns<T(!new), X>(rank: (T, X) -> Key, place: T -> Key, w: Sync<T, X>, w1: Sync<T, X>, w2: Sync<T, X>, w3: Sync<T, X>, es: seq<Turn<T, X>>)
    requires |es| == 3 && CanTurn(rank, place, w, es[0]) && Turned(rank, w, es[0]) == w1
    requires CanTurn(rank, place, w1, es[1]) && Turned(rank, w1, es[1]) == w2
    requires CanTurn(rank, place, w2, es[2]) && Turned(rank, w2, es[2]) == w3
    ensures Syncs(rank, place, w, es, w3)
  {
    TwoTurns(rank, place, w1, w2, w3, es[1..]);
  }
}
