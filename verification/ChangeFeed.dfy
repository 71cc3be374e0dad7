/** A map that keeps a log of its changes, and clients that follow it at their own pace. The log says
    which tag changed, not to what: clients read values later than the changes they belong to. */
module ChangeFeed {
  import opened Types

  /** A log entry: the tag was set, or removed. */
  datatype Mention<T> = Mention(tag: T, present: bool)

  datatype Feed<T, X> = Feed(state: map<T, X>, log: seq<Mention<T>>, epoch: nat)

  /** The sequence number of the next change. */
  function Now<T, X>(f: Feed<T, X>): nat {
    f.epoch + |f.log|
  }

  datatype Change<T, X> = Setting(tag: T, value: X) | Deletion(tag: T) | Clearing | Compaction

  function Applied<T(==), X>(f: Feed<T, X>, c: Change<T, X>): Feed<T, X> {
    match c
    case Setting(t, x) => Feed(f.state[t := x], f.log + [Mention(t, true)], f.epoch)
    case Deletion(t) => if t in f.state then Feed(f.state - {t}, f.log + [Mention(t, false)], f.epoch) else f
    case Clearing => Feed(map[], [], Now(f) + 1)
    case Compaction => Feed(f.state, [], Now(f))
  }

  /** What the last mention of a tag says. */
  function Last<T(==)>(log: seq<Mention<T>>, t: T): Option<bool> {
    if log == [] then None
    else if log[|log| - 1].tag == t then Some(log[|log| - 1].present)
    else Last(log[..|log| - 1], t)
  }

  lemma {:induction false} LastConcat<T>(a: seq<Mention<T>>, b: seq<Mention<T>>, t: T)
    ensures Last(a + b, t) == if Last(b, t).Some? then Last(b, t) else Last(a, t)
  {
    if b == [] {
      assert a + b == a;
    } else {
      var n := |b| - 1;
      assert (a + b)[..|a + b| - 1] == a + b[..n];
      LastConcat(a, b[..n], t);
    }
  }

  /** The last mention of a tag tells whether it is there; and a log that was never cut mentions all. */
  ghost predicate Sound<T(!new), X>(f: Feed<T, X>) {
    && (forall t :: Last(f.log, t).Some? ==> (Last(f.log, t).value <==> t in f.state))
    && (f.epoch == 0 ==> forall t :: t in f.state ==> Last(f.log, t).Some?)
  }

  /** The part of the log from a sequence number on. */
  function From<T, X>(f: Feed<T, X>, n: nat): seq<Mention<T>>
    requires f.epoch <= n <= Now(f)
  {
    f.log[n - f.epoch..]
  }

  lemma {:induction false} AppliedSound<T(!new), X>(f: Feed<T, X>, c: Change<T, X>)
    requires Sound(f)
    ensures Sound(Applied(f, c))
    ensures Now(f) <= Now(Applied(f, c)) && f.epoch <= Applied(f, c).epoch
  {
    var g := Applied(f, c);
    if c.Setting? || (c.Deletion? && c.tag in f.state) {
      forall t
        ensures Last(g.log, t) == if t == c.tag then Some(c.Setting?) else Last(f.log, t)
      {
        LastConcat(f.log, g.log[|f.log|..], t);
      }
    }
  }

  // ---- Clients

  /** Two maps agree on a tag. */
  ghost predicate Same<T, X>(m: map<T, X>, n: map<T, X>, t: T) {
    (t in m <==> t in n) && (t in m ==> m[t] == n[t])
  }

  /** A client that has taken in all changes up to its cursor; one that has fetched changes whose values
      it still has to read; one that collects pages of a snapshot begun at `start`; and one that has
      been told to start anew. */
  datatype Client<T, X> =
    | Following(cursor: nat, replica: map<T, X>)
    | Resolving(cursor: nat, replica: map<T, X>, batch: seq<Mention<T>>)
    | Paging(start: nat, after: Option<Key>, replica: map<T, X>)
    | Lost

  ghost predicate Past(after: Option<Key>, k: Key) {
    after.None? || after.value < k
  }

  /** What holds of every client at all times: it agrees with the server on every tag that the log does
      not mention from its cursor on. */
  ghost predicate Good<T(!new), X>(rank: (T, X) -> Key, f: Feed<T, X>, c: Client<T, X>) {
    match c
    case Following(n, r) =>
      n <= Now(f) && (f.epoch <= n ==> forall t :: Last(From(f, n), t).None? ==> Same(r, f.state, t))
    case Resolving(n, r, b) =>
      && n <= Now(f)
      && (f.epoch <= n ==>
            forall t :: Last(From(f, n), t).None? ==>
              if Last(b, t).Some? then (Last(b, t).value <==> t in f.state) else Same(r, f.state, t))
    case Paging(n, after, r) =>
      && n <= Now(f)
      && (f.epoch <= n ==>
            forall t :: Last(From(f, n), t).None? ==>
              Same(r, f.state, t) || (t in f.state && t !in r && Past(after, rank(t, f.state[t]))))
    case Lost => true
  }

  /** A change of the server: a client whose cursor is still in the log has seen the log grow at its end. */
  lemma {:induction false} FromApplied<T(!new), X>(f: Feed<T, X>, c: Change<T, X>, n: nat)
    requires n <= Now(f) && Applied(f, c).epoch <= n
    ensures f.epoch <= n && n <= Now(Applied(f, c))
    ensures forall t :: Last(From(Applied(f, c), n), t).None? ==> Last(From(f, n), t).None? && Same(Applied(f, c).state, f.state, t)
  {
    var g := Applied(f, c);
    if c.Setting? || (c.Deletion? && c.tag in f.state) {
      var m := Mention(c.tag, c.Setting?);
      assert From(g, n) == From(f, n) + [m];
      forall t
        ensures Last(From(g, n), t).None? ==> Last(From(f, n), t).None? && t != c.tag
      {
        LastConcat(From(f, n), [m], t);
        assert t == c.tag ==> Last([m], t).Some?;
      }
    } else if c.Compaction? {
      assert From(f, n) == [] == From(g, n);
    }
  }

  /** Whatever the server does, every client stays good. */
  lemma {:induction false} ServerMoves<T(!new), X>(rank: (T, X) -> Key, f: Feed<T, X>, c: Change<T, X>, client: Client<T, X>)
    requires Good(rank, f, client)
    ensures Good(rank, Applied(f, c), client)
  {
    var g := Applied(f, c);
    var n := if client.Paging? then client.start else if client.Lost? then 0 else client.cursor;
    assert Now(f) <= Now(g);
    if !client.Lost? && g.epoch <= n {
      FromApplied(f, c, n);
    }
  }

  // ---- Fetching changes

  /** The changes from `since` on, at most `limit` of them, and where to go on; none if they are gone. */
  function ChangesSince<T, X>(f: Feed<T, X>, since: nat, limit: nat): (r: Option<(seq<Mention<T>>, nat)>)
  {
    if since < f.epoch then None
    else
      var offset := since - f.epoch;
      if |f.log| <= offset then Some(([], Now(f)))
      else
        var end := if offset + limit < |f.log| then offset + limit else |f.log|;
        Some((f.log[offset..end], since + (end - offset)))
  }

  /** Takes in one change, with the value read from `state`. */
  function Taken<T(==), X>(r: map<T, X>, m: Mention<T>, state: map<T, X>): map<T, X> {
    if m.present && m.tag in state then r[m.tag := state[m.tag]] else r - {m.tag}
  }

  function AllTaken<T(==), X>(r: map<T, X>, batch: seq<Mention<T>>, state: map<T, X>): map<T, X> {
    if batch == [] then r else Taken(AllTaken(r, batch[..|batch| - 1], state), batch[|batch| - 1], state)
  }

  lemma {:induction false} TakenMeaning<T(!new), X>(r: map<T, X>, batch: seq<Mention<T>>, state: map<T, X>, t: T)
    ensures Last(batch, t).None? ==> Same(AllTaken(r, batch, state), r, t)
    ensures Last(batch, t).Some? && (Last(batch, t).value <==> t in state) ==> Same(AllTaken(r, batch, state), state, t)
  {
    if batch != [] {
      TakenMeaning(r, batch[..|batch| - 1], state, t);
    }
  }

  function Fetched<T, X>(f: Feed<T, X>, c: Client<T, X>, limit: nat): Client<T, X> {
    if !c.Following? then c
    else
      match ChangesSince(f, c.cursor, limit)
      case None => Lost
      case Some((batch, next)) => Resolving(next, c.replica, batch)
  }

  /** Reading the values of the changes fetched, whatever has happened since. */
  function Resolved<T(==), X>(f: Feed<T, X>, c: Client<T, X>): Client<T, X> {
    if c.Resolving? then Following(c.cursor, AllTaken(c.replica, c.batch, f.state)) else c
  }

  lemma {:induction false} ClientFetches<T(!new), X>(rank: (T, X) -> Key, f: Feed<T, X>, c: Client<T, X>, limit: nat)
    requires Sound(f) && Good(rank, f, c)
    ensures Good(rank, f, Fetched(f, c, limit))
    ensures c.Following? ==> (Fetched(f, c, limit).Lost? <==> c.cursor < f.epoch)
  {
    if c.Following? && f.epoch <= c.cursor {
      var d := Fetched(f, c, limit);
      var rest := From(f, d.cursor);
      assert From(f, c.cursor) == d.batch + rest;
      assert f.log == f.log[..c.cursor - f.epoch] + From(f, c.cursor);
      forall t | Last(rest, t).None?
        ensures if Last(d.batch, t).Some? then (Last(d.batch, t).value <==> t in f.state) else Same(d.replica, f.state, t)
      {
        LastConcat(d.batch, rest, t);
        LastConcat(f.log[..c.cursor - f.epoch], From(f, c.cursor), t);
      }
    }
  }

  lemma {:induction false} ClientResolves<T(!new), X>(rank: (T, X) -> Key, f: Feed<T, X>, c: Client<T, X>)
    requires Good(rank, f, c)
    ensures Good(rank, f, Resolved(f, c))
  {
    if c.Resolving? && f.epoch <= c.cursor {
      forall t | Last(From(f, c.cursor), t).None?
        ensures Same(AllTaken(c.replica, c.batch, f.state), f.state, t)
      {
        TakenMeaning(c.replica, c.batch, f.state, t);
      }
    }
  }

  /** A client that has caught up equals the server. */
  lemma {:induction false} CaughtUp<T(!new), X>(rank: (T, X) -> Key, f: Feed<T, X>, c: Client<T, X>)
    requires Good(rank, f, c) && c.Following? && f.epoch <= c.cursor && c.cursor == Now(f)
    ensures c.replica == f.state
  {
    assert From(f, c.cursor) == [];
    forall t
      ensures (t in c.replica <==> t in f.state) && (t in c.replica ==> c.replica[t] == f.state[t])
    {
      assert Last(From(f, c.cursor), t).None?;
      assert Same(c.replica, f.state, t);
    }
  }

  /** Each fetch brings a client closer, by as many changes as it asks for: it gets the changes from its cursor
      on, in the order of the log, all that are left or as many as it asked for, and moves on by just these. */
  lemma {:induction false} FetchProgress<T(!new), X>(f: Feed<T, X>, c: Client<T, X>, limit: nat)
    requires c.Following?
    ensures Fetched(f, c, limit).Lost? <==> c.cursor < f.epoch
    ensures var d := Fetched(f, c, limit);
            f.epoch <= c.cursor <= f.epoch + |f.log| ==>
              && d.Resolving? && d.replica == c.replica && d.cursor == c.cursor + |d.batch|
              && (var left := f.epoch + |f.log| - c.cursor; |d.batch| == if limit < left then limit else left)
              && forall j :: 0 <= j < |d.batch| ==> d.batch[j] == f.log[c.cursor - f.epoch + j]
    ensures f.epoch + |f.log| < c.cursor ==> Fetched(f, c, limit) == Resolving(f.epoch + |f.log|, c.replica, [])
  {
  }

  // ---- Paging through a snapshot

  ghost predicate RowsBeyond<T(!new), X>(rank: (T, X) -> Key, state: map<T, X>, after: Option<Key>, page: seq<(T, X)>) {
    forall i :: 0 <= i < |page| ==> page[i].0 in state && state[page[i].0] == page[i].1 && Past(after, rank(page[i].0, page[i].1))
  }

  ghost predicate InOrder<T, X>(rank: (T, X) -> Key, page: seq<(T, X)>) {
    forall i, j :: 0 <= i < j < |page| ==> rank(page[i].0, page[i].1) < rank(page[j].0, page[j].1)
  }

  /** What a page leaves out comes after it, and is left out because the page is full. */
  ghost predicate LeavesRest<T(!new), X>(rank: (T, X) -> Key, state: map<T, X>, after: Option<Key>, limit: nat, page: seq<(T, X)>) {
    forall t :: t in state && Past(after, rank(t, state[t])) && (t, state[t]) !in page ==>
      |page| == limit && (page != [] ==> rank(page[|page| - 1].0, page[|page| - 1].1) < rank(t, state[t]))
  }

  /** The first `limit` rows beyond `after`, in order. */
  ghost predicate IsPage<T(!new), X>(rank: (T, X) -> Key, state: map<T, X>, after: Option<Key>, limit: nat, page: seq<(T, X)>) {
    |page| <= limit && RowsBeyond(rank, state, after, page) && InOrder(rank, page) && LeavesRest(rank, state, after, limit, page)
  }

  function WithPage<T(==), X>(r: map<T, X>, page: seq<(T, X)>): map<T, X> {
    if page == [] then r else WithPage(r, page[..|page| - 1])[page[|page| - 1].0 := page[|page| - 1].1]
  }

  lemma {:induction false} WithPageMeaning<T(!new), X>(r: map<T, X>, page: seq<(T, X)>, state: map<T, X>, t: T)
    requires forall i :: 0 <= i < |page| ==> page[i].0 in state && state[page[i].0] == page[i].1
    ensures if t in state && (t, state[t]) in page then Same(WithPage(r, page), state, t) else Same(WithPage(r, page), r, t)
  {
    if page != [] {
      var n := |page| - 1;
      WithPageMeaning(r, page[..n], state, t);
      assert page == page[..n] + [page[n]];
    }
  }

  /** A client starts a snapshot, remembering the sequence number of the first page. */
  function Started<T, X>(f: Feed<T, X>): Client<T, X> {
    Paging(Now(f), None, map[])
  }

  /** A page arrives; one that is not full is the last, and the client follows from where it started. */
  function Paged<T(==), X>(rank: (T, X) -> Key, c: Client<T, X>, limit: nat, page: seq<(T, X)>): Client<T, X> {
    if !c.Paging? then c
    else if |page| < limit then Following(c.start, WithPage(c.replica, page))
    else if page == [] then c
    else Paging(c.start, Some(rank(page[|page| - 1].0, page[|page| - 1].1)), WithPage(c.replica, page))
  }

  lemma {:induction false} ClientStarts<T(!new), X>(rank: (T, X) -> Key, f: Feed<T, X>)
    ensures Good(rank, f, Started(f))
  {
  }

  lemma {:induction false} ClientPages<T(!new), X>(rank: (T, X) -> Key, f: Feed<T, X>, c: Client<T, X>, limit: nat, page: seq<(T, X)>)
    requires Good(rank, f, c) && c.Paging? && IsPage(rank, f.state, c.after, limit, page)
    ensures Good(rank, f, Paged(rank, c, limit, page))
  {
    var d := Paged(rank, c, limit, page);
    if f.epoch <= c.start {
      forall t | Last(From(f, c.start), t).None?
        ensures d.Following? ==> Same(d.replica, f.state, t)
        ensures d.Paging? ==> Same(d.replica, f.state, t) || (t in f.state && t !in d.replica && Past(d.after, rank(t, f.state[t])))
      {
        WithPageMeaning(c.replica, page, f.state, t);
        assert Same(c.replica, f.state, t) || (t in f.state && t !in c.replica && Past(c.after, rank(t, f.state[t])));
      }
    }
  }

  /** Pages collected without a change in between: two pages make one. */
  lemma {:induction false} PagesJoin<T(!new), X>(rank: (T, X) -> Key, state: map<T, X>, a: seq<(T, X)>, after: Option<Key>, limit: nat, b: seq<(T, X)>)
    requires IsPage(rank, state, None, |a|, a) && IsPage(rank, state, after, limit, b)
    requires after == if a == [] then None else Some(rank(a[|a| - 1].0, a[|a| - 1].1))
    ensures IsPage(rank, state, None, if |b| < limit then |a| + |b| + 1 else |a| + |b|, a + b)
  {
    hide LeavesRest, InOrder;
    JoinedOrder(rank, state, a, after, b);
    JoinedRest(rank, state, a, after, limit, b);
  }

  lemma {:induction false} JoinedOrder<T(!new), X>(rank: (T, X) -> Key, state: map<T, X>, a: seq<(T, X)>, after: Option<Key>, b: seq<(T, X)>)
    requires InOrder(rank, a) && InOrder(rank, b) && RowsBeyond(rank, state, after, b)
    requires after == if a == [] then None else Some(rank(a[|a| - 1].0, a[|a| - 1].1))
    ensures InOrder(rank, a + b)
  {
    var c := a + b;
    forall i, j | 0 <= i < j < |c|
      ensures rank(c[i].0, c[i].1) < rank(c[j].0, c[j].1)
    {
      if i < |a| <= j {
        assert c[i] == a[i] && c[j] == b[j - |a|];
        assert i < |a| - 1 ==> rank(a[i].0, a[i].1) < rank(a[|a| - 1].0, a[|a| - 1].1);
      } else {
        assert j < |a| ==> c[i] == a[i] && c[j] == a[j];
        assert |a| <= i ==> c[i] == b[i - |a|] && c[j] == b[j - |a|];
      }
    }
  }

  lemma {:induction false} JoinedRest<T(!new), X>(rank: (T, X) -> Key, state: map<T, X>, a: seq<(T, X)>, after: Option<Key>, limit: nat, b: seq<(T, X)>)
    requires LeavesRest(rank, state, None, |a|, a) && LeavesRest(rank, state, after, limit, b) && |b| <= limit
    requires after == if a == [] then None else Some(rank(a[|a| - 1].0, a[|a| - 1].1))
    ensures LeavesRest(rank, state, None, if |b| < limit then |a| + |b| + 1 else |a| + |b|, a + b)
  {
    var c := a + b;
    forall t | t in state && (t, state[t]) !in c
      ensures |b| == limit && (c != [] ==> rank(c[|c| - 1].0, c[|c| - 1].1) < rank(t, state[t]))
    {
      assert forall p :: p in a || p in b ==> p in c;
      assert (t, state[t]) !in a && (t, state[t]) !in b;
      assert c != [] ==> c[|c| - 1] == if b == [] then a[|a| - 1] else b[|b| - 1];
    }
  }

  lemma {:induction false} NoPage<T(!new), X>(rank: (T, X) -> Key, state: map<T, X>)
    ensures IsPage(rank, state, None, 0, [])
  {
  }

  /** A page has no row twice; one that is not full has all there are. */
  lemma {:induction false} PageSize<T(!new), X>(rank: (T, X) -> Key, state: map<T, X>, after: Option<Key>, limit: nat, page: seq<(T, X)>)
    requires IsPage(rank, state, after, limit, page)
    ensures |page| <= |state|
    ensures after.None? && |page| < limit ==> |page| == |state|
  {
    var tags := TagsOf(page);
    forall i, j | 0 <= i < j < |page|
      ensures page[i].0 != page[j].0
    {
      assert rank(page[i].0, page[i].1) < rank(page[j].0, page[j].1);
    }
    TagsDistinct(rank, page);
    forall t | t in tags
      ensures t in state.Keys
    {
      var i :| 0 <= i < |page| && page[i].0 == t;
    }
    SubsetSize(tags, state.Keys);
    if after.None? && |page| < limit {
      forall t | t in state
        ensures t in tags
      {
        assert (t, state[t]) in page;
      }
      assert tags == state.Keys;
    }
  }

  ghost function TagsOf<T, X>(page: seq<(T, X)>): set<T> {
    set i | 0 <= i < |page| :: page[i].0
  }

  lemma {:induction false} TagsDistinct<T, X>(rank: (T, X) -> Key, page: seq<(T, X)>)
    requires forall i, j :: 0 <= i < j < |page| ==> page[i].0 != page[j].0
    ensures |TagsOf(page)| == |page|
  {
    if page != [] {
      var n := |page| - 1;
      TagsDistinct(rank, page[..n]);
      assert TagsOf(page) == TagsOf(page[..n]) + {page[n].0};
      assert page[n].0 !in TagsOf(page[..n]);
    }
  }

  lemma {:induction false} SubsetSize<T>(a: set<T>, b: set<T>)
    requires a <= b
    ensures |a| <= |b|
  {
    if a != {} {
      var x :| x in a;
      SubsetSize(a - {x}, b - {x});
    }
  }

  // ---- Whole runs

  datatype Event<T, X> =
    | Write(change: Change<T, X>)
    | Join(client: nat)
    | Fetch(client: nat, limit: nat)
    | Resolve(client: nat)
    | Resync(client: nat)
    | Page(client: nat, limit: nat, page: seq<(T, X)>)

  datatype System<T, X> = System(feed: Feed<T, X>, clients: map<nat, Client<T, X>>)

  /** An event can happen: the client exists, and a page is what the server has. */
  ghost predicate Enabled<T(!new), X>(rank: (T, X) -> Key, s: System<T, X>, e: Event<T, X>) {
    match e
    case Write(_) => true
    case Join(_) => true
    case Fetch(i, _) => i in s.clients
    case Resolve(i) => i in s.clients
    case Resync(i) => i in s.clients
    case Page(i, limit, page) => i in s.clients && s.clients[i].Paging? && IsPage(rank, s.feed.state, s.clients[i].after, limit, page)
  }

  /** One event. A client that joins holds nothing and asks for everything since the beginning. */
  ghost function Stepped<T(!new), X>(rank: (T, X) -> Key, s: System<T, X>, e: Event<T, X>): System<T, X>
    requires Enabled(rank, s, e)
  {
    match e
    case Write(c) => System(Applied(s.feed, c), s.clients)
    case Join(i) => System(s.feed, s.clients[i := Following(0, map[])])
    case Fetch(i, limit) => System(s.feed, s.clients[i := Fetched(s.feed, s.clients[i], limit)])
    case Resolve(i) => System(s.feed, s.clients[i := Resolved(s.feed, s.clients[i])])
    case Resync(i) => System(s.feed, s.clients[i := Started(s.feed)])
    case Page(i, limit, page) => System(s.feed, s.clients[i := Paged(rank, s.clients[i], limit, page)])
  }

  ghost predicate Runs<T(!new), X>(rank: (T, X) -> Key, s: System<T, X>, es: seq<Event<T, X>>, s': System<T, X>)
    decreases |es|
  {
    if es == [] then s' == s
    else Enabled(rank, s, es[0]) && Runs(rank, Stepped(rank, s, es[0]), es[1..], s')
  }

  ghost predicate AllGood<T(!new), X>(rank: (T, X) -> Key, s: System<T, X>) {
    Sound(s.feed) && forall i :: i in s.clients ==> Good(rank, s.feed, s.clients[i])
  }

  lemma {:induction false} StepKeeps<T(!new), X>(rank: (T, X) -> Key, s: System<T, X>, e: Event<T, X>)
    requires AllGood(rank, s) && Enabled(rank, s, e)
    ensures AllGood(rank, Stepped(rank, s, e))
  {
    hide Good, Applied, Sound, IsPage;
    var s' := Stepped(rank, s, e);
    match e
    case Write(c) =>
      AppliedSound(s.feed, c);
      forall i | i in s'.clients
        ensures Good(rank, s'.feed, s'.clients[i])
      {
        ServerMoves(rank, s.feed, c, s.clients[i]);
      }
    case Join(i) => Joined(rank, s.feed);
    case Fetch(i, limit) => ClientFetches(rank, s.feed, s.clients[i], limit);
    case Resolve(i) => ClientResolves(rank, s.feed, s.clients[i]);
    case Resync(i) => ClientStarts(rank, s.feed);
    case Page(i, limit, page) => ClientPages(rank, s.feed, s.clients[i], limit, page);
  }

  lemma {:induction false} Joined<T(!new), X>(rank: (T, X) -> Key, f: Feed<T, X>)
    requires Sound(f)
    ensures Good(rank, f, Following(0, map[]))
  {
    hide Last, Sound, From;
    if f.epoch == 0 {
      WholeLog(f);
      forall t: T
        ensures Last(f.log, t).None? ==> Same(map[], f.state, t)
      {
        if Last(f.log, t).None? {
          Unmentioned(f, t);
        }
      }
    }
  }

  lemma {:induction false} WholeLog<T(!new), X>(f: Feed<T, X>)
    requires f.epoch == 0
    ensures From(f, 0) == f.log
  {
  }

  lemma {:induction false} Unmentioned<T(!new), X>(f: Feed<T, X>, t: T)
    requires Sound(f) && f.epoch == 0 && Last(f.log, t).None?
    ensures t !in f.state
  {
  }

  /** In every run, whatever the server and the clients do and in whatever order, every client agrees
      with the server on all that the log does not mention from its cursor on. */
  lemma {:induction false} RunKeeps<T(!new), X>(rank: (T, X) -> Key, s: System<T, X>, es: seq<Event<T, X>>, s': System<T, X>)
    requires AllGood(rank, s) && Runs(rank, s, es, s')
    ensures AllGood(rank, s')
    decreases |es|
  {
    if es != [] {
      StepKeeps(rank, s, es[0]);
      RunKeeps(rank, Stepped(rank, s, es[0]), es[1..], s');
    }
  }

  /** From an empty server, any run at all leaves a client that has caught up equal to the server; and a
      client is turned away exactly if its cursor lies before what the log still holds. */
  lemma {:induction false} Convergence<T(!new), X>(rank: (T, X) -> Key, es: seq<Event<T, X>>, s: System<T, X>, i: nat, limit: nat)
    requires Runs(rank, System(Feed(map[], [], 0), map[]), es, s) && i in s.clients && s.clients[i].Following?
    ensures s.clients[i].cursor <= Now(s.feed)
    ensures Fetched(s.feed, s.clients[i], limit).Lost? <==> s.clients[i].cursor < s.feed.epoch
    ensures s.clients[i].cursor == Now(s.feed) && s.feed.epoch <= s.clients[i].cursor ==> s.clients[i].replica == s.feed.state
    ensures s.feed.epoch <= s.clients[i].cursor && Now(s.feed) <= s.clients[i].cursor + limit ==>
              Resolved(s.feed, Fetched(s.feed, s.clients[i], limit)) == Following(Now(s.feed), s.feed.state)
  {
    RunKeeps(rank, System(Feed(map[], [], 0), map[]), es, s);
    var f, c := s.feed, s.clients[i];
    ClientFetches(rank, f, c, limit);
    if f.epoch <= c.cursor {
      if c.cursor == Now(f) {
        CaughtUp(rank, f, c);
      }
      if Now(f) <= c.cursor + limit {
        var d := Fetched(f, c, limit);
        ClientResolves(rank, f, d);
        CaughtUp(rank, f, Resolved(f, d));
      }
    }
  }

  // ---- Sequence numbers

  function AllApplied<T(==), X>(f: Feed<T, X>, cs: seq<Change<T, X>>): Feed<T, X>
    decreases |cs|
  {
    if cs == [] then f else AllApplied(Applied(f, cs[0]), cs[1..])
  }

  /** A sequence number never comes to name another entry: as long as the log reaches back to it, it
      names the entry it named; and once the log does not, it never will again. */
  lemma {:induction false} NumbersStable<T(!new), X>(f: Feed<T, X>, cs: seq<Change<T, X>>, n: nat)
    ensures var g := AllApplied(f, cs);
            && f.epoch <= g.epoch && Now(f) <= Now(g)
            && (f.epoch <= n < Now(f) && g.epoch <= n ==> g.log[n - g.epoch] == f.log[n - f.epoch])
            && (n < f.epoch ==> n < g.epoch)
    decreases |cs|
  {
    if cs != [] {
      NumbersStable(Applied(f, cs[0]), cs[1..], n);
    }
  }
}
