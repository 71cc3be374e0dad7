/** The state of a replicated map as values: a key index, a value store, a changelog and counters. */
module Replog {
  import opened Types
  import opened ChangeFeed

  datatype ChangeKind = Upsert | Removal

  datatype ChangeEntry = ChangeEntry(kind: ChangeKind, id: nat, key: Key)

  datatype Server = Server(index: map<Key, nat>, values: map<nat, Value>, log: seq<ChangeEntry>, nextId: nat, epoch: nat)

  const EMPTY := Server(map[], map[], [], 0, 0)

  function IdFor(s: Server, k: Key): nat {
    if k in s.index then s.index[k] else s.nextId
  }

  function Inserted(s: Server, k: Key, v: Value): Server {
    var id := IdFor(s, k);
    Server(s.index[k := id], s.values[id := v], s.log + [ChangeEntry(Upsert, id, k)],
           if k in s.index then s.nextId else s.nextId + 1, s.epoch)
  }

  function Dropped(s: Server, k: Key): Server {
    if k !in s.index then s
    else
      var id := s.index[k];
      Server(s.index - {k}, s.values - {id}, s.log + [ChangeEntry(Removal, id, k)], s.nextId, s.epoch)
  }

  function Cleared(s: Server): Server {
    Server(map[], map[], [], s.nextId, s.epoch + |s.log| + 1)
  }

  function Compacted(s: Server): Server {
    Server(s.index, s.values, [], s.nextId, s.epoch + |s.log|)
  }

  /** The key index is one to one onto the ids of the value store. */
  ghost predicate Indexed(s: Server) {
    && (forall k :: k in s.index ==> s.index[k] in s.values && s.index[k] < s.nextId)
    && (forall j, k :: j in s.index && k in s.index && s.index[j] == s.index[k] ==> j == k)
    && (forall i :: i in s.values ==> HasKey(s, i))
  }

  ghost predicate HasKey(s: Server, i: nat) {
    exists k :: k in s.index && s.index[k] == i
  }

  /** An id in the log has been given out, to one key. */
  ghost predicate Logged(s: Server) {
    && (forall n :: 0 <= n < |s.log| ==> s.log[n].id < s.nextId)
    && (forall m, n :: 0 <= m < |s.log| && 0 <= n < |s.log| && s.log[m].id == s.log[n].id ==> s.log[m].key == s.log[n].key)
    && (forall k, n :: k in s.index && 0 <= n < |s.log| && s.index[k] == s.log[n].id ==> k == s.log[n].key)
  }

  ghost predicate Consistent(s: Server) {
    Indexed(s) && Logged(s)
  }

  // ---- Two ways to follow the map: by key and by entry id

  datatype Row = Row(key: Key, value: Value)

  ghost function Contents(s: Server): map<Key, Value> {
    map k | k in s.index && s.index[k] in s.values :: s.values[s.index[k]]
  }

  ghost function KeyOf(s: Server, i: nat): Key
    requires Consistent(s) && i in s.values
    ensures KeyOf(s, i) in s.index && s.index[KeyOf(s, i)] == i
  {
    assert HasKey(s, i);
    var k :| k in s.index && s.index[k] == i;
    k
  }

  ghost function Rows(s: Server): map<nat, Row>
    requires Consistent(s)
  {
    map i | i in s.values :: Row(KeyOf(s, i), s.values[i])
  }

  function ByKey(log: seq<ChangeEntry>): seq<Mention<Key>> {
    seq(|log|, n requires 0 <= n < |log| => Mention(log[n].key, log[n].kind.Upsert?))
  }

  function ById(log: seq<ChangeEntry>): seq<Mention<nat>> {
    seq(|log|, n requires 0 <= n < |log| => Mention(log[n].id, log[n].kind.Upsert?))
  }

  ghost function KeyFeed(s: Server): Feed<Key, Value> {
    Feed(Contents(s), ByKey(s.log), s.epoch)
  }

  ghost function RowFeed(s: Server): Feed<nat, Row>
    requires Consistent(s)
  {
    Feed(Rows(s), ById(s.log), s.epoch)
  }

  // ---- Every call is one change of either feed

  datatype Call = Insert(key: Key, value: Value) | Remove(key: Key) | ClearAll | CompactLog

  function Done(s: Server, c: Call): Server {
    match c
    case Insert(k, v) => Inserted(s, k, v)
    case Remove(k) => Dropped(s, k)
    case ClearAll => Cleared(s)
    case CompactLog => Compacted(s)
  }

  function KeyChange(c: Call): Change<Key, Value> {
    match c
    case Insert(k, v) => Setting(k, v)
    case Remove(k) => Deletion(k)
    case ClearAll => Clearing
    case CompactLog => Compaction
  }

  function RowChange(s: Server, c: Call): Change<nat, Row> {
    match c
    case Insert(k, v) => Setting(IdFor(s, k), Row(k, v))
    case Remove(k) => Deletion(IdFor(s, k))
    case ClearAll => Clearing
    case CompactLog => Compaction
  }

  lemma {:induction false} CallKeeps(s: Server, c: Call)
    requires Consistent(s)
    ensures Consistent(Done(s, c))
  {
    hide Indexed, Logged;
    match c
    case Insert(k, v) => InsertIndexed(s, k, v); InsertLogged(s, k, v);
    case Remove(k) => DropKeeps(s, k);
    case ClearAll => CutKeeps(s);
    case CompactLog => CutKeeps(s);
  }

  /** The id an insertion uses is that of its key, or of none. */
  lemma {:induction false} OwnId(s: Server, k: Key, j: Key)
    requires Indexed(s) && j in s.index && j != k
    ensures s.index[j] != IdFor(s, k)
  {
  }

  lemma {:induction false} InsertIndexed(s: Server, k: Key, v: Value)
    requires Indexed(s)
    ensures Indexed(Inserted(s, k, v))
  {
    hide HasKey;
    var s', id := Inserted(s, k, v), IdFor(s, k);
    forall j | j in s'.index && j != k
      ensures s'.index[j] != id
    {
      OwnId(s, k, j);
    }
    forall i | i in s'.values
      ensures HasKey(s', i)
    {
      StillHas(s, s', i, k);
    }
  }

  lemma {:induction false} StillHas(s: Server, s': Server, i: nat, k: Key)
    requires (k in s'.index && s'.index[k] == i) || (HasKey(s, i) && forall j :: j in s.index && s.index[j] == i ==> j in s'.index && s'.index[j] == i)
    ensures HasKey(s', i)
  {
  }

  lemma {:induction false} InsertLogged(s: Server, k: Key, v: Value)
    requires Consistent(s)
    ensures Logged(Inserted(s, k, v))
  {
    hide HasKey;
    var s', id := Inserted(s, k, v), IdFor(s, k);
    forall n | 0 <= n < |s'.log| && s'.log[n].id == id
      ensures s'.log[n].key == k
    {
    }
    forall j | j in s'.index && j != k
      ensures s'.index[j] != id
    {
      OwnId(s, k, j);
    }
  }

  lemma {:induction false} DropKeeps(s: Server, k: Key)
    requires Consistent(s)
    ensures Consistent(Dropped(s, k))
  {
    hide HasKey;
    if k in s.index {
      var s' := Dropped(s, k);
      forall i | i in s'.values
        ensures HasKey(s', i)
      {
        StillHas(s, s', i, k);
      }
    }
  }

  lemma {:induction false} CutKeeps(s: Server)
    requires Consistent(s)
    ensures Consistent(Cleared(s)) && Consistent(Compacted(s))
  {
    forall i | i in s.values
      ensures HasKey(Compacted(s), i)
    {
      assert HasKey(s, i);
    }
  }

  lemma {:induction false} CallByKey(s: Server, c: Call)
    requires Consistent(s)
    ensures KeyFeed(Done(s, c)) == Applied(KeyFeed(s), KeyChange(c))
  {
    hide HasKey, Logged, Indexed, Contents;
    LogAfter(s, c);
    ContentsAfter(s, c);
  }

  lemma {:induction false} LogAfter(s: Server, c: Call)
    requires Indexed(s)
    ensures var f := Applied(KeyFeed(s), KeyChange(c)); ByKey(Done(s, c).log) == f.log && Done(s, c).epoch == f.epoch
  {
    hide HasKey;
    var s', f := Done(s, c), Applied(KeyFeed(s), KeyChange(c));
    assert ByKey(s'.log) == f.log;
  }

  lemma {:induction false} InsertContents(s: Server, k: Key, v: Value)
    requires Indexed(s)
    ensures Contents(Inserted(s, k, v)) == Contents(s)[k := v]
  {
    var s', m, n := Inserted(s, k, v), Contents(Inserted(s, k, v)), Contents(s)[k := v];
    hide HasKey, Inserted, Indexed;
    forall j
      ensures (j in m <==> j in n) && (j in m ==> m[j] == n[j])
    {
      InsertAt(s, k, v, j);
    }
  }

  lemma {:induction false} InsertAt(s: Server, k: Key, v: Value, j: Key)
    requires Indexed(s)
    ensures Same(Contents(Inserted(s, k, v)), Contents(s)[k := v], j)
  {
    if j in s.index && j != k {
      OwnId(s, k, j);
    }
  }

  lemma {:induction false} ContentsAfter(s: Server, c: Call)
    requires Indexed(s)
    ensures Contents(Done(s, c)) == Applied(KeyFeed(s), KeyChange(c)).state
  {
    hide HasKey;
    var s' := Done(s, c);
    if c.Insert? {
      InsertContents(s, c.key, c.value);
    } else if c.Remove? && c.key in s.index {
      assert forall j :: j in s'.index ==> s'.index[j] in s'.values && s'.values[s'.index[j]] == s.values[s.index[j]];
      assert Contents(s') == Contents(s) - {c.key};
    } else {
      assert Contents(s') == if c.ClearAll? then map[] else Contents(s);
    }
  }

  /** What a call does to the map, to its log and to its numbers, in plain terms. Clearing skips a number, so that no
      number given out before is accepted again; compaction does not. An id once given out is not given out again. */
  lemma {:induction false} CallMeans(s: Server, c: Call)
    requires Consistent(s)
    ensures var s' := Done(s, c);
            match c
            case Insert(k, v) =>
              && Contents(s') == Contents(s)[k := v] && k in s'.index && s'.epoch == s.epoch
              && s'.log == s.log + [ChangeEntry(Upsert, s'.index[k], k)]
              && (if k in s.index then s'.index[k] == s.index[k] && s'.nextId == s.nextId else s'.index[k] == s.nextId && s'.nextId == s.nextId + 1)
            case Remove(k) =>
              && Contents(s') == Contents(s) - {k} && s'.epoch == s.epoch && s'.nextId == s.nextId
              && s'.log == if k in s.index then s.log + [ChangeEntry(Removal, s.index[k], k)] else s.log
            case ClearAll => Contents(s') == map[] && s'.log == [] && s'.epoch == s.epoch + |s.log| + 1 && s'.nextId == s.nextId
            case CompactLog => Contents(s') == Contents(s) && s'.log == [] && s'.epoch == s.epoch + |s.log| && s'.nextId == s.nextId
  {
    hide HasKey, Contents;
    ContentsAfter(s, c);
    if c.Remove? && c.key !in s.index {
      NotThere(s, c.key);
    }
  }

  lemma {:induction false} NotThere(s: Server, k: Key)
    requires k !in s.index
    ensures Contents(s) - {k} == Contents(s)
  {
  }

  lemma {:induction false} CallById(s: Server, c: Call)
    requires Consistent(s)
    ensures Consistent(Done(s, c)) && RowFeed(Done(s, c)) == Applied(RowFeed(s), RowChange(s, c))
  {
    CallKeeps(s, c);
    var s', f := Done(s, c), Applied(RowFeed(s), RowChange(s, c));
    assert ById(s'.log) == f.log;
    RowsAfter(s, c);
  }

  /** An id has one key. */
  lemma {:induction false} TheKey(s: Server, i: nat, k: Key)
    requires Consistent(s) && k in s.index && s.index[k] == i
    ensures i in s.values && KeyOf(s, i) == k
  {
  }

  lemma {:induction false} RowsAfter(s: Server, c: Call)
    requires Consistent(s) && Consistent(Done(s, c))
    ensures Rows(Done(s, c)) == Applied(RowFeed(s), RowChange(s, c)).state
  {
    hide HasKey, Logged, Indexed;
    var s', r := Done(s, c), Applied(RowFeed(s), RowChange(s, c)).state;
    NewId(s);
    forall i | i in s'.values
      ensures i in r && Row(KeyOf(s', i), s'.values[i]) == r[i]
    {
      if c.Insert? && i == IdFor(s, c.key) {
        TheKey(s', i, c.key);
      } else {
        TheKey(s', i, KeyOf(s, i));
      }
    }
    assert s'.values.Keys == r.Keys;
  }

  lemma {:induction false} NewId(s: Server)
    requires Consistent(s)
    ensures s.nextId !in s.values && forall k :: k in s.index ==> s.index[k] in s.values
    ensures forall k, i :: k in s.index && i in s.values && i != s.index[k] ==> KeyOf(s, i) != k
  {
    assert forall i :: i in s.values ==> HasKey(s, i);
  }

  // ---- Runs of the server

  function AllDone(s: Server, cs: seq<Call>): Server
    decreases |cs|
  {
    if cs == [] then s else AllDone(Done(s, cs[0]), cs[1..])
  }

  function KeyChanges(cs: seq<Call>): seq<Change<Key, Value>> {
    seq(|cs|, n requires 0 <= n < |cs| => KeyChange(cs[n]))
  }

  /** A run of calls is a run of changes of the map, seen by key. */
  lemma {:induction false} RunByKey(s: Server, cs: seq<Call>)
    requires Consistent(s)
    ensures Consistent(AllDone(s, cs))
    ensures KeyFeed(AllDone(s, cs)) == AllApplied(KeyFeed(s), KeyChanges(cs))
    decreases |cs|
  {
    if cs != [] {
      CallKeeps(s, cs[0]);
      CallByKey(s, cs[0]);
      RunByKey(Done(s, cs[0]), cs[1..]);
      assert KeyChanges(cs)[1..] == KeyChanges(cs[1..]);
    }
  }

  /** An id that has been given out belongs to key `k` and to no other. */
  ghost predicate Belongs(s: Server, i: nat, k: Key) {
    && i < s.nextId
    && (forall j :: j in s.index && s.index[j] == i ==> j == k)
    && (forall n :: 0 <= n < |s.log| && s.log[n].id == i ==> s.log[n].key == k)
  }

  lemma {:induction false} BelongsForEver(s: Server, cs: seq<Call>, i: nat, k: Key)
    requires Belongs(s, i, k)
    ensures Belongs(AllDone(s, cs), i, k)
    decreases |cs|
  {
    if cs != [] {
      BelongsForEver(Done(s, cs[0]), cs[1..], i, k);
    }
  }

  /** A logged id names one key for ever, through updates, removals, clears and compactions. */
  lemma {:induction false} IdNamesOneKey(s: Server, cs: seq<Call>, m: nat, n: nat)
    requires Consistent(s) && m < |s.log| && n < |AllDone(s, cs).log| && s.log[m].id == AllDone(s, cs).log[n].id
    ensures s.log[m].key == AllDone(s, cs).log[n].key
  {
    BelongsForEver(s, cs, s.log[m].id, s.log[m].key);
  }

  /** A sequence number names one entry as long as the log reaches back to it. */
  lemma {:induction false} NumberNamesOneEntry(s: Server, cs: seq<Call>, n: nat)
    requires s.epoch <= n < s.epoch + |s.log|
    ensures var t := AllDone(s, cs);
            && s.epoch <= t.epoch && n < t.epoch + |t.log|
            && (t.epoch <= n ==> t.log[n - t.epoch] == s.log[n - s.epoch])
    decreases |cs|
  {
    if cs != [] {
      var u := Done(s, cs[0]);
      if u.epoch <= n {
        NumberNamesOneEntry(u, cs[1..], n);
      } else {
        EpochGrows(u, cs[1..]);
      }
    }
  }

  lemma {:induction false} EpochGrows(s: Server, cs: seq<Call>)
    ensures s.epoch <= AllDone(s, cs).epoch && s.epoch + |s.log| <= AllDone(s, cs).epoch + |AllDone(s, cs).log|
    decreases |cs|
  {
    if cs != [] {
      EpochGrows(Done(s, cs[0]), cs[1..]);
    }
  }
}
