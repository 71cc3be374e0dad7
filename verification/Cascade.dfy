/** Vote cascading: neurons follow other neurons, by topic; one vote may move many. */
module Cascade {
  import opened Types

  type Neuron = nat
  type Topic = nat

  datatype Vote = Unspecified | Yes | No

  /** Whom each neuron follows on each topic, in order. */
  type Graph = map<(Neuron, Topic), seq<Neuron>>

  function FolloweesOf(g: Graph, n: Neuron, t: Topic): seq<Neuron> {
    if (n, t) in g then g[(n, t)] else []
  }

  /** The exact inverse. */
  function FollowersOf(g: Graph, e: Neuron, t: Topic): (s: set<Neuron>)
    ensures forall n :: n in s <==> e in FolloweesOf(g, n, t)
  {
    set k | k in g.Keys && k.1 == t && e in g[k] :: k.0
  }

  // ---- Deciding by followees

  /** The vote that counts for a neuron: its earlier one if it had one, or its new one. */
  function VoteOf(existing: map<Neuron, Vote>, new_: map<Neuron, Vote>, n: Neuron): Vote {
    if n in existing && existing[n] != Unspecified then existing[n]
    else if n in new_ then new_[n] else Unspecified
  }

  function Count(existing: map<Neuron, Vote>, new_: map<Neuron, Vote>, es: seq<Neuron>, v: Vote): (c: nat)
    ensures c <= |es|
  {
    if es == [] then 0
    else Count(existing, new_, es[..|es| - 1], v) + if VoteOf(existing, new_, es[|es| - 1]) == v then 1 else 0
  }

  /** More than half decide for yes, half or more for no. */
  function Decision(yes: nat, no: nat, n: nat): Vote {
    if n == 0 then Unspecified else if n < 2 * yes then Yes else if n <= 2 * no then No else Unspecified
  }

  /** The followees that count: those for the topic, or the general ones if there are none. */
  function Relevant(g: Graph, n: Neuron, t: Topic): seq<Neuron> {
    if FolloweesOf(g, n, t) == [] then FolloweesOf(g, n, 0) else FolloweesOf(g, n, t)
  }

  function Would(g: Graph, existing: map<Neuron, Vote>, new_: map<Neuron, Vote>, n: Neuron, t: Topic): Vote {
    var es := Relevant(g, n, t);
    Decision(Count(existing, new_, es, Yes), Count(existing, new_, es, No), |es|)
  }

  lemma {:induction false} CountsFit(existing: map<Neuron, Vote>, new_: map<Neuron, Vote>, es: seq<Neuron>)
    ensures Count(existing, new_, es, Yes) + Count(existing, new_, es, No) <= |es|
  {
    if es != [] {
      CountsFit(existing, new_, es[..|es| - 1]);
    }
  }

  lemma {:induction false} CountPrefix(existing: map<Neuron, Vote>, new_: map<Neuron, Vote>, es: seq<Neuron>, i: nat, v: Vote)
    requires i <= |es|
    ensures Count(existing, new_, es[..i], v) <= Count(existing, new_, es, v)
    decreases |es|
  {
    if i < |es| {
      CountPrefix(existing, new_, es[..|es| - 1], i, v);
      assert es[..|es| - 1][..i] == es[..i];
    } else {
      assert es[..i] == es;
    }
  }

  lemma {:induction false} CountStep(existing: map<Neuron, Vote>, new_: map<Neuron, Vote>, es: seq<Neuron>, i: nat, v: Vote)
    requires i < |es|
    ensures Count(existing, new_, es[..i + 1], v) == Count(existing, new_, es[..i], v) + if VoteOf(existing, new_, es[i]) == v then 1 else 0
    ensures Count(existing, new_, es[..i + 1], v) <= Count(existing, new_, es, v)
  {
    assert es[..i + 1][..i] == es[..i];
    CountPrefix(existing, new_, es, i + 1, v);
  }

  lemma {:induction false} CountNone(existing: map<Neuron, Vote>, new_: map<Neuron, Vote>, v: Vote)
    ensures Count(existing, new_, [], v) == 0
  {
  }

  /** The neuron has cast the vote: before, or, if it had not voted, now. */
  predicate Cast(existing: map<Neuron, Vote>, new_: map<Neuron, Vote>, e: Neuron, v: Vote) {
    if e in existing && existing[e] != Unspecified then existing[e] == v else e in new_ && new_[e] == v
  }

  /** The places in the list whose neuron has cast the vote. */
  ghost function Places(existing: map<Neuron, Vote>, new_: map<Neuron, Vote>, es: seq<Neuron>, v: Vote): set<nat> {
    set i | 0 <= i < |es| && Cast(existing, new_, es[i], v)
  }

  lemma {:induction false} PlacesStep(existing: map<Neuron, Vote>, new_: map<Neuron, Vote>, es: seq<Neuron>, n: nat, v: Vote)
    requires |es| == n + 1
    ensures var before := |Places(existing, new_, es[..n], v)|;
            |Places(existing, new_, es, v)| == if Cast(existing, new_, es[n], v) then before + 1 else before
  {
    hide Cast;
    var before := Places(existing, new_, es[..n], v);
    assert Places(existing, new_, es, v) == if Cast(existing, new_, es[n], v) then before + {n} else before;
  }

  /** The count is the number of those places. */
  lemma {:induction false} CountsPlaces(existing: map<Neuron, Vote>, new_: map<Neuron, Vote>, es: seq<Neuron>, v: Vote)
    requires v != Unspecified
    ensures Count(existing, new_, es, v) == |Places(existing, new_, es, v)|
  {
    if es == [] {
      assert Places(existing, new_, es, v) == {};
    } else {
      var n := |es| - 1;
      CountsPlaces(existing, new_, es[..n], v);
      PlacesStep(existing, new_, es, n, v);
    }
  }

  /** What the relevant followees say: yes if it is more than half of them, otherwise no if it is half or more. */
  ghost predicate Says(g: Graph, existing: map<Neuron, Vote>, new_: map<Neuron, Vote>, n: Neuron, t: Topic, v: Vote) {
    var es := if FolloweesOf(g, n, t) != [] then FolloweesOf(g, n, t) else FolloweesOf(g, n, 0);
    var yes, no := |Places(existing, new_, es, Yes)|, |Places(existing, new_, es, No)|;
    && (v == Yes <==> |es| < 2 * yes)
    && (v == No <==> es != [] && 2 * yes <= |es| <= 2 * no)
  }

  /** That is what the counts decide. */
  lemma {:induction false} WouldMeans(g: Graph, existing: map<Neuron, Vote>, new_: map<Neuron, Vote>, n: Neuron, t: Topic)
    ensures Says(g, existing, new_, n, t, Would(g, existing, new_, n, t))
  {
    hide Count, Places, FolloweesOf;
    CountsPlaces(existing, new_, Relevant(g, n, t), Yes);
    CountsPlaces(existing, new_, Relevant(g, n, t), No);
  }

  /** They say one thing, for every neuron. */
  lemma {:induction false} SaysWould(g: Graph, existing: map<Neuron, Vote>, new_: map<Neuron, Vote>, t: Topic)
    ensures forall n, v :: Says(g, existing, new_, n, t, v) <==> Would(g, existing, new_, n, t) == v
  {
    hide Would, Places, FolloweesOf;
    forall n, v
      ensures Says(g, existing, new_, n, t, v) <==> Would(g, existing, new_, n, t) == v
    {
      WouldMeans(g, existing, new_, n, t);
    }
  }

  /** Stops as soon as one side has won, with the result of the full count. */
  method WouldFollow(g: Graph, existing: map<Neuron, Vote>, new_: map<Neuron, Vote>, n: Neuron, t: Topic) returns (v: Vote)
    requires forall k :: k in new_ ==> new_[k] != Unspecified
    ensures v == Would(g, existing, new_, n, t)
    ensures Says(g, existing, new_, n, t, v)
  {
    hide Count, FolloweesOf, Says;
    WouldMeans(g, existing, new_, n, t);
    var specific := FolloweesOf(g, n, t);
    var es := if specific == [] then FolloweesOf(g, n, 0) else specific;
    if es == [] {
      return Unspecified;
    }
    CountsFit(existing, new_, es);
    CountNone(existing, new_, Yes);
    CountNone(existing, new_, No);
    assert es[..0] == [];
    var yes, no := 0, 0;
    for i := 0 to |es|
      invariant yes == Count(existing, new_, es[..i], Yes) && no == Count(existing, new_, es[..i], No)
      invariant 2 * yes <= |es| && 2 * no < |es|
    {
      var e := es[i];
      if e in existing && existing[e] != Unspecified {
        if existing[e] == Yes { yes := yes + 1; } else { no := no + 1; }
      } else if e in new_ {
        if new_[e] == Yes { yes := yes + 1; } else { no := no + 1; }
      }
      CountStep(existing, new_, es, i, Yes);
      CountStep(existing, new_, es, i, No);
      if |es| < 2 * yes {
        return Yes;
      }
      if |es| <= 2 * no {
        return No;
      }
    }
    assert es[..|es|] == es;
    v := Unspecified;
  }

  // ---- More votes never unsettle a decision

  ghost predicate Extends(a: map<Neuron, Vote>, b: map<Neuron, Vote>) {
    (forall n :: n in a ==> n in b && b[n] == a[n]) && forall n :: n in b ==> b[n] != Unspecified
  }

  lemma {:induction false} CountGrows(existing: map<Neuron, Vote>, a: map<Neuron, Vote>, b: map<Neuron, Vote>, es: seq<Neuron>, v: Vote)
    requires Extends(a, b) && v != Unspecified
    ensures Count(existing, a, es, v) <= Count(existing, b, es, v)
  {
    if es != [] {
      CountGrows(existing, a, b, es[..|es| - 1], v);
    }
  }

  lemma {:induction false} Settled(g: Graph, existing: map<Neuron, Vote>, a: map<Neuron, Vote>, b: map<Neuron, Vote>, n: Neuron, t: Topic)
    requires Extends(a, b) && Would(g, existing, a, n, t) != Unspecified
    ensures Would(g, existing, b, n, t) == Would(g, existing, a, n, t)
  {
    var es := Relevant(g, n, t);
    CountGrows(existing, a, b, es, Yes);
    CountGrows(existing, a, b, es, No);
    CountsFit(existing, b, es);
  }

  /** Only votes of followees matter. */
  lemma {:induction false} CountLocal(existing: map<Neuron, Vote>, a: map<Neuron, Vote>, b: map<Neuron, Vote>, es: seq<Neuron>, v: Vote)
    requires Extends(a, b) && forall e :: e in es && e in b ==> e in a
    ensures Count(existing, a, es, v) == Count(existing, b, es, v)
  {
    if es != [] {
      var n := |es| - 1;
      assert forall e :: e in es[..n] ==> e in es;
      CountLocal(existing, a, b, es[..n], v);
      assert es[n] in es;
    }
  }

  lemma {:induction false} Unmoved(g: Graph, existing: map<Neuron, Vote>, a: map<Neuron, Vote>, b: map<Neuron, Vote>, n: Neuron, t: Topic)
    requires Extends(a, b) && forall e :: e in Relevant(g, n, t) && e in b ==> e in a
    ensures Would(g, existing, b, n, t) == Would(g, existing, a, n, t)
  {
    CountLocal(existing, a, b, Relevant(g, n, t), Yes);
    CountLocal(existing, a, b, Relevant(g, n, t), No);
  }

  // ---- The cascade

  predicate Undecided(existing: map<Neuron, Vote>, new_: map<Neuron, Vote>, n: Neuron) {
    n !in new_ && n in existing && existing[n] == Unspecified
  }

  predicate Follows(g: Graph, n: Neuron, e: Neuron, t: Topic) {
    e in FolloweesOf(g, n, t) || e in FolloweesOf(g, n, 0)
  }

  ghost predicate Led(g: Graph, votes: map<Neuron, Vote>, n: Neuron, t: Topic) {
    exists e :: e in votes && Follows(g, n, e, t)
  }

  /** Every vote but the first was open before, follows a vote in the result, and is what its followees say. */
  ghost predicate Justified(g: Graph, existing: map<Neuron, Vote>, votes: map<Neuron, Vote>, voter: Neuron, t: Topic) {
    forall n :: n in votes && n != voter ==>
      && n in existing && existing[n] == Unspecified && votes[n] != Unspecified
      && Says(g, existing, votes, n, t, votes[n]) && Led(g, votes, n, t)
  }

  /** No follower of a vote in `done` that is still undecided would be moved by the votes of `votes`. */
  ghost predicate Closed(g: Graph, existing: map<Neuron, Vote>, done: map<Neuron, Vote>, votes: map<Neuron, Vote>, t: Topic) {
    forall n, e :: e in done && Follows(g, n, e, t) && Undecided(existing, votes, n) ==> Would(g, existing, done, n, t) == Unspecified
  }

  /** Votes that hold the first one and every open vote that their own votes lead to. */
  ghost predicate Complete(g: Graph, existing: map<Neuron, Vote>, votes: map<Neuron, Vote>, voter: Neuron, vote: Vote, t: Topic) {
    && voter in votes && votes[voter] == vote && (forall n :: n in votes ==> votes[n] != Unspecified)
    && forall n, v :: n != voter && n in existing && existing[n] == Unspecified && Led(g, votes, n, t) && v != Unspecified && Says(g, existing, votes, n, t, v) ==>
         n in votes && votes[n] == v
  }

  /** The votes one vote leads to: every one of them is called for, and they are the least that are complete. */
  method Cascaded(g: Graph, existing: map<Neuron, Vote>, voter: Neuron, vote: Vote, t: Topic) returns (votes: map<Neuron, Vote>)
    requires t != 0 && vote != Unspecified
    ensures voter in votes && votes[voter] == vote
    ensures Justified(g, existing, votes, voter, t)
    ensures Complete(g, existing, votes, voter, vote, t)
    ensures forall c :: Complete(g, existing, c, voter, vote, t) ==> Extends(votes, c)
  {
    hide Would, Says, Led, Complete, Follows;
    var moving: map<Neuron, Vote> := map[voter := vote];
    votes := map[];
    assert votes + moving == moving;
    forall c | Complete(g, existing, c, voter, vote, t)
      ensures Extends(moving, c)
    {
      HoldsFirst(g, existing, c, voter, vote, t);
    }
    while true
      invariant votes.Keys !! moving.Keys && moving.Keys != {}
      invariant voter in votes + moving && (votes + moving)[voter] == vote
      invariant forall n :: n in votes + moving ==> (votes + moving)[n] != Unspecified
      invariant Justified(g, existing, votes + moving, voter, t)
      invariant Closed(g, existing, votes, votes + moving, t)
      invariant forall c :: Complete(g, existing, c, voter, vote, t) ==> Extends(votes + moving, c)
      decreases existing.Keys - votes.Keys - moving.Keys
    {
      ghost var before := votes;
      votes := votes + moving;
      var followers := FollowersOfAll(g, moving, t);
      followers := set n | n in followers && Undecided(existing, votes, n);
      var next := Induced(g, existing, votes, followers, t);
      forall n | n in next
        ensures Led(g, votes, n, t)
      {
        var e :| e in moving && Follows(g, n, e, t);
        LedBy(g, votes, n, e, t);
      }
      Round(g, existing, before, moving, votes, next, voter, t);
      forall c | Complete(g, existing, c, voter, vote, t)
        ensures Extends(votes + next, c)
      {
        RoundLeast(g, existing, votes, next, c, voter, vote, t);
      }
      if next.Keys == {} {
        assert votes + next == votes;
        NothingMissing(g, existing, votes, voter, vote, t);
        break;
      }
      moving := next;
    }
  }

  lemma {:induction false} HoldsFirst(g: Graph, existing: map<Neuron, Vote>, c: map<Neuron, Vote>, voter: Neuron, vote: Vote, t: Topic)
    requires Complete(g, existing, c, voter, vote, t)
    ensures Extends(map[voter := vote], c)
  {
  }

  lemma {:induction false} LedBy(g: Graph, votes: map<Neuron, Vote>, n: Neuron, e: Neuron, t: Topic)
    requires e in votes && Follows(g, n, e, t)
    ensures Led(g, votes, n, t)
  {
  }

  /** Nothing is added that complete votes could do without. */
  lemma {:induction false} RoundLeast(g: Graph, existing: map<Neuron, Vote>, votes: map<Neuron, Vote>, next: map<Neuron, Vote>, c: map<Neuron, Vote>,
                                      voter: Neuron, vote: Vote, t: Topic)
    requires Complete(g, existing, c, voter, vote, t) && Extends(votes, c) && voter in votes
    requires forall n :: n in next ==> Undecided(existing, votes, n) && next[n] == Would(g, existing, votes, n, t) != Unspecified && Led(g, votes, n, t)
    ensures Extends(votes + next, c)
  {
    hide Would, Says, Led;
    SaysWould(g, existing, c, t);
    forall n | n in next
      ensures n in c && c[n] == next[n]
    {
      Settled(g, existing, votes, c, n, t);
      StillLed(g, votes, c, n, t);
      assert Says(g, existing, c, n, t, next[n]);
    }
  }

  lemma {:induction false} NothingMissing(g: Graph, existing: map<Neuron, Vote>, votes: map<Neuron, Vote>, voter: Neuron, vote: Vote, t: Topic)
    requires voter in votes && votes[voter] == vote && (forall n :: n in votes ==> votes[n] != Unspecified)
    requires Justified(g, existing, votes, voter, t) && Closed(g, existing, votes, votes, t)
    ensures Complete(g, existing, votes, voter, vote, t)
  {
    hide Would, Says, Follows;
    SaysWould(g, existing, votes, t);
  }

  /** All who follow one of the neurons that have just voted, on the topic or in general. */
  method FollowersOfAll(g: Graph, moving: map<Neuron, Vote>, t: Topic) returns (s: set<Neuron>)
    ensures forall n :: n in s <==> exists e :: e in moving && Follows(g, n, e, t)
  {
    s := {};
    var left := moving.Keys;
    while left != {}
      invariant left <= moving.Keys
      invariant forall n :: n in s <==> exists e :: e in moving.Keys - left && Follows(g, n, e, t)
      decreases left
    {
      var e :| e in left;
      var more := FollowersOf(g, e, t) + FollowersOf(g, e, 0);
      assert forall n :: n in more <==> Follows(g, n, e, t);
      assert moving.Keys - (left - {e}) == moving.Keys - left + {e};
      s := s + more;
      left := left - {e};
    }
  }

  /** The followers that are moved to vote. */
  method Induced(g: Graph, existing: map<Neuron, Vote>, votes: map<Neuron, Vote>, followers: set<Neuron>, t: Topic) returns (next: map<Neuron, Vote>)
    requires forall n :: n in votes ==> votes[n] != Unspecified
    ensures forall n :: n in next <==> n in followers && Would(g, existing, votes, n, t) != Unspecified
    ensures forall n :: n in next ==> next[n] == Would(g, existing, votes, n, t)
  {
    next := map[];
    var left := followers;
    while left != {}
      invariant left <= followers
      invariant forall n :: n in next <==> n in followers - left && Would(g, existing, votes, n, t) != Unspecified
      invariant forall n :: n in next ==> next[n] == Would(g, existing, votes, n, t)
      decreases left
    {
      var n :| n in left;
      var v := WouldFollow(g, existing, votes, n, t);
      if v != Unspecified {
        next := next[n := v];
      }
      left := left - {n};
    }
  }

  /** One round keeps what the cascade has established. */
  lemma {:induction false} Round(g: Graph, existing: map<Neuron, Vote>, before: map<Neuron, Vote>, moving: map<Neuron, Vote>, votes: map<Neuron, Vote>,
                                 next: map<Neuron, Vote>, voter: Neuron, t: Topic)
    requires votes == before + moving && before.Keys !! moving.Keys && (forall n :: n in votes ==> votes[n] != Unspecified) && voter in votes
    requires Justified(g, existing, votes, voter, t) && Closed(g, existing, before, votes, t)
    requires forall n :: n in next ==> Undecided(existing, votes, n) && next[n] == Would(g, existing, votes, n, t) != Unspecified && Led(g, votes, n, t)
    requires forall n, e :: e in moving && Follows(g, n, e, t) && Undecided(existing, votes, n) && Would(g, existing, votes, n, t) != Unspecified ==> n in next
    ensures Justified(g, existing, votes + next, voter, t)
    ensures Closed(g, existing, votes, votes + next, t)
  {
    RoundJustified(g, existing, votes, next, voter, t);
    RoundClosed(g, existing, before, moving, votes, next, t);
  }

  lemma {:induction false} RoundJustified(g: Graph, existing: map<Neuron, Vote>, votes: map<Neuron, Vote>, next: map<Neuron, Vote>, voter: Neuron, t: Topic)
    requires (forall n :: n in votes ==> votes[n] != Unspecified) && voter in votes && Justified(g, existing, votes, voter, t)
    requires forall n :: n in next ==> Undecided(existing, votes, n) && next[n] == Would(g, existing, votes, n, t) != Unspecified && Led(g, votes, n, t)
    ensures Justified(g, existing, votes + next, voter, t)
  {
    hide Would, Says, Led;
    var all := votes + next;
    SaysWould(g, existing, votes, t);
    SaysWould(g, existing, all, t);
    assert Extends(votes, all);
    forall n | n in all && n != voter
      ensures n in existing && existing[n] == Unspecified && all[n] != Unspecified && Says(g, existing, all, n, t, all[n]) && Led(g, all, n, t)
    {
      assert n in next || n in votes;
      StillLed(g, votes, all, n, t);
      Settled(g, existing, votes, all, n, t);
    }
  }

  lemma {:induction false} StillLed(g: Graph, a: map<Neuron, Vote>, b: map<Neuron, Vote>, n: Neuron, t: Topic)
    requires Led(g, a, n, t) && Extends(a, b)
    ensures Led(g, b, n, t)
  {
  }

  lemma {:induction false} RoundClosed(g: Graph, existing: map<Neuron, Vote>, before: map<Neuron, Vote>, moving: map<Neuron, Vote>, votes: map<Neuron, Vote>,
                                       next: map<Neuron, Vote>, t: Topic)
    requires votes == before + moving && (forall n :: n in votes ==> votes[n] != Unspecified) && Closed(g, existing, before, votes, t)
    requires forall n :: n in next ==> Undecided(existing, votes, n)
    requires forall n, e :: e in moving && Follows(g, n, e, t) && Undecided(existing, votes, n) && Would(g, existing, votes, n, t) != Unspecified ==> n in next
    requires before.Keys !! moving.Keys
    ensures Closed(g, existing, votes, votes + next, t)
  {
    hide Would, Follows;
    forall n, e | e in votes && Follows(g, n, e, t) && Undecided(existing, votes + next, n)
      ensures Would(g, existing, votes, n, t) == Unspecified
    {
      assert Undecided(existing, votes, n) && n !in next;
      if forall d :: d in moving ==> !Follows(g, n, d, t) {
        assert e in before;
        assert Extends(before, votes);
        RelevantFollowed(g, n, t);
        Unmoved(g, existing, before, votes, n, t);
      }
    }
  }

  lemma {:induction false} RelevantFollowed(g: Graph, n: Neuron, t: Topic)
    ensures forall e :: e in Relevant(g, n, t) ==> Follows(g, n, e, t)
  {
  }
}
