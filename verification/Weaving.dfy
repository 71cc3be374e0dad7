/** In-order interleaving of a node's entries with the contents of its subtrees. */
module Weaving {
  import opened Types

  type Part = seq<Entry>

  /** `ps[0] es[0] ps[1] es[1] ... ps[n]` */
  ghost function Weave(es: seq<Entry>, ps: seq<Part>): seq<Entry>
    requires |ps| == |es| + 1
  {
    if es == [] then ps[0] else ps[0] + [es[0]] + Weave(es[1..], ps[1..])
  }

  /** `ps[0] es[0] ... ps[n-1] es[n-1]`: what lies left of a block of entries. */
  ghost function Before(es: seq<Entry>, ps: seq<Part>): seq<Entry>
    requires |ps| == |es|
  {
    if es == [] then [] else ps[0] + [es[0]] + Before(es[1..], ps[1..])
  }

  /** `es[0] ps[0] ... es[n-1] ps[n-1]`: what lies right of a block of entries. */
  ghost function After(es: seq<Entry>, ps: seq<Part>): seq<Entry>
    requires |ps| == |es|
  {
    if es == [] then [] else [es[0]] + ps[0] + After(es[1..], ps[1..])
  }

  /** The subtrees of a leaf. */
  ghost function Blanks(n: nat): seq<Part> {
    seq(n, _ => [])
  }

  lemma {:induction false} WeaveBlanks(es: seq<Entry>)
    ensures Weave(es, Blanks(|es| + 1)) == es
  {
    if es != [] {
      assert Blanks(|es| + 1)[1..] == Blanks(|es|);
      WeaveBlanks(es[1..]);
    }
  }

  lemma {:induction false} WeaveAfter(es: seq<Entry>, p: Part, ps: seq<Part>)
    requires |ps| == |es|
    ensures Weave(es, [p] + ps) == p + After(es, ps)
  {
    if es != [] {
      assert ([p] + ps)[1..] == [ps[0]] + ps[1..];
      WeaveAfter(es[1..], ps[0], ps[1..]);
    }
  }

  lemma {:induction false} WeaveThen(bs: seq<Entry>, cs: seq<Entry>, qs: seq<Part>, rs: seq<Part>)
    requires |qs| == |bs| + 1 && |rs| == |cs|
    ensures Weave(bs + cs, qs + rs) == Weave(bs, qs) + After(cs, rs)
  {
    if bs == [] {
      assert bs + cs == cs && qs == [qs[0]];
      WeaveAfter(cs, qs[0], rs);
    } else {
      assert (bs + cs)[1..] == bs[1..] + cs && (qs + rs)[1..] == qs[1..] + rs;
      WeaveThen(bs[1..], cs, qs[1..], rs);
    }
  }

  /** A block of entries and subtrees contributes its own weave, whatever surrounds it: every
      local edit of a node (split, merge, rotation, replacement) is the exchange of one block. */
  lemma {:induction false} Splice(xs: seq<Entry>, bs: seq<Entry>, cs: seq<Entry>,
                                  ps: seq<Part>, qs: seq<Part>, rs: seq<Part>)
    requires |ps| == |xs| && |qs| == |bs| + 1 && |rs| == |cs|
    ensures Weave(xs + bs + cs, ps + qs + rs) == Before(xs, ps) + Weave(bs, qs) + After(cs, rs)
  {
    if xs == [] {
      assert xs + bs + cs == bs + cs && ps + qs + rs == qs + rs;
      WeaveThen(bs, cs, qs, rs);
    } else {
      assert (xs + bs + cs)[1..] == xs[1..] + bs + cs;
      assert (ps + qs + rs)[1..] == ps[1..] + qs + rs;
      Splice(xs[1..], bs, cs, ps[1..], qs, rs);
    }
  }

  /** Two nodes joined by an entry. */
  lemma {:induction false} Join(xs: seq<Entry>, m: Entry, bs: seq<Entry>, ps: seq<Part>, qs: seq<Part>)
    requires |ps| == |xs| + 1 && |qs| == |bs| + 1
    ensures Weave(xs + [m] + bs, ps + qs) == Weave(xs, ps) + [m] + Weave(bs, qs)
  {
    var cs := [m] + bs;
    assert xs + [m] + bs == xs + cs;
    WeaveThen(xs, cs, ps, qs);
    assert cs[1..] == bs && [qs[0]] + qs[1..] == qs;
    WeaveAfter(bs, qs[0], qs[1..]);
    assert After(cs, qs) == [m] + (qs[0] + After(bs, qs[1..]));
  }
}
