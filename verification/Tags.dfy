/** Sequences of observations, each tagged with the thread that made it. */
module Tags {

  /** What thread `t` observed, in order. */
  function By<X>(tagged: seq<(nat, X)>, t: nat): seq<X> {
    if tagged == [] then [] else (if tagged[0].0 == t then [tagged[0].1] else []) + By(tagged[1..], t)
  }

  function Untag<X>(tagged: seq<(nat, X)>): (xs: seq<X>)
    ensures |xs| == |tagged| && forall i :: 0 <= i < |xs| ==> xs[i] == tagged[i].1
  {
    seq(|tagged|, i requires 0 <= i < |tagged| => tagged[i].1)
  }

  lemma ByConcat<X>(a: seq<(nat, X)>, b: seq<(nat, X)>, t: nat)
    requires |a| <= 1
    ensures By(a + b, t) == (if a != [] && a[0].0 == t then [a[0].1] else []) + By(b, t)
  {
    if a == [] {
      assert a + b == b;
    } else {
      assert (a + b)[1..] == b;
    }
  }

  lemma UntagConcat<X>(a: seq<(nat, X)>, b: seq<(nat, X)>)
    ensures Untag(a + b) == Untag(a) + Untag(b)
  {
  }

  lemma NothingBy<X>(t: nat)
    ensures By<X>([], t) == []
  {
  }
}
