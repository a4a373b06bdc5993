/**
 What reassembly promises in terms of the channel alone: which fragments arrived when, and when the
 receiver cleaned up.
 */
module ChannelLaws {
  import opened Fragmentation
  import opened Options

  /** The fragments of message `id` that arrive from event `a` on. */
  function Arrived(trace: seq<Event>, a: nat, id: nat): set<nat> {
    if |trace| <= a then {}
    else
      var e := trace[|trace| - 1];
      Arrived(trace[..|trace| - 1], a, id) + if e.Deliver? && e.id == id then {e.i} else {}
  }

  /** No clean-up from event `a` on comes too late for a fragment that arrived at `since`. */
  ghost predicate NotLate(w: World, trace: seq<Event>, a: nat, since: int) {
    forall n :: a <= n < |trace| && trace[n].Cleanup? ==> InTime(trace[n].now - since, w.timeout)
  }

  lemma ArrivedStep(trace: seq<Event>, e: Event, a: nat, id: nat)
    ensures Arrived(trace + [e], a, id) == Arrived(trace, a, id) +
              if a <= |trace| && e.Deliver? && e.id == id then {e.i} else {}
  {
    assert (trace + [e])[..|trace|] == trace;
    if a > |trace| {
      assert Arrived(trace, a, id) == {};
    }
  }

  lemma AdvanceIs(w: World, id: nat, p: Progress, e: Event)
    requires id in w.messages
    ensures Advance(w, id, p, e) ==
            if e.Deliver? && e.id == id then
              var q := Progress(p.got + {e.i}, if p.got == {} then e.now else p.first);
              if q.got == All(w, id) then NOTHING else q
            else if e.Cleanup? && p.got != {} && !InTime(e.now - p.first, w.timeout) then NOTHING
            else p
  {
    hide Seconds;
    if e.Cleanup? {
      TicksDecide(e.now - p.first, w.timeout);
    }
  }

  /** A clean-up makes all fragments of a message missing again exactly if it comes too late for the first of them. */
  lemma CleanupForgets(w: World, trace: seq<Event>, now: int, id: nat)
    requires id in w.messages
    ensures var p := Track(w, trace, id);
            Track(w, trace + [Cleanup(now)], id) ==
            if p.got == {} || InTime(now - p.first, w.timeout) then p else NOTHING
  {
    TrackStep(w, trace, Cleanup(now), id);
    AdvanceIs(w, id, Track(w, trace, id), Cleanup(now));
  }

  /**
   What the receiver has of a message: the fragments that have arrived since some moment at which it
   had none. No clean-up since then was too late for the first of them, and they were never all.
   */
  lemma {:induction false} HasSince(w: World, trace: seq<Event>, id: nat) returns (a: nat)
    requires id in w.messages && Track(w, trace, id).got != {}
    ensures a < |trace| && trace[a].Deliver? && trace[a].id == id && Track(w, trace[..a], id).got == {}
    ensures Track(w, trace, id) == Progress(Arrived(trace, a, id), trace[a].now)
    ensures NotLate(w, trace, a, trace[a].now) && Arrived(trace, a, id) != All(w, id)
  {
    hide Advance, All, InTime;
    var before, e := trace[..|trace| - 1], trace[|trace| - 1];
    var p := Track(w, before, id);
    assert trace == before + [e];
    AdvanceIs(w, id, p, e);
    if p.got == {} {
      a := |before|;
      assert trace[..a] == before;
      ArrivedStep(before, e, a, id);
    } else {
      a := HasSince(w, before, id);
      assert trace[..a] == before[..a] && trace[a] == before[a];
      ArrivedStep(before, e, a, id);
    }
  }

  /** So a message comes out only when all its fragments have arrived, each in time for the first of them. */
  lemma OutMeansArrived(w: World, trace: seq<Event>, e: Event) returns (a: nat)
    requires Possible(w, e) && Completes(w, trace, e)
    ensures a <= |trace| && (trace + [e])[a].Deliver? && (trace + [e])[a].id == e.id
    ensures Arrived(trace + [e], a, e.id) == All(w, e.id)
    ensures NotLate(w, trace, a, (trace + [e])[a].now)
  {
    hide All, InTime, Track;
    if Track(w, trace, e.id).got == {} {
      a := |trace|;
    } else {
      a := HasSince(w, trace, e.id);
    }
    ArrivedStep(trace, e, a, e.id);
  }

  /** Some event from `a` on completes message `id`. */
  ghost predicate ComesOut(w: World, trace: seq<Event>, a: nat, id: nat) {
    exists n :: a <= n < |trace| && CompletesAt(w, trace, n, id)
  }

  ghost predicate CompletesAt(w: World, trace: seq<Event>, n: nat, id: nat) {
    n < |trace| && trace[n].Deliver? && trace[n].id == id && Possible(w, trace[n]) && Completes(w, trace[..n], trace[n])
  }

  /** No clean-up from event `a` on comes too late for any fragment of the message that arrived before it. */
  ghost predicate Punctual(w: World, trace: seq<Event>, a: nat, id: nat) {
    forall n, j :: a <= n < |trace| && trace[n].Cleanup? && 0 <= j < n && trace[j].Deliver? && trace[j].id == id ==>
      InTime(trace[n].now - trace[j].now, w.timeout)
  }

  lemma {:induction false} GatheredOrOut(w: World, trace: seq<Event>, a: nat, id: nat)
    requires id in w.messages && forall n :: 0 <= n < |trace| ==> Possible(w, trace[n])
    requires Punctual(w, trace, a, id)
    ensures ComesOut(w, trace, a, id) || Arrived(trace, a, id) <= Track(w, trace, id).got
    decreases |trace|
  {
    hide Advance, All, InTime, Arrived, Track, Completes;
    if a < |trace| {
      var before, e := trace[..|trace| - 1], trace[|trace| - 1];
      assert trace == before + [e];
      GatheredOrOut(w, before, a, id);
      ArrivedStep(before, e, a, id);
      TrackStep(w, before, e, id);
      AdvanceIs(w, id, Track(w, before, id), e);
      if ComesOut(w, before, a, id) {
        var n :| a <= n < |before| && CompletesAt(w, before, n, id);
        assert before[..n] == trace[..n];
        assert CompletesAt(w, trace, n, id);
      } else if e.Deliver? && e.id == id {
        LastDelivery(w, before, e);
        if Completes(w, before, e) {
          assert trace[..|before|] == before;
          assert CompletesAt(w, trace, |before|, id);
        }
      } else if e.Cleanup? && Track(w, before, id).got != {} {
        var f := HasSince(w, before, id);
        assert trace[f] == before[f];
      }
    } else {
      NothingArrived(trace, a, id);
    }
  }

  lemma NothingArrived(trace: seq<Event>, a: nat, id: nat)
    requires a >= |trace|
    ensures Arrived(trace, a, id) == {}
  {
  }

  lemma LastDelivery(w: World, trace: seq<Event>, e: Event)
    requires e.Deliver? && Possible(w, e)
    ensures Completes(w, trace, e) <==> Track(w, trace, e.id).got + {e.i} == All(w, e.id)
  {
  }

  lemma {:induction false} NeverAll(w: World, trace: seq<Event>, id: nat)
    requires id in w.messages && w.messages[id] != []
    ensures Track(w, trace, id).got != All(w, id)
  {
    hide All, Advance;
    SomeFragment(w, id);
    if trace != [] {
      NeverAll(w, trace[..|trace| - 1], id);
      AdvanceIs(w, id, Track(w, trace[..|trace| - 1], id), trace[|trace| - 1]);
    }
  }

  lemma SomeFragment(w: World, id: nat)
    requires id in w.messages && w.messages[id] != []
    ensures All(w, id) != {}
  {
    assert 0 in All(w, id);
  }

  lemma {:induction false} GotIsPart(w: World, trace: seq<Event>, id: nat)
    requires id in w.messages && forall n :: 0 <= n < |trace| ==> Possible(w, trace[n])
    ensures Track(w, trace, id).got <= All(w, id)
  {
    hide Advance;
    if trace != [] {
      GotIsPart(w, trace[..|trace| - 1], id);
      AdvanceIs(w, id, Track(w, trace[..|trace| - 1], id), trace[|trace| - 1]);
    }
  }

  /**
   What a sender can rely on: if all fragments of a message arrive, in whatever order and mixed with
   whatever else, and no clean-up meanwhile comes too late for one of them, the message comes out.
   */
  lemma ArrivedComesOut(w: World, trace: seq<Event>, a: nat, id: nat)
    requires id in w.messages && w.messages[id] != [] && forall n :: 0 <= n < |trace| ==> Possible(w, trace[n])
    requires Punctual(w, trace, a, id) && Arrived(trace, a, id) == All(w, id)
    ensures ComesOut(w, trace, a, id)
  {
    hide Track, All, Arrived, ComesOut;
    GatheredOrOut(w, trace, a, id);
    GotIsPart(w, trace, id);
    NeverAll(w, trace, id);
  }

  /** By event `n` all fragments of its message have arrived, from some event `b` on, with no clean-up too late for the first. */
  ghost predicate Justified(w: World, trace: seq<Event>, n: nat)
    requires n < |trace| && trace[n].Deliver? && trace[n].id in w.messages
  {
    exists b :: 0 <= b <= n && ArrivedSince(w, trace, n, b)
  }

  ghost predicate ArrivedSince(w: World, trace: seq<Event>, n: nat, b: nat)
    requires b <= n < |trace| && trace[n].Deliver? && trace[n].id in w.messages
  {
    && trace[b].Deliver? && trace[b].id == trace[n].id
    && Arrived(trace[..n + 1], b, trace[n].id) == All(w, trace[n].id)
    && NotLate(w, trace[..n], b, trace[b].now)
  }

  lemma OutJustified(w: World, trace: seq<Event>, n: nat)
    requires n < |trace| && trace[n].Deliver? && Possible(w, trace[n]) && Completes(w, trace[..n], trace[n])
    ensures Justified(w, trace, n)
  {
    hide Arrived, All, Track, NotLate, Completes;
    var b := OutMeansArrived(w, trace[..n], trace[n]);
    assert trace[..n] + [trace[n]] == trace[..n + 1];
    assert trace[..n + 1][b] == trace[b];
    assert ArrivedSince(w, trace, n, b);
  }

  /** Both directions on the receiver itself, for a message of at most 65535 fragments in any world. */
  method RunPromises(w: World, trace: seq<Event>, a: nat, id: nat) returns (outs: seq<Option<seq<Byte>>>)
    requires Genuine(w) && id in w.messages && w.messages[id] != []
    requires forall n :: 0 <= n < |trace| ==> Possible(w, trace[n])
    ensures |outs| == |trace|
    ensures Punctual(w, trace, a, id) && Arrived(trace, a, id) == All(w, id) ==>
              exists n :: a <= n < |outs| && outs[n] == Some(w.messages[id])
    ensures forall n :: 0 <= n < |outs| && trace[n].Deliver? && trace[n].id == id && outs[n].Some? ==> Justified(w, trace, n)
  {
    hide Arrived, All, Track, NotLate, Punctual, Genuine, Justified;
    outs := RunChannel(w, trace);
    if Punctual(w, trace, a, id) && Arrived(trace, a, id) == All(w, id) {
      ArrivedComesOut(w, trace, a, id);
      ghost var n :| a <= n < |trace| && CompletesAt(w, trace, n, id);
      assert outs[n] == Some(w.messages[id]);
    }
    forall n | 0 <= n < |outs| && trace[n].Deliver? && trace[n].id == id && outs[n].Some?
      ensures Justified(w, trace, n)
    {
      OutJustified(w, trace, n);
    }
  }

  /**
   Two of three fragments arrive, the receiver cleans up some seconds later with a timeout of three,
   and the third arrives: the message comes out exactly if fewer than four seconds have passed.
   */
  method TimeoutCase(message: seq<Byte>, seconds: nat) returns (outs: seq<Option<seq<Byte>>>)
    requires Total(message) == 3
    ensures |outs| == 4 && outs[..3] == [None, None, None]
    ensures outs[3] == if seconds < 4 then Some(message) else None
  {
    hide Track, Total, Expected;
    var later := seconds * 1_000_000_000;
    var w := World(map[3 := message], 3);
    var trace := [Deliver(3, 0, 0), Deliver(3, 2, 0), Cleanup(later), Deliver(3, 1, later)];
    outs := RunChannel(w, trace);
    TimeoutTrack(w, message, later);
    assert trace[..0] == [] && trace[..1] == [trace[0]] && trace[..2] == [trace[0], trace[1]];
    assert trace[..3] == [trace[0], trace[1], trace[2]];
  }

  lemma TimeoutTrack(w: World, message: seq<Byte>, later: nat)
    requires w == World(map[3 := message], 3) && Total(message) == 3
    ensures var d0, d2, c, d1 := Deliver(3, 0, 0), Deliver(3, 2, 0), Cleanup(later), Deliver(3, 1, later);
            && Expected(w, [], d0) == None && Expected(w, [d0], d2) == None && Expected(w, [d0, d2], c) == None
            && Expected(w, [d0, d2, c], d1) == if later < 4_000_000_000 then Some(message) else None
  {
    hide Total, Advance, Track, UpTo;
    var d0, d2, c := Deliver(3, 0, 0), Deliver(3, 2, 0), Cleanup(later);
    Three();
    TrackNone(w, 3);
    TwoOfThree(w);
    TrackOne(w, [d0, d2], c);
    assert [d0, d2] + [c] == [d0, d2, c];
  }

  lemma TwoOfThree(w: World)
    requires 3 in w.messages && Total(w.messages[3]) == 3
    ensures Track(w, [Deliver(3, 0, 0)], 3) == Progress({0}, 0)
    ensures Track(w, [Deliver(3, 0, 0), Deliver(3, 2, 0)], 3) == Progress({0, 2}, 0)
  {
    hide Total, Advance, Track, UpTo;
    var d0, d2 := Deliver(3, 0, 0), Deliver(3, 2, 0);
    Three();
    TrackNone(w, 3);
    TrackOne(w, [], d0);
    assert [] + [d0] == [d0];
    TrackOne(w, [d0], d2);
    assert [d0] + [d2] == [d0, d2];
  }

  lemma TrackOne(w: World, trace: seq<Event>, e: Event)
    requires 3 in w.messages && Total(w.messages[3]) == 3
    ensures var p := Track(w, trace, 3);
            Track(w, trace + [e], 3) ==
            if e.Deliver? && e.id == 3 then
              var q := Progress(p.got + {e.i}, if p.got == {} then e.now else p.first);
              if q.got == {0, 1, 2} then NOTHING else q
            else if e.Cleanup? && p.got != {} && !InTime(e.now - p.first, w.timeout) then NOTHING
            else p
  {
    hide Track, Advance, Total, UpTo;
    Three();
    TrackStep(w, trace, e, 3);
    AdvanceIs(w, 3, Track(w, trace, 3), e);
  }

  lemma Three()
    ensures UpTo(3) == {0, 1, 2} && {0} != {0, 1, 2} && {0, 2} != {0, 1, 2} && {1} != {0, 1, 2}
    ensures var none: set<nat> := {}; none + {0} == {0} && none + {1} == {1}
    ensures {0} + {2} == {0, 2} && {0, 2} + {1} == {0, 1, 2}
  {
    assert 1 in {0, 1, 2} && 0 in {0, 1, 2};
  }

  lemma TrackNone(w: World, id: nat)
    requires id in w.messages
    ensures Track(w, [], id) == NOTHING
  {
  }
}
