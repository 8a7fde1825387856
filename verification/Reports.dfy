/**
 How key events reach a desktop: in reports, each closed by a synchronisation
 event. What is not closed yet is not seen, and a key that goes down and up
 within one report has not moved by its end, and is not seen either.
 */
module Reports {
  import opened Keyboard

  /** The keys that go down or up in a list of events. */
  function KeysIn(evs: seq<Event>): set<Key>
  {
    set e | e in evs && e.KeyEv? :: e.key
  }

  lemma KeysInConcat(a: seq<Event>, b: seq<Event>)
    ensures KeysIn(a + b) == KeysIn(a) + KeysIn(b)
  {
  }

  /** The events of the report that is not closed yet. */
  function Unclosed(evs: seq<Event>): seq<Event>
  {
    if evs == [] || evs[|evs| - 1].Syn? then [] else Unclosed(evs[..|evs| - 1]) + [evs[|evs| - 1]]
  }

  /** A key that moves more than once. */
  predicate MovesTwice(report: seq<Event>, k: Key)
  {
    exists i, j :: 0 <= i < j < |report| && report[i].KeyEv? && report[i].key == k
                   && report[j].KeyEv? && report[j].key == k
  }

  /** What is seen of the first `n` events of a report. */
  function SeenOf(report: seq<Event>, n: nat): seq<Event>
    requires n <= |report|
  {
    if n == 0 then []
    else
      var e := report[n - 1];
      SeenOf(report, n - 1) + if e.KeyEv? && MovesTwice(report, e.key) then [] else [e]
  }

  function Seen(report: seq<Event>): seq<Event>
  {
    SeenOf(report, |report|)
  }

  /** What a desktop sees of a list of events. */
  function Delivered(evs: seq<Event>): seq<Event>
  {
    if evs == [] then []
    else
      var before := evs[..|evs| - 1];
      if evs[|evs| - 1].Syn? then Delivered(before) + Seen(Unclosed(before)) + [Syn]
      else Delivered(before)
  }

  /** No key moves twice without a synchronisation event between. */
  predicate MovesOnce(evs: seq<Event>)
  {
    if evs == [] then true
    else
      var before, e := evs[..|evs| - 1], evs[|evs| - 1];
      MovesOnce(before) && (e.KeyEv? ==> e.key !in KeysIn(Unclosed(before)))
  }

  /** In closed reports of which everything is seen. */
  predicate Neat(evs: seq<Event>)
  {
    Unclosed(evs) == [] && MovesOnce(evs)
  }

  /** What one more event changes. */
  lemma Last(evs: seq<Event>, e: Event)
    ensures Unclosed(evs + [e]) == if e.Syn? then [] else Unclosed(evs) + [e]
    ensures MovesOnce(evs + [e]) <==> MovesOnce(evs) && (e.KeyEv? ==> e.key !in KeysIn(Unclosed(evs)))
    ensures Delivered(evs + [e]) == if e.Syn? then Delivered(evs) + Seen(Unclosed(evs)) + [Syn] else Delivered(evs)
  {
    assert (evs + [e])[..|evs|] == evs;
  }

  lemma Ends(evs: seq<Event>) returns (before: seq<Event>, e: Event)
    requires evs != []
    ensures evs == before + [e]
  {
    before, e := evs[..|evs| - 1], evs[|evs| - 1];
  }

  lemma {:induction false} UnclosedMovesOnce(evs: seq<Event>, k: Key)
    requires MovesOnce(evs)
    ensures !MovesTwice(Unclosed(evs), k)
    decreases |evs|
  {
    if evs != [] {
      var before, e := Ends(evs);
      Last(before, e);
      UnclosedMovesOnce(before, k);
      if e.KeyEv? {
        StillOnce(Unclosed(before), e, k);
      }
    }
  }

  lemma StillOnce(report: seq<Event>, e: Event, k: Key)
    requires !MovesTwice(report, k) && e.KeyEv? && e.key !in KeysIn(report)
    ensures !MovesTwice(report + [e], k)
  {
    var more := report + [e];
    forall i, j | 0 <= i < j < |more|
      ensures !(more[i].KeyEv? && more[i].key == k && more[j].KeyEv? && more[j].key == k)
    {
      assert more[i] == report[i];
      assert report[i].KeyEv? ==> report[i].key in KeysIn(report);
    }
  }

  lemma {:induction false} AllSeen(report: seq<Event>, n: nat)
    requires n <= |report| && forall k :: !MovesTwice(report, k)
    ensures SeenOf(report, n) == report[..n]
  {
    if n > 0 {
      AllSeen(report, n - 1);
      assert report[..n] == report[..n - 1] + [report[n - 1]];
    }
  }

  lemma {:induction false} DeliveredOnce(evs: seq<Event>)
    requires MovesOnce(evs)
    ensures Delivered(evs) + Unclosed(evs) == evs
    decreases |evs|
  {
    if evs != [] {
      var before, e := Ends(evs);
      Last(before, e);
      DeliveredOnce(before);
      if e.Syn? {
        SeenWhole(before);
      }
    }
  }

  lemma SeenWhole(evs: seq<Event>)
    requires MovesOnce(evs)
    ensures Seen(Unclosed(evs)) == Unclosed(evs)
  {
    var report := Unclosed(evs);
    forall k
      ensures !MovesTwice(report, k)
    {
      UnclosedMovesOnce(evs, k);
    }
    AllSeen(report, |report|);
    assert report[..|report|] == report;
  }

  /** Neat events are delivered as they are. */
  lemma NeatDelivered(evs: seq<Event>)
    requires Neat(evs)
    ensures Delivered(evs) == evs
  {
    DeliveredOnce(evs);
  }

  /** Behind closed reports, events are delivered as if they were the first. */
  lemma {:induction false} DeliveredConcat(a: seq<Event>, b: seq<Event>)
    requires Unclosed(a) == []
    ensures Unclosed(a + b) == Unclosed(b) && Delivered(a + b) == Delivered(a) + Delivered(b)
    ensures MovesOnce(a + b) <==> MovesOnce(a) && MovesOnce(b)
    decreases |b|
  {
    if b == [] {
      assert a + b == a;
    } else {
      var before, e := Ends(b);
      DeliveredConcat(a, before);
      assert a + b == (a + before) + [e];
      Last(before, e);
      Last(a + before, e);
      FourParts(Delivered(a), Delivered(before), Seen(Unclosed(before)), [Syn]);
    }
  }

  lemma FourParts(a: seq<Event>, b: seq<Event>, c: seq<Event>, d: seq<Event>)
    ensures a + b + c + d == a + (b + c + d)
  {
  }

  lemma NeatConcat(a: seq<Event>, b: seq<Event>)
    requires Neat(a)
    ensures Neat(a + b) <==> Neat(b)
  {
    DeliveredConcat(a, b);
  }

  /** A report of one or two moves, of different keys. */
  lemma OneMove(e: Event)
    ensures Neat([e, Syn])
  {
    Last([], e);
    Last([e], Syn);
    assert [e, Syn] == [e] + [Syn] && [] + [e] == [e];
  }

  lemma TwoMoves(e: Event, f: Event)
    requires e.KeyEv? && f.KeyEv? && e.key != f.key
    ensures Neat([e, f, Syn])
  {
    Last([], e);
    Last([e], f);
    Last([e, f], Syn);
    assert [e, f, Syn] == [e, f] + [Syn] && [e] + [f] == [e, f] && [] + [e] == [e];
  }

  /** Only keys of the list are seen to move. */
  lemma {:induction false} DeliveredKeys(evs: seq<Event>)
    ensures KeysIn(Delivered(evs)) <= KeysIn(evs) && KeysIn(Unclosed(evs)) <= KeysIn(evs)
    decreases |evs|
  {
    if evs != [] {
      var before, e := Ends(evs);
      DeliveredKeys(before);
      Last(before, e);
      KeysInConcat(before, [e]);
      if e.Syn? {
        SeenKeys(Unclosed(before), |Unclosed(before)|);
        KeysInConcat(Delivered(before), Seen(Unclosed(before)));
        KeysInConcat(Delivered(before) + Seen(Unclosed(before)), [Syn]);
        assert KeysIn([Syn]) == {};
      } else {
        KeysInConcat(Unclosed(before), [e]);
      }
    }
  }

  lemma {:induction false} SeenKeys(report: seq<Event>, n: nat)
    requires n <= |report|
    ensures KeysIn(SeenOf(report, n)) <= KeysIn(report)
  {
    if n > 0 {
      SeenKeys(report, n - 1);
    }
  }
}
