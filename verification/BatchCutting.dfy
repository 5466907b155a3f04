/**
  Acceptance of invalidation batches under cutting and joining. A hub must split
  what it publishes so that every batch is accepted; these are the facts that
  make splitting possible, and a greedy split the shortest.
*/
module BatchCutting {
  import opened Words
  import opened Control

  lemma {:induction false} SizeOfJoin(a: seq<Event>, b: seq<Event>)
    ensures EstimatedSize(a + b) + CONTROL_MESSAGE_OVERHEAD == EstimatedSize(a) + EstimatedSize(b)
    decreases |b|
  {
    if |b| == 0 {
      assert a + b == a;
    } else {
      var last := |b| - 1;
      SizeOfJoin(a, b[..last]);
      assert (a + b)[..|a| + last] == a + b[..last];
    }
  }

  lemma {:induction false} OverheadIsLeast(a: seq<Event>)
    ensures CONTROL_MESSAGE_OVERHEAD <= EstimatedSize(a)
    decreases |a|
  {
    if |a| > 0 {
      OverheadIsLeast(a[..|a| - 1]);
    }
  }

  /** The two limits a run of events must respect to travel as one batch. */
  predicate Fits(events: seq<Event>) {
    |events| <= MAX_BATCH_EVENTS && EstimatedSize(events) <= MAX_CONTROL_MESSAGE_BYTES
  }

  lemma SliceFits(events: seq<Event>, i: nat, j: nat)
    requires i <= j <= |events| && Fits(events)
    ensures Fits(events[i..j])
  {
    assert events == events[..i] + events[i..j] + events[j..];
    SizeOfJoin(events[..i] + events[i..j], events[j..]);
    SizeOfJoin(events[..i], events[i..j]);
    OverheadIsLeast(events[..i]);
    OverheadIsLeast(events[j..]);
  }

  /** Valid events of one stream, delivered contiguously: what a hub has to publish. */
  predicate Run(events: seq<Event>, streamId: U32) {
    (forall e | e in events :: ValidEvent(e, streamId)) && Contiguous(events)
  }

  /** Validate accepts exactly the non-empty runs that fit, under a non-zero generation. */
  lemma AcceptedIsRunThatFits(m: InvalidationBatch)
    ensures BatchVerdict(m).Pass? <==>
      m.hubGeneration != 0 && m.events != [] && Run(m.events, m.streamId) && Fits(m.events)
  {
    BatchAccepted(m);
  }

  lemma SliceOfRun(events: seq<Event>, streamId: U32, i: nat, j: nat)
    requires i <= j <= |events| && Run(events, streamId)
    ensures Run(events[i..j], streamId)
  {
    var slice := events[i..j];
    forall k | 0 < k < |slice|
      ensures slice[k].streamSequence == slice[k - 1].streamSequence + 1
    {
      assert slice[k] == events[i + k] && slice[k - 1] == events[i + k - 1];
    }
  }

  lemma SuffixOfRun(events: seq<Event>, streamId: U32, i: nat)
    requires i <= |events| && Run(events, streamId)
    ensures Run(events[i..], streamId)
  {
    SliceOfRun(events, streamId, i, |events|);
    assert events[i..|events|] == events[i..];
  }

  /** Every non-empty contiguous slice of an accepted batch is accepted. */
  lemma SliceAccepted(m: InvalidationBatch, i: nat, j: nat)
    requires BatchVerdict(m).Pass? && i < j <= |m.events|
    ensures BatchVerdict(m.(events := m.events[i..j])).Pass?
  {
    hide BatchVerdict, Run, Fits;
    AcceptedIsRunThatFits(m);
    AcceptedIsRunThatFits(m.(events := m.events[i..j]));
    SliceOfRun(m.events, m.streamId, i, j);
    SliceFits(m.events, i, j);
  }

  /** Two runs of one stream join into a run exactly when they abut. */
  lemma JoinOfRuns(a: seq<Event>, b: seq<Event>, streamId: U32)
    requires Run(a, streamId) && Run(b, streamId) && a != [] && b != []
    ensures Run(a + b, streamId) <==> b[0].streamSequence == a[|a| - 1].streamSequence + 1
  {
    hide ValidEvent;
    var all, n := a + b, |a|;
    assert all[n] == b[0] && all[n - 1] == a[n - 1];
    forall i | n < i < |all|
      ensures all[i].streamSequence == all[i - 1].streamSequence + 1
    {
      assert all[i] == b[i - n] && all[i - 1] == b[i - 1 - n];
    }
  }

  /** Two accepted batches of one stream join exactly when they abut and the limits still hold. */
  lemma JoinAccepted(a: InvalidationBatch, b: InvalidationBatch)
    requires BatchVerdict(a).Pass? && BatchVerdict(b).Pass?
    requires a.streamId == b.streamId && a.hubGeneration == b.hubGeneration
    ensures BatchVerdict(a.(events := a.events + b.events)).Pass? <==>
      b.events != [] && a.events != []
      && b.events[0].streamSequence == a.events[|a.events| - 1].streamSequence + 1
      && |a.events| + |b.events| <= MAX_BATCH_EVENTS
      && EstimatedSize(a.events) + EstimatedSize(b.events) <= MAX_CONTROL_MESSAGE_BYTES + CONTROL_MESSAGE_OVERHEAD
  {
    hide BatchVerdict, Run, EstimatedSize;
    AcceptedIsRunThatFits(a);
    AcceptedIsRunThatFits(b);
    AcceptedIsRunThatFits(a.(events := a.events + b.events));
    JoinOfRuns(a.events, b.events, a.streamId);
    SizeOfJoin(a.events, b.events);
  }

  // ---------- Cutting a run ----------

  function Concat(pieces: seq<seq<Event>>): seq<Event> {
    if |pieces| == 0 then [] else pieces[0] + Concat(pieces[1..])
  }

  /** Pieces that each travel as an accepted batch, and together are the run. */
  predicate IsCut(pieces: seq<seq<Event>>, events: seq<Event>, streamId: U32, generation: U64) {
    && Concat(pieces) == events
    && forall p | p in pieces :: BatchVerdict(InvalidationBatch(streamId, generation, p)).Pass?
  }

  /** The length of the longest prefix, of at most n events, that fits one batch. */
  function LongestFit(events: seq<Event>, n: nat): (k: nat)
    requires n <= |events|
    ensures k <= n
    ensures k > 0 ==> Fits(events[..k])
    ensures forall j | k < j <= n :: !Fits(events[..j])
    decreases n
  {
    if n == 0 || Fits(events[..n]) then n else LongestFit(events, n - 1)
  }

  lemma FirstEventFits(events: seq<Event>, streamId: U32)
    requires events != [] && Run(events, streamId)
    ensures 0 < LongestFit(events, |events|)
  {
    assert events[0] in events;
    assert EstimatedSize(events[..1]) == CONTROL_MESSAGE_OVERHEAD + EVENT_ENCODED_OVERHEAD + |events[0].key| by {
      assert events[..1][..0] == [];
    }
    assert Fits(events[..1]);
  }

  /** Fill each batch as far as it goes. */
  function GreedyCut(events: seq<Event>, streamId: U32): (pieces: seq<seq<Event>>)
    requires Run(events, streamId)
    decreases |events|
  {
    if events == [] then []
    else
      var k := LongestFit(events, |events|);
      FirstEventFits(events, streamId);
      SuffixOfRun(events, streamId, k);
      [events[..k]] + GreedyCut(events[k..], streamId)
  }

  lemma FirstPieceAccepted(events: seq<Event>, streamId: U32, generation: U64)
    requires Run(events, streamId) && generation != 0 && events != []
    ensures var k := LongestFit(events, |events|);
      0 < k && BatchVerdict(InvalidationBatch(streamId, generation, events[..k])).Pass?
  {
    hide BatchVerdict, Run, Fits, LongestFit;
    var k := LongestFit(events, |events|);
    FirstEventFits(events, streamId);
    SliceOfRun(events, streamId, 0, k);
    assert events[0..k] == events[..k];
    AcceptedIsRunThatFits(InvalidationBatch(streamId, generation, events[..k]));
  }

  /** Any contiguous run of valid events can be cut into accepted batches. */
  lemma {:induction false} GreedyCutIsCut(events: seq<Event>, streamId: U32, generation: U64)
    requires Run(events, streamId) && generation != 0
    ensures IsCut(GreedyCut(events, streamId), events, streamId, generation)
    decreases |events|
  {
    hide Run, LongestFit, BatchVerdict;
    if events != [] {
      var k := LongestFit(events, |events|);
      FirstPieceAccepted(events, streamId, generation);
      SuffixOfRun(events, streamId, k);
      GreedyCutIsCut(events[k..], streamId, generation);
      var pieces := GreedyCut(events, streamId);
      assert pieces[1..] == GreedyCut(events[k..], streamId);
      assert Concat(pieces) == events[..k] + events[k..] == events;
      assert forall p | p in pieces :: p == events[..k] || p in pieces[1..];
    }
  }

  lemma {:induction false} GreedyCutOfSuffix(events: seq<Event>, streamId: U32, d: nat)
    requires Run(events, streamId) && d <= |events|
    ensures Run(events[d..], streamId)
    ensures |GreedyCut(events[d..], streamId)| <= |GreedyCut(events, streamId)|
    decreases |events|
  {
    hide Run, Fits, LongestFit;
    SuffixOfRun(events, streamId, d);
    var rest := events[d..];
    if rest != [] && d > 0 {
      var k, k' := LongestFit(events, |events|), LongestFit(rest, |rest|);
      FirstEventFits(events, streamId);
      FirstEventFits(rest, streamId);
      SuffixOfRun(events, streamId, k);
      if k <= d {
        GreedyCutOfSuffix(events[k..], streamId, d - k);
        assert events[k..][d - k..] == rest;
      } else {
        SliceFits(events[..k], d, k);
        assert events[..k][d..k] == rest[..k - d];
        assert k - d <= k';
        GreedyCutOfSuffix(events[k..], streamId, d + k' - k);
        assert events[k..][d + k' - k..] == rest[k'..];
      }
    } else if d == 0 {
      assert rest == events;
    }
  }

  /** No cut of the run into accepted batches is shorter than the greedy one. */
  lemma {:induction false} GreedyCutIsShortest(
    pieces: seq<seq<Event>>, events: seq<Event>, streamId: U32, generation: U64)
    requires Run(events, streamId) && IsCut(pieces, events, streamId, generation)
    ensures |GreedyCut(events, streamId)| <= |pieces|
    decreases |pieces|
  {
    hide Run, Fits, LongestFit, BatchVerdict;
    if events != [] {
      var j, k := |pieces[0]|, LongestFit(events, |events|);
      assert pieces[0] in pieces;
      AcceptedIsRunThatFits(InvalidationBatch(streamId, generation, pieces[0]));
      assert events[..j] == pieces[0] && events[j..] == Concat(pieces[1..]);
      SuffixOfRun(events, streamId, j);
      GreedyCutIsShortest(pieces[1..], events[j..], streamId, generation);
      FirstEventFits(events, streamId);
      SuffixOfRun(events, streamId, k);
      GreedyCutOfSuffix(events[j..], streamId, k - j);
      assert events[j..][k - j..] == events[k..];
    }
  }
}
