/** The request queues of a channel: bins are split in place, chunks leave in order, the counters stay exact. */
module Queues {
  import opened Powers
  import opened Bins
  import opened Ranges
  import opened BinMaps
  import opened Queries

  /** A tintbin: a bin and when it was requested. */
  datatype Hint = Hint(bin: Bin, time: int)

  /** A requested chunk. */
  datatype Piece = Piece(chunk: nat, time: int)

  const SECOND := 1000000

  /** The chunks of a hint, in order, each with the time of the hint. */
  function PiecesOf(h: Hint): (s: seq<Piece>)
    ensures |s| == P(h.bin.layer)
  {
    seq(P(h.bin.layer), i requires 0 <= i => Piece(h.bin.base + i, h.time))
  }

  /** A queue flattened to its chunks. */
  function Pieces(q: seq<Hint>): seq<Piece> {
    if q == [] then [] else PiecesOf(q[0]) + Pieces(q[1..])
  }

  lemma {:induction false} PiecesJoin(a: seq<Hint>, b: seq<Hint>)
    ensures Pieces(a + b) == Pieces(a) + Pieces(b)
    decreases |a|
  {
    hide PiecesOf;
    if a == [] {
      assert a + b == b;
    } else {
      PiecesJoin(a[1..], b);
      assert (a + b)[1..] == a[1..] + b;
      assert PiecesOf(a[0]) + (Pieces(a[1..]) + Pieces(b)) == PiecesOf(a[0]) + Pieces(a[1..]) + Pieces(b);
    }
  }

  lemma PiecesFront(h: Hint, q: seq<Hint>)
    ensures Pieces([h] + q) == PiecesOf(h) + Pieces(q)
  {
    assert ([h] + q)[1..] == q;
  }

  lemma PiecesBack(q: seq<Hint>, h: Hint)
    ensures Pieces(q + [h]) == Pieces(q) + PiecesOf(h)
  {
    hide PiecesOf;
    PiecesJoin(q, [h]);
    PiecesFront(h, []);
    assert [h] + [] == [h];
    assert Pieces([]) == [];
    assert PiecesOf(h) + [] == PiecesOf(h);
  }

  lemma NoPieces()
    ensures Pieces([]) == []
  {
  }

  /** Splitting a hint keeps its chunks in order. */
  lemma SplitHint(h: Hint)
    requires h.bin.layer > 0
    ensures PiecesOf(h) == PiecesOf(Hint(h.bin.Left(), h.time)) + PiecesOf(Hint(h.bin.Right(), h.time))
  {
  }

  /** Every bin of the queue is a real one. */
  predicate Sound(q: seq<Hint>) {
    forall k :: 0 <= k < |q| ==> q[k].bin.Ok()
  }

  /** The earlier of two moments: what is before it is before both. */
  function Min(a: int, b: int): (r: int)
    ensures r <= a && r <= b && (r == a || r == b)
  {
    if a < b then a else b
  }

  class Channel {
    var hintIn: seq<Hint>
    var hintInSize: nat
    var hintOut: seq<Hint>
    var hintOutSize: nat
    var queueOut: seq<Hint>
    var queueOutSize: nat
    var timedOut: seq<Hint>
    var lastRecv: int

    /** The three counters are the numbers of queued chunks. */
    ghost predicate Valid()
      reads this
    {
      Sound(hintIn) && hintInSize == |Pieces(hintIn)| &&
      Sound(hintOut) && hintOutSize == |Pieces(hintOut)| &&
      Sound(queueOut) && queueOutSize == |Pieces(queueOut)| &&
      forall k :: 0 <= k < |timedOut| ==> timedOut[k].bin == NONE || timedOut[k].bin.Ok()
    }

    constructor ()
      ensures Valid() && hintIn == hintOut == queueOut == timedOut == [] && lastRecv == 0
    {
      hintIn, hintInSize, hintOut, hintOutSize, queueOut, queueOutSize := [], 0, [], 0, [], 0;
      timedOut, lastRecv := [], 0;
    }

    /** OnHint: a request goes to the end. */
    method OnHint(bin: Bin, now: int)
      requires Valid() && bin.Ok()
      modifies this`hintIn, this`hintInSize
      ensures Valid() && hintIn == old(hintIn) + [Hint(bin, now)] && Pieces(hintIn) == old(Pieces(hintIn)) + PiecesOf(Hint(bin, now))
    {
      PiecesBack(hintIn, Hint(bin, now));
      hintIn := hintIn + [Hint(bin, now)];
      hintInSize := hintInSize + P(bin.layer);
    }

    /** Takes the front request of the peer off its queue. */
    method PopIn() returns (front: Hint)
      requires Valid() && hintIn != []
      modifies this`hintIn, this`hintInSize
      ensures Valid() && front == old(hintIn)[0] && hintIn == old(hintIn)[1..] && front.bin.Ok()
      ensures old(Pieces(hintIn)) == PiecesOf(front) + Pieces(hintIn)
    {
      front := hintIn[0];
      PiecesFront(front, hintIn[1..]);
      assert hintIn == [front] + hintIn[1..];
      hintInSize := hintInSize - P(front.bin.layer);
      hintIn := hintIn[1..];
    }

    /** Puts the right halves of a request back until a single chunk is left in front. */
    method PeelFirst(front: Hint) returns (hint: Bin)
      requires Valid() && front.bin.Ok()
      modifies this`hintIn, this`hintInSize
      ensures Valid() && hint.Ok() && hint.layer == 0
      ensures PiecesOf(front) + old(Pieces(hintIn)) == [Piece(hint.base, front.time)] + Pieces(hintIn)
    {
      hide PiecesOf, Pieces, P, Aligned;
      hint := front.bin;
      while hint.layer != 0
        invariant Valid() && hint.Ok()
        invariant PiecesOf(front) + old(Pieces(hintIn)) == PiecesOf(Hint(hint, front.time)) + Pieces(hintIn)
        decreases hint.layer
      {
        HalvesOk(hint);
        SplitHint(Hint(hint, front.time));
        PushIn(Hint(hint.Right(), front.time));
        hint := hint.Left();
      }
      OnePiece(hint, front.time);
    }

    method PushIn(h: Hint)
      requires Valid() && h.bin.Ok()
      modifies this`hintIn, this`hintInSize
      ensures Valid() && hintIn == [h] + old(hintIn) && Pieces(hintIn) == PiecesOf(h) + old(Pieces(hintIn))
    {
      PiecesFront(h, hintIn);
      hintIn := [h] + hintIn;
      hintInSize := hintInSize + P(h.bin.layer);
    }

    /** The first loop of DequeueHint: up to the first timed-out entry that was not acknowledged meanwhile; it may be a cleared one. */
    method DequeueTimedOut(ack: BinMap) returns (send: Bin, retransmit: bool)
      requires Valid() && ack.Valid()
      modifies this`timedOut
      ensures Valid() && Resent(old(timedOut), timedOut, send, retransmit, ack)
    {
      hide BinMap.Valid, BinMap.Has, AllFilled, PiecesOf, Pieces, P, Aligned, Bin.Ok, Resent;
      ghost var q, n := timedOut, 0;
      while timedOut != []
        invariant Valid() && n <= |q| && timedOut == q[n..]
        invariant forall k :: 0 <= k < n ==> Arrived(q[k].bin, ack)
        decreases |timedOut|
      {
        DropOne(q, n);
        var tb := timedOut[0];
        timedOut := timedOut[1..];
        var filled := IsFilledBin(ack, tb.bin);
        if !filled {
          FirstTaken(q, n, ack);
          return tb.bin, true;
        }
        n := n + 1;
      }
      NoneTaken(q, ack);
      send, retransmit := NONE, false;
    }

    /** The second loop: the first chunk requested that is neither expired nor acknowledged. */
    method DequeueIn(ack: BinMap, deadline: int) returns (send: Bin, ghost skipped: nat)
      requires Valid() && ack.Valid()
      modifies this`hintIn, this`hintInSize
      ensures Valid() && Served(old(Pieces(hintIn)), Pieces(hintIn), skipped, send, ack, deadline)
    {
      hide BinMap.Valid, BinMap.Has, PiecesOf, Pieces, P, Aligned;
      ghost var ps := Pieces(hintIn);
      send, skipped := NONE, 0;
      while hintIn != []
        invariant Valid() && skipped <= |ps| && Pieces(hintIn) == ps[skipped..]
        invariant forall i :: 0 <= i < skipped ==> Stale(ps[i], ack, deadline)
        decreases |ps| - skipped
      {
        var front := PopIn();
        AllStale(front, ack, deadline);
        if front.time < deadline {
          SuffixPart(ps, skipped, PiecesOf(front), Pieces(hintIn));
          skipped := skipped + |PiecesOf(front)|;
          continue;
        }
        var hint := PeelFirst(front);
        SuffixPart(ps, skipped, [Piece(hint.base, front.time)], Pieces(hintIn));
        OneChunk(ack, hint);
        var filled := IsFilledBin(ack, hint);
        if !filled {
          return hint, skipped;
        }
        skipped := skipped + 1;
      }
      NothingLeft(hintIn);
    }

    /** DequeueHint: nothing after a long silence; else a timed-out chunk again, or the first request worth serving. */
    method DequeueHint(ack: BinMap, now: int, rtt: nat) returns (send: Bin, retransmit: bool, ghost again: Bin, ghost skipped: nat)
      requires Valid() && ack.Valid()
      modifies this`hintIn, this`hintInSize, this`timedOut
      ensures Valid()
      ensures lastRecv < now - 3 * SECOND ==> send == NONE && !retransmit && hintIn == old(hintIn) && timedOut == old(timedOut)
      ensures lastRecv >= now - 3 * SECOND ==> Resent(old(timedOut), timedOut, again, retransmit, ack)
      ensures lastRecv >= now - 3 * SECOND ==>
        if again != NONE then send == again && hintIn == old(hintIn)
        else Served(old(Pieces(hintIn)), Pieces(hintIn), skipped, send, ack, Min(now - SECOND * 3 / 2, now - 4 * rtt))
      ensures retransmit && again == NONE <==> lastRecv >= now - 3 * SECOND && old(ClearedFirst(timedOut, ack))
    {
      hide BinMap.Valid, BinMap.Has, PiecesOf, Pieces, P, Aligned, Served, Resent;
      send, retransmit, again, skipped := NONE, false, NONE, 0;
      if lastRecv < now - 3 * SECOND {
        return;
      }
      send, retransmit := DequeueTimedOut(ack);
      again := send;
      ResentNothing(old(timedOut), timedOut, again, retransmit, ack);
      if send == NONE {
        send, skipped := DequeueIn(ack, Min(now - SECOND * 3 / 2, now - 4 * rtt));
      }
    }

    /** Takes the front bin off the requests to be sent. */
    method PopQueue() returns (front: Hint)
      requires Valid() && queueOut != []
      modifies this`queueOut, this`queueOutSize
      ensures Valid() && front == old(queueOut)[0] && queueOut == old(queueOut)[1..] && front.bin.Ok()
      ensures old(Pieces(queueOut)) == PiecesOf(front) + Pieces(queueOut)
    {
      front := queueOut[0];
      PiecesFront(front, queueOut[1..]);
      assert queueOut == [front] + queueOut[1..];
      queueOutSize := queueOutSize - P(front.bin.layer);
      queueOut := queueOut[1..];
    }

    method PushQueue(h: Hint)
      requires Valid() && h.bin.Ok()
      modifies this`queueOut, this`queueOutSize
      ensures Valid() && queueOut == [h] + old(queueOut) && Pieces(queueOut) == PiecesOf(h) + old(Pieces(queueOut))
    {
      PiecesFront(h, queueOut);
      queueOut := [h] + queueOut;
      queueOutSize := queueOutSize + P(h.bin.layer);
    }

    /** One round of the first loop: a front bin that is not empty loses its leading filled part, if it has one; what is
        left of it are right halves, behind its first chunk if that is not held. */
    method DropHeld(own: BinMap) returns (ghost held: seq<Piece>, ghost kept: seq<Hint>)
      requires Valid() && own.Valid() && queueOut != [] && !AllEmpty(own, queueOut[0].bin)
      modifies this`queueOut, this`queueOutSize
      ensures Valid() && old(Pieces(queueOut)) == held + Pieces(queueOut)
      ensures forall i :: 0 <= i < |held| ==> own.Has(held[i].chunk)
      ensures queueOut == kept + old(queueOut)[1..]
      ensures forall k :: 0 <= k < |kept| ==> Sliver(kept[k], old(queueOut)[0]) && (held != [] || k > 0 ==> !kept[k].bin.IsLeft())
      ensures held == [] ==> kept != [] && kept[0].bin == Bin(0, old(queueOut)[0].bin.base) && AllEmpty(own, kept[0].bin)
      ensures held == [] ==> old(queueOut)[0].bin.layer > 0
    {
      hide BinMap.Valid, BinMap.Has, PiecesOf, Pieces, P, Aligned, Bin.IsLeft;
      var tb := PopQueue();
      var bin := tb.bin;
      var filled := IsFilledBin(own, bin);
      if bin.layer == 0 {
        SomeChunk(own, bin);
      }
      kept := [];
      while bin.layer != 0 && !filled
        invariant Valid() && bin.Ok() && (filled <==> AllFilled(own, bin)) && bin.base == tb.bin.base && bin.End() <= tb.bin.End()
        invariant old(Pieces(queueOut)) == PiecesOf(Hint(bin, tb.time)) + Pieces(queueOut)
        invariant queueOut == kept + old(queueOut)[1..]
        invariant forall k :: 0 <= k < |kept| ==> Sliver(kept[k], tb) && !kept[k].bin.IsLeft()
        invariant tb.bin.layer == 0 ==> bin == tb.bin
        decreases bin.layer
      {
        HalvesOk(bin);
        RightHalf(bin);
        SplitHint(Hint(bin, tb.time));
        PushQueue(Hint(bin.Right(), tb.time));
        kept := [Hint(bin.Right(), tb.time)] + kept;
        bin := bin.Left();
        filled := IsFilledBin(own, bin);
      }
      held := PiecesOf(Hint(bin, tb.time));
      HeldPieces(Hint(bin, tb.time), own);
      var empty := IsEmptyBin(own, bin);
      if empty {
        FilledNotEmpty(own, bin);
        PushQueue(Hint(bin, tb.time));
        kept := [Hint(bin, tb.time)] + kept;
        held := [];
      }
    }

    /** The first loop of DequeueHintOut: the leading chunks that are held, and no more. */
    method DropFirst(own: BinMap) returns (ghost m: nat, ghost frags: seq<Hint>, ghost h: nat)
      requires Valid() && own.Valid()
      modifies this`queueOut, this`queueOutSize
      ensures Valid() && HeldUpTo(old(Pieces(queueOut)), m, own) && Pieces(queueOut) == old(Pieces(queueOut))[m..]
      ensures From(queueOut, old(queueOut), frags, h)
      ensures queueOut != [] ==> Leading(queueOut[0], old(queueOut)[if frags == [] then h else h - 1], own)
    {
      hide BinMap.Valid, BinMap.Has, PiecesOf, Pieces, P, Aligned, Bin.IsLeft, AllEmpty, Leading, Fronted, From, Sliver;
      ghost var q, ps := queueOut, Pieces(queueOut);
      m, frags, h := 0, [], 0;
      Untouched(q, own);
      while queueOut != []
        invariant Valid() && m <= |ps| && Pieces(queueOut) == ps[m..]
        invariant forall i :: 0 <= i < m ==> own.Has(ps[i].chunk)
        invariant Fronted(queueOut, q, frags, h, own)
        decreases |ps| - m, queueOut != [] && !AllEmpty(own, queueOut[0].bin)
      {
        var empty := IsEmptyBin(own, queueOut[0].bin);
        if empty {
          FirstPiece(queueOut, own);
          break;
        }
        ghost var was := queueOut;
        ghost var held, kept := DropHeld(own);
        SuffixPart(ps, m, held, Pieces(queueOut));
        FrontedStep(was, queueOut, q, frags, h, held, kept, own);
        m := m + |held|;
        frags, h := if frags == [] then kept else kept + frags[1..], if frags == [] then h + 1 else h;
      }
      FrontedEnd(queueOut, q, frags, h, own);
      NothingLeft(queueOut);
    }

    /** The second loop: whole requests that are too old, up to one that is not. */
    method DropExpired(deadline: int, ghost q: seq<Hint>, ghost from: seq<Hint>, ghost start: nat)
      returns (ghost d: nat, ghost frags: seq<Hint>, ghost h: nat)
      requires Valid() && From(queueOut, q, from, start)
      modifies this`queueOut, this`queueOutSize
      ensures Valid() && d <= |old(Pieces(queueOut))| && Pieces(queueOut) == old(Pieces(queueOut))[d..]
      ensures forall i :: 0 <= i < d ==> old(Pieces(queueOut))[i].time < deadline
      ensures queueOut != [] ==> queueOut[0].time >= deadline
      ensures From(queueOut, q, frags, h) && (d == 0 ==> queueOut == old(queueOut) && frags == from && h == start)
      ensures d > 0 && queueOut != [] ==> frags == []
    {
      hide PiecesOf, Pieces, P, Aligned, Bin.IsLeft;
      ghost var ps := Pieces(queueOut);
      d, frags, h := 0, from, start;
      while queueOut != [] && queueOut[0].time < deadline
        invariant Valid() && d <= |ps| && Pieces(queueOut) == ps[d..] && From(queueOut, q, frags, h)
        invariant forall i :: 0 <= i < d ==> ps[i].time < deadline
        invariant d == 0 ==> queueOut == old(queueOut) && frags == from && h == start
        invariant d > 0 && frags != [] ==> q[h - 1].time < deadline
        decreases |queueOut|
      {
        FromPop(queueOut, q, frags, h);
        ghost var o := q[if frags == [] then h else h - 1];
        var front := PopQueue();
        Expired(front);
        SuffixPart(ps, d, PiecesOf(front), Pieces(queueOut));
        d := d + |PiecesOf(front)|;
        if frags == [] {
          h := h + 1;
        } else {
          frags := frags[1..];
        }
      }
    }

    /** Both loops: dropped are exactly the leading chunks that are held, and then those of requests that are too old. */
    method DropLeading(own: BinMap, deadline: int) returns (ghost dropped: nat, ghost m: nat, ghost frags: seq<Hint>, ghost h: nat)
      requires Valid() && own.Valid()
      modifies this`queueOut, this`queueOutSize
      ensures Valid() && DroppedTo(old(Pieces(queueOut)), m, dropped, own, deadline)
      ensures Pieces(queueOut) == old(Pieces(queueOut))[dropped..]
      ensures From(queueOut, old(queueOut), frags, h)
      ensures queueOut != [] ==> AtFront(queueOut[0], old(queueOut)[if frags == [] then h else h - 1], dropped > m, own)
    {
      hide BinMap.Valid, BinMap.Has, PiecesOf, Pieces, P, Aligned, Bin.IsLeft, AllEmpty, Leading;
      ghost var ps, q := Pieces(queueOut), queueOut;
      m, frags, h := DropFirst(own);
      ghost var mid := Pieces(queueOut);
      ghost var d;
      d, frags, h := DropExpired(deadline, q, frags, h);
      dropped := m + d;
      assert forall i :: m <= i < dropped ==> ps[i] == mid[i - m];
      assert ps[m..][d..] == ps[dropped..];
      if queueOut != [] {
        HeadPiece(queueOut);
        assert ps[dropped] == ps[dropped..][0];
      }
      NothingLeft(queueOut);
    }

    /** One round of the last loop: the front bin becomes its two halves. */
    method HalveFront() returns (ghost right: Hint)
      requires Valid() && queueOut != [] && queueOut[0].bin.layer > 0
      modifies this`queueOut, this`queueOutSize
      ensures Valid() && Pieces(queueOut) == old(Pieces(queueOut))
      ensures var f := old(queueOut)[0];
        queueOut == [Hint(f.bin.Left(), f.time), right] + old(queueOut)[1..] && P(f.bin.layer) == 2 * P(f.bin.Left().layer)
      ensures queueOut[0].bin.base == old(queueOut)[0].bin.base && queueOut[0].bin.layer == old(queueOut)[0].bin.layer - 1
    {
      hide PiecesOf, Pieces, P, Aligned, Bin.IsLeft;
      HalvesOk(queueOut[0].bin);
      HalfLength(queueOut[0].bin);
      var ret := PopQueue();
      SplitHint(ret);
      right := Hint(ret.bin.Right(), ret.time);
      PushQueue(Hint(ret.bin.Right(), ret.time));
      PushQueue(Hint(ret.bin.Left(), ret.time));
    }

    /** The last loop: the front bin is halved until its first part is no longer than size. */
    method HalveDown(size: nat) returns (ghost kept: seq<Hint>)
      requires Valid() && queueOut != [] && size >= 1
      modifies this`queueOut, this`queueOutSize
      ensures Valid() && Pieces(queueOut) == old(Pieces(queueOut)) && queueOut != []
      ensures queueOut == [queueOut[0]] + kept + old(queueOut)[1..]
      ensures Biggest(queueOut[0].bin, old(queueOut)[0].bin, size)
    {
      hide PiecesOf, Pieces, P, Aligned, Bin.IsLeft;
      kept := [];
      ghost var rest := queueOut[1..];
      while P(queueOut[0].bin.layer) > size
        invariant Valid() && queueOut != [] && Pieces(queueOut) == old(Pieces(queueOut))
        invariant queueOut == [queueOut[0]] + kept + rest
        invariant queueOut[0].bin.base == old(queueOut)[0].bin.base && queueOut[0].bin.layer <= old(queueOut)[0].bin.layer
        invariant queueOut[0].bin == old(queueOut)[0].bin || 2 * P(queueOut[0].bin.layer) > size
        decreases queueOut[0].bin.layer
      {
        LongBin(queueOut[0].bin, size);
        ghost var right := HalveFront();
        kept := [right] + kept;
      }
    }

    /** DequeueHintOut: leading chunks that are held or too old are dropped; of the bin then in front, as much is requested
        as the size allows. */
    method DequeueHintOut(own: BinMap, size: nat, now: int) returns (res: Bin, ghost dropped: nat, ghost m: nat, ghost front: Hint, ghost j: nat)
      requires Valid() && own.Valid() && size >= 1
      modifies this`queueOut, this`queueOutSize
      ensures Valid() && DroppedTo(old(Pieces(queueOut)), m, dropped, own, now - SECOND * 3 / 2)
      ensures Requested(old(Pieces(queueOut)), Pieces(queueOut), dropped, res)
      ensures res != NONE ==> j < |old(queueOut)| && AtFront(front, old(queueOut)[j], dropped > m, own)
      ensures res != NONE ==> Biggest(res, front.bin, size) && |queueOut| >= |old(queueOut)| - j - 1
      ensures res != NONE ==> queueOut[|queueOut| - (|old(queueOut)| - j - 1)..] == old(queueOut)[j + 1..]
    {
      hide BinMap.Valid, BinMap.Has, PiecesOf, Pieces, P, Aligned, Bin.IsLeft, AllEmpty, AtFront, From, Biggest;
      ghost var ps, frags, h := Pieces(queueOut), [], 0;
      front, j := Hint(NONE, 0), 0;
      dropped, m, frags, h := DropLeading(own, now - SECOND * 3 / 2);
      NothingLeft(queueOut);
      if queueOutSize == 0 {
        return NONE, dropped, m, front, j;
      }
      FromRest(queueOut, old(queueOut), frags, h);
      front, j := queueOut[0], if frags == [] then h else h - 1;
      ghost var kept := HalveDown(size);
      var top := PopQueue();
      SuffixPart(ps, dropped, PiecesOf(top), Pieces(queueOut));
      PieceCount(top);
      res := top.bin;
    }

    /** Drops the hints before the first one that contains the chunk received. */
    method DropSkipped(hi: nat)
      requires Valid() && hi <= |hintOut|
      modifies this`hintOut, this`hintOutSize
      ensures Valid() && hintOut == old(hintOut)[hi..]
    {
      hide PiecesOf, Pieces, P, Aligned;
      var n := 0;
      while n < hi
        invariant 0 <= n <= hi && Valid() && hintOut == old(hintOut)[n..]
      {
        PiecesFront(hintOut[0], hintOut[1..]);
        assert hintOut == [hintOut[0]] + hintOut[1..];
        PieceCount(hintOut[0]);
        hintOutSize := hintOutSize - P(hintOut[0].bin.layer);
        hintOut := hintOut[1..];
        n := n + 1;
      }
    }

    /** Takes the front hint off the queue. */
    method PopOut() returns (front: Hint)
      requires Valid() && hintOut != []
      modifies this`hintOut, this`hintOutSize
      ensures Valid() && front == old(hintOut)[0] && hintOut == old(hintOut)[1..]
    {
      front := hintOut[0];
      PiecesFront(front, hintOut[1..]);
      assert hintOut == [front] + hintOut[1..];
      hintOutSize := hintOutSize - P(front.bin.layer);
      hintOut := hintOut[1..];
    }

    /** Splits the front hint: the half with pos comes first, then the other half. */
    method SplitFront(pos: Bin)
      requires Valid() && pos.Ok() && hintOut != [] && hintOut[0].bin != pos
      requires hintOut[0].bin.base <= pos.base && pos.End() <= hintOut[0].bin.End()
      modifies this`hintOut, this`hintOutSize
      ensures Valid() && |hintOut| == |old(hintOut)| + 1 && hintOut[2..] == old(hintOut)[1..]
      ensures hintOut[0].bin.base <= pos.base && pos.End() <= hintOut[0].bin.End()
      ensures hintOut[0].time == hintOut[1].time == old(hintOut)[0].time
      ensures Halves(old(hintOut)[0].bin, hintOut[0].bin, hintOut[1].bin)
      ensures hintOut[0].bin.layer < old(hintOut)[0].bin.layer
    {
      hide PiecesOf, Pieces, P, Aligned, Bin.V;
      var f := hintOut[0];
      Direction(f.bin, pos);
      HalvesOk(f.bin);
      var half := if pos.V() < f.bin.V() then f.bin.Left() else f.bin.Right();
      var other := if pos.V() < f.bin.V() then f.bin.Right() else f.bin.Left();
      SplitLengths(f, half, other, hintOut[1..]);
      assert hintOut == [f] + hintOut[1..];
      hintOut := [Hint(half, f.time)] + [Hint(other, f.time)] + hintOut[1..];
    }

    /** Splits the front hint around pos until it is pos, and takes it off. */
    method CutFront(pos: Bin) returns (ghost kept: seq<Hint>)
      requires Valid() && pos.Ok() && hintOut != [] && hintOut[0].bin.base <= pos.base && pos.End() <= hintOut[0].bin.End()
      modifies this`hintOut, this`hintOutSize
      ensures Valid() && hintOut == kept + old(hintOut)[1..] && CutOut(old(hintOut)[0], pos, kept)
    {
      hide PiecesOf, Pieces, P, Aligned, Bin.Contains, CutOut, Bin.V, Halves;
      ghost var orig, rest := hintOut[0], hintOut[1..];
      kept := [];
      CutNothing(orig);
      while hintOut[0].bin != pos
        invariant Valid() && hintOut != [] && hintOut[0].bin.base <= pos.base && pos.End() <= hintOut[0].bin.End()
        invariant hintOut[1..] == kept + rest && CutOut(orig, hintOut[0].bin, kept) && hintOut[0].time == orig.time
        decreases hintOut[0].bin.layer
      {
        ghost var f := hintOut[0];
        SplitFront(pos);
        CutFurther(orig, f, hintOut[0].bin, hintOut[1].bin, kept);
        kept := [Hint(hintOut[1].bin, f.time)] + kept;
      }
      var front := PopOut();
    }

    /** CleanHintOut: the hints before the one that holds pos are given up, and pos is cut out of that one. */
    method CleanHintOut(pos: Bin) returns (ghost hi: nat, ghost kept: seq<Hint>)
      requires Valid() && pos.Ok()
      modifies this`hintOut, this`hintOutSize
      ensures Valid() && hi <= |old(hintOut)|
      ensures forall k :: 0 <= k < hi ==> !old(hintOut)[k].bin.Contains(pos)
      ensures hi == |old(hintOut)| ==> hintOut == old(hintOut)
      ensures hi < |old(hintOut)| ==> old(hintOut)[hi].bin.Contains(pos)
      ensures hi < |old(hintOut)| ==> CutOut(old(hintOut)[hi], pos, kept) && hintOut == kept + old(hintOut)[hi + 1..]
    {
      hide PiecesOf, Pieces, P, Aligned, Bin.Contains, CutOut;
      var found := 0;
      while found < |hintOut| && !hintOut[found].bin.Contains(pos)
        invariant 0 <= found <= |hintOut|
        invariant forall k :: 0 <= k < found ==> !hintOut[k].bin.Contains(pos)
      {
        found := found + 1;
      }
      hi, kept := found, [];
      if found == |hintOut| {
        return;
      }
      ContainsMeaning(hintOut[found].bin, pos);
      DropSkipped(found);
      kept := CutFront(pos);
    }

    /** Erases one request. */
    method EraseIn(hi: nat)
      requires Valid() && hi < |hintIn|
      modifies this`hintIn, this`hintInSize
      ensures Valid() && hintIn == old(hintIn)[..hi] + old(hintIn)[hi + 1..]
    {
      hide PiecesOf;
      var pre, post := hintIn[..hi], hintIn[hi + 1..];
      ErasedSize(hintIn, hi);
      hintInSize := hintInSize - P(hintIn[hi].bin.layer);
      hintIn := pre + post;
    }

    /** Inserts a request. */
    method InsertIn(hi: nat, h: Hint)
      requires Valid() && hi <= |hintIn| && h.bin.Ok()
      modifies this`hintIn, this`hintInSize
      ensures Valid() && hintIn == old(hintIn)[..hi] + [h] + old(hintIn)[hi..]
    {
      hide PiecesOf;
      var q := hintIn[..hi] + [h] + hintIn[hi..];
      ErasedSize(q, hi);
      assert q[..hi] + q[hi + 1..] == hintIn;
      hintInSize := hintInSize + P(h.bin.layer);
      hintIn := q;
    }

    /** OnCancel, first part: the first run of requests inside the cancelled bin is erased. */
    method EraseRun(cancel: Bin) returns (ghost a: nat, ghost b: nat)
      requires Valid() && cancel.Ok()
      modifies this`hintIn, this`hintInSize
      ensures Valid() && RunIn(old(hintIn), cancel, a, b) && hintIn == old(hintIn)[..a] + old(hintIn)[b..]
    {
      hide PiecesOf, Pieces, P, Aligned, Bin.Contains;
      ghost var q := hintIn;
      var hi := 0;
      while hi < |hintIn| && !cancel.Contains(hintIn[hi].bin) && cancel != hintIn[hi].bin
        invariant 0 <= hi <= |hintIn| && forall k :: 0 <= k < hi ==> !cancel.Contains(hintIn[k].bin)
      {
        hi := hi + 1;
      }
      a, b := hi, hi;
      assert hintIn == q[..a] + q[b..];
      if hi != |hintIn| {
        SelfContained(cancel);
        while true
          invariant Valid() && hi == a <= b < |q| && hintIn == q[..a] + q[b..] && cancel.Contains(q[b].bin)
          invariant forall k :: a <= k < b ==> cancel.Contains(q[k].bin)
          decreases |q| - b
        {
          EraseIn(hi);
          assert hintIn == q[..a] + q[b + 1..];
          b := b + 1;
          if |hintIn| == 0 || hi >= |hintIn| {
            break;
          }
          assert hintIn[hi] == q[b];
          if !cancel.Contains(hintIn[hi].bin) {
            break;
          }
        }
      }
    }

    /** OnCancel, second part: the first request around the cancelled bin is replaced by base bins for the rest of it. */
    method FragmentAround(cancel: Bin) returns (ghost h: nat)
      requires Valid() && cancel.Ok()
      modifies this`hintIn, this`hintInSize
      ensures Valid() && h <= |old(hintIn)|
      ensures forall k :: 0 <= k < h ==> !old(hintIn)[k].bin.Contains(cancel)
      ensures h == |old(hintIn)| ==> hintIn == old(hintIn)
      ensures h < |old(hintIn)| ==> FragmentedAt(old(hintIn), Pieces(hintIn), h, cancel)
    {
      hide PiecesOf, Pieces, P, Aligned, Bin.Contains, Without;
      ghost var q := hintIn;
      var hi := 0;
      while hi < |hintIn| && !hintIn[hi].bin.Contains(cancel)
        invariant 0 <= hi <= |hintIn| && forall k :: 0 <= k < hi ==> !hintIn[k].bin.Contains(cancel)
      {
        hi := hi + 1;
      }
      h := hi;
      if hi == |hintIn| {
        return;
      }
      var orig := hintIn[hi];
      ContainsMeaning(orig.bin, cancel);
      var frags := Fragment(orig.bin, cancel);
      EraseIn(hi);
      var idx := 0;
      while idx < |frags|
        invariant 0 <= idx <= |frags| && Valid()
        invariant hintIn == q[..hi] + Hints(frags[..idx], orig.time) + q[hi + 1..]
      {
        InsertIn(hi + idx, Hint(frags[idx], orig.time));
        assert frags[..idx + 1] == frags[..idx] + [frags[idx]];
        assert Hints(frags[..idx + 1], orig.time) == Hints(frags[..idx], orig.time) + [Hint(frags[idx], orig.time)];
        idx := idx + 1;
      }
      assert frags[..idx] == frags;
      FragmentPieces(orig, cancel, frags);
      PiecesJoin(q[..hi] + Hints(frags, orig.time), q[hi + 1..]);
      PiecesJoin(q[..hi], Hints(frags, orig.time));
    }

    /** OnCancel for one bin. */
    method OnCancel(cancel: Bin) returns (ghost a: nat, ghost b: nat, ghost h: nat)
      requires Valid() && cancel.Ok()
      modifies this`hintIn, this`hintInSize
      ensures Valid() && RunIn(old(hintIn), cancel, a, b)
      ensures var q := old(hintIn)[..a] + old(hintIn)[b..];
        h <= |q| && (forall k :: 0 <= k < h ==> !q[k].bin.Contains(cancel)) &&
        if h == |q| then hintIn == q else FragmentedAt(q, Pieces(hintIn), h, cancel)
    {
      hide PiecesOf, Pieces, P, Aligned, Bin.Contains, Without;
      a, b := EraseRun(cancel);
      h := FragmentAround(cancel);
    }
  }

  /** A request not worth serving: too old, or its chunk is known to have arrived. */
  ghost predicate Stale(p: Piece, ack: BinMap, deadline: int)
    reads ack
  {
    p.time < deadline || ack.Has(p.chunk)
  }

  /** Only stale requests were skipped; the next one is served if there is one; the rest stays. */
  ghost predicate Served(before: seq<Piece>, after: seq<Piece>, skipped: nat, send: Bin, ack: BinMap, deadline: int)
    reads ack
  {
    skipped <= |before| && (forall i :: 0 <= i < skipped ==> Stale(before[i], ack, deadline)) &&
    if send == NONE then skipped == |before| && after == []
    else skipped < |before| && send == Bin(0, before[skipped].chunk) && !Stale(before[skipped], ack, deadline) && after == before[skipped + 1..]
  }

  ghost predicate Arrived(b: Bin, ack: BinMap)
    reads ack
  {
    b != NONE && AllFilled(ack, b)
  }

  /** Acknowledged entries are gone; the first other one is taken, if there is one: a chunk to send again, or nothing. */
  ghost predicate Resent(before: seq<Hint>, after: seq<Hint>, send: Bin, found: bool, ack: BinMap)
    reads ack
  {
    var n := |before| - |after|;
    0 <= n && after == before[n..] &&
    if !found then after == [] && send == NONE && forall k :: 0 <= k < n ==> Arrived(before[k].bin, ack)
    else n > 0 && send == before[n - 1].bin && !Arrived(send, ack) && forall k :: 0 <= k < n - 1 ==> Arrived(before[k].bin, ack)
  }

  lemma DropOne<T>(q: seq<T>, n: nat)
    requires n < |q|
    ensures q[n..][0] == q[n] && q[n..][1..] == q[n + 1..]
  {
  }

  lemma FirstTaken(q: seq<Hint>, n: nat, ack: BinMap)
    requires n < |q| && !Arrived(q[n].bin, ack) && forall k :: 0 <= k < n ==> Arrived(q[k].bin, ack)
    ensures Resent(q, q[n + 1..], q[n].bin, true, ack)
  {
    hide Arrived;
    assert |q| - |q[n + 1..]| == n + 1;
  }

  lemma NoneTaken(q: seq<Hint>, ack: BinMap)
    requires forall k :: 0 <= k < |q| ==> Arrived(q[k].bin, ack)
    ensures Resent(q, [], NONE, false, ack)
  {
    hide Arrived;
    assert q[|q|..] == [];
  }

  /** The first entry not acknowledged meanwhile is a cleared one. */
  ghost predicate ClearedFirst(q: seq<Hint>, ack: BinMap)
    reads ack
  {
    exists k :: ClearedAt(q, k, ack)
  }

  ghost predicate ClearedAt(q: seq<Hint>, k: int, ack: BinMap)
    reads ack
  {
    0 <= k < |q| && q[k].bin == NONE && forall j :: 0 <= j < k ==> Arrived(q[j].bin, ack)
  }

  /** Nothing is there to send again, although an entry was found, exactly if that one is cleared. */
  lemma ResentNothing(before: seq<Hint>, after: seq<Hint>, send: Bin, found: bool, ack: BinMap)
    requires Resent(before, after, send, found, ack)
    ensures found && send == NONE <==> ClearedFirst(before, ack)
  {
    hide AllFilled;
    var n := |before| - |after|;
    if found && send == NONE {
      assert ClearedAt(before, n - 1, ack);
    }
    if ClearedFirst(before, ack) {
      var k :| ClearedAt(before, k, ack);
      assert !Arrived(before[k].bin, ack);
    }
  }

  /** A retransmission is reported, but what is sent is a chunk requested for the first time. */
  method ReportedOnly() returns (send: Bin, retransmit: bool)
    ensures retransmit && send == Bin(0, 5)
  {
    hide BinMap.Valid, BinMap.Has, Pieces, PiecesOf, Resent;
    var ack := new BinMap();
    var c := new Channel();
    c.timedOut := [Hint(NONE, 0)];
    c.OnHint(Bin(0, 5), 0);
    assert ClearedAt(c.timedOut, 0, ack);
    NoPieces();
    OnePiece(Bin(0, 5), 0);
    ghost var ps := Pieces(c.hintIn);
    assert ps == [Piece(5, 0)];
    assert !Stale(ps[0], ack, -SECOND * 3 / 2);
    ghost var again, skipped;
    send, retransmit, again, skipped := c.DequeueHint(ack, 0, 0);
  }

  lemma AllStale(h: Hint, ack: BinMap, deadline: int)
    ensures h.time < deadline ==> forall i :: 0 <= i < |PiecesOf(h)| ==> Stale(PiecesOf(h)[i], ack, deadline)
    ensures |PiecesOf(h)| > 0
  {
    hide BinMap.Has;
  }

  /** The longest run of held chunks in front. */
  ghost predicate HeldUpTo(before: seq<Piece>, m: nat, own: BinMap)
    reads own
  {
    m <= |before| && (forall i :: 0 <= i < m ==> own.Has(before[i].chunk)) && (m < |before| ==> !own.Has(before[m].chunk))
  }

  /** What is dropped: the longest run of held chunks, then the longest run of requests that are too old. */
  ghost predicate DroppedTo(before: seq<Piece>, m: nat, dropped: nat, own: BinMap, deadline: int)
    reads own
  {
    HeldUpTo(before, m, own) && m <= dropped <= |before| && (forall i :: m <= i < dropped ==> before[i].time < deadline) &&
    (dropped < |before| ==> before[dropped].time >= deadline)
  }

  /** The chunks after the dropped ones form the bin requested; the rest stays. */
  ghost predicate Requested(before: seq<Piece>, after: seq<Piece>, dropped: nat, res: Bin) {
    dropped <= |before| &&
    if res == NONE then dropped == |before| && after == []
    else
      var n := P(res.layer);
      res.Ok() && dropped + n <= |before| && after == before[dropped + n..] &&
      before[dropped..dropped + n] == PiecesOf(Hint(res, before[dropped].time))
  }

  /** The first part of a bin that is no longer than size, and no shorter than it must be. */
  ghost predicate Biggest(res: Bin, bin: Bin, size: nat) {
    res.base == bin.base && res.layer <= bin.layer && P(res.layer) <= size && (res == bin || 2 * P(res.layer) > size)
  }

  /** A bin inside that of a request, of the same time. */
  predicate Sliver(f: Hint, o: Hint) {
    f.time == o.time && o.bin.base <= f.bin.base && f.bin.End() <= o.bin.End()
  }

  /** The whole request, or a right half inside it: the biggest part that starts where it starts. */
  predicate Part(f: Hint, o: Hint) {
    Sliver(f, o) && (f.bin == o.bin || !f.bin.IsLeft())
  }

  /** The first part of a request that is not held: as big as can be if nothing of it is held, else one chunk. */
  ghost predicate Leading(f: Hint, o: Hint, own: BinMap)
    reads own
  {
    Sliver(f, o) && AllEmpty(own, f.bin) && (Part(f, o) || (f.bin.layer == 0 && exists g: Bin :: Around(g, f, o, own)))
  }

  ghost predicate Around(g: Bin, f: Hint, o: Hint, own: BinMap)
    reads own
  {
    Part(Hint(g, f.time), o) && g.base == f.bin.base && g.layer > 0 && !AllEmpty(own, g)
  }

  /** The bin in front after dropping: a whole request if requests were dropped as too old. */
  ghost predicate AtFront(f: Hint, o: Hint, expired: bool, own: BinMap)
    reads own
  {
    if expired then f == o else Leading(f, o, own)
  }

  /** A queue of parts of one request and of all the requests after it. */
  ghost predicate From(queue: seq<Hint>, q: seq<Hint>, frags: seq<Hint>, h: nat) {
    h <= |q| && queue == frags + q[h..] && (frags != [] ==> h > 0) &&
    forall k :: 0 <= k < |frags| ==> Sliver(frags[k], q[h - 1]) && (k > 0 ==> Part(frags[k], q[h - 1]))
  }

  /** The bin in front is a part of its request, or the first part that is not held. */
  ghost predicate Fronted(queue: seq<Hint>, q: seq<Hint>, frags: seq<Hint>, h: nat, own: BinMap)
    reads own
  {
    From(queue, q, frags, h) &&
    (queue != [] ==> var o := q[if frags == [] then h else h - 1]; Part(queue[0], o) || Leading(queue[0], o, own))
  }

  lemma Untouched(q: seq<Hint>, own: BinMap)
    ensures Fronted(q, q, [], 0, own)
  {
    hide AllEmpty, Leading;
    assert q == [] + q[0..];
  }

  lemma FrontedEnd(queue: seq<Hint>, q: seq<Hint>, frags: seq<Hint>, h: nat, own: BinMap)
    requires Fronted(queue, q, frags, h, own) && (queue != [] ==> AllEmpty(own, queue[0].bin))
    ensures From(queue, q, frags, h)
    ensures queue != [] ==> Leading(queue[0], q[if frags == [] then h else h - 1], own)
  {
    hide AllEmpty, Leading, Sliver;
    if queue != [] {
      LeadingEmpty(queue[0], q[if frags == [] then h else h - 1], own);
    }
  }

  lemma FrontedStep(was: seq<Hint>, queue: seq<Hint>, q: seq<Hint>, frags: seq<Hint>, h: nat, held: seq<Piece>, kept: seq<Hint>, own: BinMap)
    requires Fronted(was, q, frags, h, own) && was != [] && !AllEmpty(own, was[0].bin) && queue == kept + was[1..]
    requires forall k :: 0 <= k < |kept| ==> Sliver(kept[k], was[0]) && (held != [] || k > 0 ==> !kept[k].bin.IsLeft())
    requires held == [] ==> kept != [] && kept[0].bin == Bin(0, was[0].bin.base) && AllEmpty(own, kept[0].bin) && was[0].bin.layer > 0
    ensures if frags == [] then Fronted(queue, q, kept, h + 1, own) else Fronted(queue, q, kept + frags[1..], h, own)
  {
    hide AllEmpty, Leading, Bin.IsLeft;
    var o := q[if frags == [] then h else h - 1];
    LeadingNot(was[0], o, own);
    FromStep(was, queue, q, frags, h, kept, o);
    if held == [] {
      LeadingBase(kept[0], was[0], o, own);
    }
  }

  lemma FromPop(queue: seq<Hint>, q: seq<Hint>, frags: seq<Hint>, h: nat)
    requires From(queue, q, frags, h) && queue != []
    ensures frags == [] ==> h < |q| && queue[0] == q[h] && From(queue[1..], q, [], h + 1)
    ensures frags != [] ==> queue[0].time == q[h - 1].time && From(queue[1..], q, frags[1..], h)
  {
    hide Part;
    if frags == [] {
      assert queue == q[h..];
    } else {
      assert queue[1..] == frags[1..] + q[h..];
    }
  }

  lemma FromRest(queue: seq<Hint>, q: seq<Hint>, frags: seq<Hint>, h: nat)
    requires From(queue, q, frags, h) && queue != []
    ensures var j, kept := if frags == [] then h else h - 1, if frags == [] then [] else frags[1..];
      0 <= j < |q| && queue == [queue[0]] + kept + q[j + 1..]
  {
    hide Part;
    if frags == [] {
      assert queue == q[h..];
    }
  }

  lemma FromStep(was: seq<Hint>, queue: seq<Hint>, q: seq<Hint>, frags: seq<Hint>, h: nat, kept: seq<Hint>, o: Hint)
    requires From(was, q, frags, h) && was != [] && queue == kept + was[1..] && o == q[if frags == [] then h else h - 1] && Sliver(was[0], o)
    requires forall k :: 0 <= k < |kept| ==> Sliver(kept[k], was[0]) && (k > 0 ==> !kept[k].bin.IsLeft())
    ensures if frags == [] then From(queue, q, kept, h + 1) else From(queue, q, kept + frags[1..], h)
  {
    hide Bin.IsLeft;
    if frags == [] {
      assert was == q[h..];
    } else {
      assert queue == (kept + frags[1..]) + q[h..];
    }
  }

  lemma LeadingEmpty(f: Hint, o: Hint, own: BinMap)
    requires (Part(f, o) || Leading(f, o, own)) && AllEmpty(own, f.bin)
    ensures Leading(f, o, own)
  {
    hide AllEmpty;
  }

  lemma LeadingNot(f: Hint, o: Hint, own: BinMap)
    requires (Part(f, o) || Leading(f, o, own)) && !AllEmpty(own, f.bin)
    ensures Part(f, o) && Sliver(f, o)
  {
    hide AllEmpty;
  }

  lemma LeadingBase(f: Hint, front: Hint, o: Hint, own: BinMap)
    requires Part(front, o) && Sliver(f, front) && f.bin == Bin(0, front.bin.base) && front.bin.layer > 0
    requires AllEmpty(own, f.bin) && !AllEmpty(own, front.bin)
    ensures Leading(f, o, own)
  {
    hide AllEmpty;
    assert Around(front.bin, f, o, own);
  }

  lemma FirstPiece(queue: seq<Hint>, own: BinMap)
    requires queue != [] && AllEmpty(own, queue[0].bin)
    ensures Pieces(queue) != [] && !own.Has(Pieces(queue)[0].chunk)
  {
    hide BinMap.Has;
    HeadPiece(queue);
    assert queue[0].bin.Has(queue[0].bin.base);
  }

  lemma HeadPiece(queue: seq<Hint>)
    requires queue != []
    ensures Pieces(queue) != [] && Pieces(queue)[0] == Piece(queue[0].bin.base, queue[0].time)
  {
  }

  lemma Expired(h: Hint)
    ensures |PiecesOf(h)| > 0 && forall i :: 0 <= i < |PiecesOf(h)| ==> PiecesOf(h)[i].time == h.time
  {
  }

  lemma SomeChunk(m: BinMap, b: Bin)
    requires b.layer == 0 && b.Ok() && !AllEmpty(m, b)
    ensures AllFilled(m, b)
  {
    hide BinMap.Has;
  }

  lemma FilledNotEmpty(m: BinMap, b: Bin)
    requires AllEmpty(m, b)
    ensures !AllFilled(m, b)
  {
    hide BinMap.Has;
    assert b.Has(b.base);
  }

  lemma RightHalf(b: Bin)
    requires b.Ok() && b.layer > 0
    ensures !b.Right().IsLeft()
  {
    hide P, Aligned;
    HalvesOk(b);
    FloorUnique(b.Right().base, b.base, b.layer);
  }

  lemma HalfLength(b: Bin)
    requires b.layer > 0
    ensures P(b.layer) == 2 * P(b.layer - 1)
  {
  }

  lemma PieceCount(h: Hint)
    requires h.bin.Ok()
    ensures |PiecesOf(h)| == P(h.bin.layer) > 0 && h.bin != NONE
    ensures PiecesOf(h)[0].time == h.time
  {
  }

  lemma HeldPieces(h: Hint, own: BinMap)
    requires h.bin.Ok() && (h.bin.layer == 0 || AllFilled(own, h.bin))
    ensures |PiecesOf(h)| > 0
    ensures !AllEmpty(own, h.bin) ==> forall i :: 0 <= i < |PiecesOf(h)| ==> own.Has(PiecesOf(h)[i].chunk)
  {
    hide BinMap.Has;
    if h.bin.layer == 0 {
      OneChunk(own, h.bin);
    }
    forall i | 0 <= i < |PiecesOf(h)| && !AllEmpty(own, h.bin) ensures own.Has(PiecesOf(h)[i].chunk) {
      assert h.bin.Has(h.bin.base + i);
    }
  }

  /** The kept hints are the bins beside the path from the part to the whole, lowest first. */
  predicate BesidePath(orig: Hint, part: Bin, kept: seq<Hint>) {
    part.layer + |kept| == orig.bin.layer && forall k :: 0 <= k < |kept| ==> kept[k] == Hint(part.Up(part.layer + k).Sibling(), orig.time)
  }

  lemma BesideFurther(orig: Hint, f: Bin, half: Bin, other: Bin, kept: seq<Hint>)
    requires f.Ok() && Halves(f, half, other) && BesidePath(orig, f, kept) && orig.bin.layer <= 63
    ensures BesidePath(orig, half, [Hint(other, orig.time)] + kept)
  {
    hide P, Aligned, Floor, Bin.Sibling, Bin.Up;
    var all := [Hint(other, orig.time)] + kept;
    HalfSibling(f, half, other);
    forall k | 0 <= k < |all| ensures all[k] == Hint(half.Up(half.layer + k).Sibling(), orig.time) {
      if k > 0 {
        SameAncestor(f, half, half.layer + k);
        assert all[k] == kept[k - 1];
      }
    }
  }

  lemma HalfSibling(f: Bin, half: Bin, other: Bin)
    requires f.Ok() && Halves(f, half, other)
    ensures half.Up(half.layer) == half && half.Sibling() == other && f.base <= half.base < f.End()
  {
    hide P, Aligned, Floor;
    HalvesOk(f);
    UpUnique(half, half);
    UpUnique(half, f);
    ParentOk(half);
  }

  lemma SameAncestor(f: Bin, half: Bin, l: nat)
    requires f.Ok() && half.Ok() && f.base <= half.base < f.End() && f.layer <= l <= 63
    ensures half.Up(l) == f.Up(l)
  {
    hide P, Aligned, Floor;
    UpSpec(f, l);
    UpUnique(half, f.Up(l));
  }

  /** They are the original one without the part cut out, each chunk once. */
  ghost predicate CutOut(orig: Hint, part: Bin, kept: seq<Hint>) {
    BesidePath(orig, part, kept) && Sound(kept) && multiset(Pieces(kept)) + multiset(PiecesOf(Hint(part, orig.time))) == multiset(PiecesOf(orig))
  }

  /** The two halves of a bin, in either order. */
  predicate Halves(b: Bin, half: Bin, other: Bin) {
    b.layer > 0 && half.Ok() && other.Ok() &&
    ((half == b.Left() && other == b.Right()) || (half == b.Right() && other == b.Left()))
  }

  lemma CutNothing(orig: Hint)
    ensures CutOut(orig, orig.bin, [])
  {
    hide PiecesOf;
    NoPieces();
    assert Hint(orig.bin, orig.time) == orig;
  }

  lemma CutFurther(orig: Hint, f: Hint, half: Bin, other: Bin, kept: seq<Hint>)
    requires f.time == orig.time && CutOut(orig, f.bin, kept) && f.bin.Ok() && orig.bin.Ok()
    requires Halves(f.bin, half, other)
    ensures CutOut(orig, half, [Hint(other, f.time)] + kept)
  {
    hide PiecesOf, BesidePath;
    BesideFurther(orig, f.bin, half, other, kept);
    SplitHint(f);
    PiecesFront(Hint(other, f.time), kept);
    assert Hint(f.bin, orig.time) == f;
  }

  lemma SplitLengths(f: Hint, half: Bin, other: Bin, rest: seq<Hint>)
    requires Halves(f.bin, half, other)
    ensures |Pieces([f] + rest)| == |Pieces([Hint(half, f.time)] + [Hint(other, f.time)] + rest)|
  {
    hide PiecesOf;
    SplitHint(f);
    PiecesFront(f, rest);
    PiecesFront(Hint(other, f.time), rest);
    PiecesFront(Hint(half, f.time), [Hint(other, f.time)] + rest);
    assert [Hint(half, f.time)] + [Hint(other, f.time)] + rest == [Hint(half, f.time)] + ([Hint(other, f.time)] + rest);
  }

  lemma ErasedSize(q: seq<Hint>, k: nat)
    requires k < |q|
    ensures |Pieces(q)| == |Pieces(q[..k] + q[k + 1..])| + P(q[k].bin.layer)
  {
    hide PiecesOf;
    assert q == q[..k] + ([q[k]] + q[k + 1..]);
    PiecesJoin(q[..k], [q[k]] + q[k + 1..]);
    PiecesFront(q[k], q[k + 1..]);
    PiecesJoin(q[..k], q[k + 1..]);
  }

  /** From a up to b: the first run of requests that lie in a bin. */
  ghost predicate RunIn(q: seq<Hint>, bin: Bin, a: nat, b: nat) {
    a <= b <= |q| && (a < |q| ==> a < b) && (forall k :: 0 <= k < a ==> !bin.Contains(q[k].bin)) &&
    (forall k :: a <= k < b ==> bin.Contains(q[k].bin)) &&
    (b < |q| ==> !bin.Contains(q[b].bin))
  }

  /** Only the request around the cancelled bin changed: it lost the chunks of that bin. */
  ghost predicate FragmentedAt(q: seq<Hint>, after: seq<Piece>, h: nat, cancel: Bin) {
    h < |q| && q[h].bin.Contains(cancel) && after == Pieces(q[..h]) + Without(q[h], cancel) + Pieces(q[h + 1..])
  }

  lemma SelfContained(b: Bin)
    requires b.Ok()
    ensures b.Contains(b)
  {
    ContainsMeaning(b, b);
  }

  /** The chunks of a request outside a part of it. */
  function Without(h: Hint, part: Bin): seq<Piece> {
    var ps, from, to := PiecesOf(h), part.base - h.bin.base, part.End() - h.bin.base;
    if 0 <= from <= to <= |ps| then ps[..from] + ps[to..] else ps
  }

  function Hints(bs: seq<Bin>, time: int): seq<Hint> {
    seq(|bs|, i requires 0 <= i < |bs| => Hint(bs[i], time))
  }

  function Tag(s: seq<nat>, time: int): seq<Piece> {
    seq(|s|, i requires 0 <= i < |s| => Piece(s[i], time))
  }

  lemma {:induction false} HintPieces(bs: seq<Bin>, time: int)
    ensures Pieces(Hints(bs, time)) == Tag(Flat(bs), time)
    decreases |bs|
  {
    if bs != [] {
      HintPieces(bs[1..], time);
      assert Hints(bs, time)[1..] == Hints(bs[1..], time);
      assert Tag(Chunks(bs[0]), time) == PiecesOf(Hint(bs[0], time));
      assert Tag(Chunks(bs[0]) + Flat(bs[1..]), time) == Tag(Chunks(bs[0]), time) + Tag(Flat(bs[1..]), time);
    }
  }

  lemma FragmentPieces(orig: Hint, cancel: Bin, frags: seq<Bin>)
    requires orig.bin.Ok() && orig.bin.base <= cancel.base && cancel.End() <= orig.bin.End()
    requires Flat(frags) == Span(orig.bin.base, cancel.base) + Span(cancel.End(), orig.bin.End())
    ensures Pieces(Hints(frags, orig.time)) == Without(orig, cancel)
  {
    hide Flat, Pieces;
    HintPieces(frags, orig.time);
  }

  lemma NothingLeft(q: seq<Hint>)
    ensures |Pieces(q)| == 0 <==> q == []
  {
  }

  lemma LongBin(b: Bin, size: nat)
    requires P(b.layer) > size >= 1
    ensures b.layer > 0
  {
  }

  lemma SuffixPart<T>(ps: seq<T>, k: nat, a: seq<T>, b: seq<T>)
    requires k <= |ps| && ps[k..] == a + b
    ensures k + |a| <= |ps| && ps[k + |a|..] == b && forall i :: 0 <= i < |a| ==> ps[k + i] == a[i]
    ensures forall i :: k <= i < k + |a| ==> ps[i] == a[i - k]
  {
    forall i | 0 <= i < |a| ensures ps[k + i] == a[i] {
      assert ps[k + i] == ps[k..][i];
    }
    assert ps[k + |a|..] == ps[k..][|a|..];
  }

  lemma OnePiece(b: Bin, time: int)
    requires b.layer == 0
    ensures PiecesOf(Hint(b, time)) == [Piece(b.base, time)]
  {
  }

  lemma OneChunk(m: BinMap, b: Bin)
    requires b.layer == 0 && b.Ok()
    ensures AllFilled(m, b) <==> m.Has(b.base)
    ensures AllEmpty(m, b) <==> !m.Has(b.base)
    ensures b != NONE && b == Bin(0, b.base)
  {
    hide BinMap.Has;
    assert b.Has(b.base);
  }
}
