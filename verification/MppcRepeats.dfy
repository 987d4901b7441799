/** A source that repeats is sent compressed (libfreerdp/codec/mppc.c): after its first period every turn of
    mppc_compress finds a match, and each is at least two symbols longer than the one before. */
module MppcRepeats {
  import opened Basics
  import opened Bits
  import opened MppcCode
  import opened MppcHistory
  import opened MppcEncoder
  import opened MppcSession
  import opened MppcChoice

  // ----- periods

  ghost predicate Periodic(src: seq<byte>, period: nat) {
    period > 0 && forall k {:trigger src[k]} :: period <= k < |src| ==> src[k] == src[k - period]
  }

  lemma {:induction false} SamePhase(src: seq<byte>, period: nat, a: nat, b: nat)
    requires Periodic(src, period) && a <= b < |src| && (b - a) % period == 0
    ensures src[a] == src[b]
    decreases b
  {
    if a < b {
      Whole(b - a, period);
      assert src[b] == src[b - period];
      SamePhase(src, period, a, b - period);
    }
  }

  lemma Whole(d: nat, period: nat)
    requires d > 0 && period > 0 && d % period == 0
    ensures d >= period && (d - period) % period == 0
  {
    var q := d / period;
    assert q >= 1;
    Distribute(q, -1, period);
    DivModUnique(d - period, period, q - 1, 0);
  }

  lemma SameIndex(src: seq<byte>, period: nat, a: nat, b: nat)
    requires Periodic(src, period) && a <= b && b + 3 <= |src| && (b - a) % period == 0
    ensures IndexAt(src, a) == IndexAt(src, b)
  {
    hide MatchIndex, Periodic;
    SamePhase(src, period, a, b);
    SamePhase(src, period, a + 1, b + 1);
    SamePhase(src, period, a + 2, b + 2);
  }

  lemma PhaseOf(i: nat, period: nat)
    requires period > 0
    ensures i % period <= i && (i - i % period) % period == 0
  {
    var q := i / period;
    DivModUnique(i - i % period, period, q, 0);
  }

  lemma PhasesAgree(a: nat, b: nat, period: nat)
    requires period > 0 && a <= b && a % period == b % period
    ensures (b - a) % period == 0
  {
    var q := b / period - a / period;
    Distribute(b / period, -(a / period), period);
    assert b - a == period * q;
    DivModUnique(b - a, period, q, 0);
  }

  /** No two places of the first period share an index of the match table. */
  ghost predicate Distinct(src: seq<byte>, period: nat) {
    && 0 < period && period + 2 <= |src|
    && forall f, g {:trigger IndexAt(src, f), IndexAt(src, g)} :: 0 <= f < g < period ==>
         IndexAt(src, f) != IndexAt(src, g)
  }

  // ----- the state of the scan

  /** The history holds the source so far, and matches reach no further. */
  ghost predicate Scanned(src: seq<byte>, st: Scan) {
    && |src| <= HISTORY_BYTES && |st.table| == TABLE_SIZE && st.mark <= st.hp == st.i <= |src|
    && Written(src, st.hist, 0, st.i)
  }

  lemma {:induction false} ExtendScanned(src: seq<byte>, table: seq<u16>, mark: nat, e: Extension)
    requires |table| == TABLE_SIZE && e.hp == e.i <= |src| <= HISTORY_BYTES && Written(src, e.hist, 0, e.i)
    ensures var r := Extend(src, table, mark, e); r.hp == r.i && Written(src, r.hist, 0, r.i)
    decreases |src| - e.i
  {
    hide MemoryByte, Extend;
    if e.i < |src| - 1 && e.match_ <= mark && src[e.i] == MemoryByte(e.hist, table, e.match_) {
      ExtendMore(src, table, mark, e);
      ExtendScanned(src, table, mark, Extension(e.hist[e.hp := src[e.i]], e.match_ + 1, e.hp + 1, e.i + 1));
    } else {
      ExtendStops(src, table, mark, e);
    }
  }

  lemma StepScanned(level: nat, src: seq<byte>, dstSize: nat, st: Scan)
    requires Scanned(src, st) && st.i < |src| - 3 && ScanStep(level, src, dstSize, st).Some?
    ensures Scanned(src, ScanStep(level, src, dstSize, st).value)
  {
    hide MatchIndex, MemoryByte, Extend, CopyWidth;
    Opened(src, st);
    var next := PutSymbol(src, st);
    WrittenOn(src, st.hist, 0, st.i);
    if Matches(next, Candidate(src, st), src[st.i], src[st.i + 1], src[st.i + 2]) {
      var h1: History := next.hist[next.hp := src[next.i]];
      WrittenOn(src, next.hist, 0, next.i);
      WrittenOn(src, h1, 0, next.i + 1);
      var e := Extension(h1[next.hp + 1 := src[next.i + 1]], Candidate(src, st) as nat + 2, next.hp + 2, next.i + 2);
      ExtendScanned(src, next.table, next.mark, e);
    }
  }

  /** What a turn adds to the bits. */
  lemma TurnBits(level: nat, src: seq<byte>, dstSize: nat, st: Scan)
    requires st.i < |src| - 3 && st.hp + (|src| - st.i) <= HISTORY_BYTES && |st.table| == TABLE_SIZE
    requires ScanStep(level, src, dstSize, st).Some?
    ensures var r, p := ScanStep(level, src, dstSize, st).value, st.table[IndexAt(src, st.i)];
            r.bits == st.bits +
                      if MatchHere(src, st) then CopyWidth(level, (st.hp + 1 - p) % HistorySize(level), r.i - st.i)
                      else LiteralWidth(src[st.i])
  {
    hide MatchIndex, MemoryByte, Extend, CopyWidth;
    Opened(src, st);
  }

  // ----- behind the first period

  /** The table holds an earlier turn for every place of the period; the last turn was at q. */
  ghost predicate Repeating(src: seq<byte>, period: nat, st: Scan, q: nat) {
    && Periodic(src, period) && Distinct(src, period) && Scanned(src, st)
    && q < st.i && (q + 1 < st.i || period >= 2)
    && forall f :: 0 <= f < period ==> EntryOf(src, period, st.table, q, f)
  }

  ghost predicate EntryOf(src: seq<byte>, period: nat, table: seq<u16>, q: nat, f: nat)
    requires f < period && period + 2 <= |src| && |table| == TABLE_SIZE
  {
    var p := table[IndexAt(src, f)];
    1 <= p <= q + 1 && (p - 1) % period == f
  }

  lemma WholePeriods(i: nat, p: nat, q: nat, period: nat)
    requires period > 0 && 1 <= p <= q + 1 && q < i && (q + 1 < i || period >= 2)
    requires (p - 1) % period == i % period
    ensures p < i && (i - (p - 1)) % period == 0
  {
    PhasesAgree(p - 1, i, period);
    if period >= 2 { DivModUnique(1, period, 0, 1); }
  }

  /** The entry of the next three symbols is one of these, whole periods back. */
  lemma EntryHere(src: seq<byte>, period: nat, st: Scan, q: nat)
    requires Repeating(src, period, st, q) && st.i < |src| - 3
    ensures var p := st.table[IndexAt(src, st.i)];
            1 <= p <= q + 1 && p < st.i && (st.i - (p - 1)) % period == 0
  {
    hide IndexAt, Periodic, Written;
    var f := st.i % period;
    PhaseOf(st.i, period);
    SameIndex(src, period, f, st.i);
    assert EntryOf(src, period, st.table, q, f);
    WholePeriods(st.i, st.table[IndexAt(src, st.i)], q, period);
  }

  lemma MatchFound(src: seq<byte>, period: nat, st: Scan, q: nat)
    requires Repeating(src, period, st, q) && st.i < |src| - 3
    ensures MatchHere(src, st)
  {
    hide MatchIndex, Periodic, Distinct;
    EntryHere(src, period, st, q);
    var p := st.table[IndexAt(src, st.i)];
    SamePhase(src, period, p - 1, st.i);
    SamePhase(src, period, p, st.i + 1);
    SamePhase(src, period, p + 1, st.i + 2);
  }

  /** A turn writes a copy tuple for the symbols from the entry up to the first two that were not there yet,
      unless the packet ends before. */
  lemma TurnRepeats(level: nat, src: seq<byte>, period: nat, dstSize: nat, st: Scan, q: nat)
    requires Repeating(src, period, st, q) && st.i < |src| - 3 && ScanStep(level, src, dstSize, st).Some?
    ensures var r, p := ScanStep(level, src, dstSize, st).value, st.table[IndexAt(src, st.i)];
            && 1 <= p <= q + 1 && r.tokens == st.tokens + [Copy((st.i + 1 - p) % HistorySize(level), r.i - st.i)]
            && st.i + 3 <= r.i < |src| && (r.i == |src| - 1 || r.i - st.i == st.i + 1 - p + 2)
            && r.i - st.i <= st.i + 1 - p + 2
            && r.table == Entered(src, st) && Scanned(src, r)
  {
    hide MatchIndex, ScanStep, Periodic, Distinct, MatchHere, IndexAt;
    MatchFound(src, period, st, q);
    EntryHere(src, period, st, q);
    TurnChoice(level, src, dstSize, st);
    StepScanned(level, src, dstSize, st);
    var r, p := ScanStep(level, src, dstSize, st).value, st.table[IndexAt(src, st.i)];
    var m := p - 1 + (r.i - st.i);
    if r.i < |src| - 1 && m <= Reach(st) {
      SamePhase(src, period, m, r.i);
      assert false;
    }
  }

  lemma StaysRepeating(level: nat, src: seq<byte>, period: nat, dstSize: nat, st: Scan, q: nat)
    requires Repeating(src, period, st, q) && st.i < |src| - 3 && ScanStep(level, src, dstSize, st).Some?
    ensures Repeating(src, period, ScanStep(level, src, dstSize, st).value, st.i)
  {
    hide ScanStep, Periodic, IndexAt, Written;
    TurnRepeats(level, src, period, dstSize, st, q);
    EnteredHere(src, period, st);
    var r := ScanStep(level, src, dstSize, st).value;
    forall f | 0 <= f < period ensures EntryOf(src, period, r.table, st.i, f) {
      assert EntryOf(src, period, st.table, q, f);
    }
  }

  /** A turn changes the entry of its place of the period only. */
  lemma EnteredHere(src: seq<byte>, period: nat, st: Scan)
    requires Periodic(src, period) && Distinct(src, period) && Scanned(src, st) && st.i < |src| - 3
    ensures forall f {:trigger IndexAt(src, f)} :: 0 <= f < period ==>
              Entered(src, st)[IndexAt(src, f)] ==
              if f != st.i % period || st.table[IndexAt(src, f)] == st.i then st.table[IndexAt(src, f)] else st.i + 1
  {
    hide IndexAt, Periodic;
    PhaseOf(st.i, period);
    SameIndex(src, period, st.i % period, st.i);
  }

  /** The reserves are there: j copy tuples cover more than j * j symbols. */
  lemma Room(n: nat, period: nat, j: nat)
    requires n >= 256 && n >= 2 * period && j * j + period < n
    ensures 9 * (period + 2) + 49 * j + 42 <= 8 * n
    ensures (j + 1) * (j + 1) + period < n ==> 9 * (period + 2) + 49 * j + 64 <= 8 * n
  {
    if j >= 17 {
      MulMono(17, j, j);
      MulMono(18, j + 1, j + 1);
    }
  }

  lemma NextSquare(j: nat)
    ensures (j + 2) * (j + 2) == (j + 1) * (j + 1) + 2 * j + 3 && (j + 1) * (j + 1) >= j * j + 1
  {
  }

  /** The main loop from a repeating scan on: copy tuples only, each at least two symbols longer than the one
      before. */
  lemma {:induction false} RepeatsOn(level: nat, src: seq<byte>, period: nat, st: Scan, q: nat, j: nat)
    returns (copies: nat)
    requires Repeating(src, period, st, q) && |src| >= 256 && |src| >= 2 * period
    requires st.i >= (j + 1) * (j + 1) + period && st.i - q >= 2 * j + 1
    requires st.bits <= 9 * (period + 2) + 49 * j
    ensures copies * copies + period < |src|
    ensures var r := ScanMain(level, src, |src|, st);
            r.Some? && |src| - 3 <= r.value.i && r.value.bits <= 9 * (period + 2) + 49 * copies
    decreases |src| - st.i
  {
    hide ScanStep, ScanMain, Periodic, Distinct, EntryOf, Written, MatchHere, Entered, CopyWidth, IndexAt;
    NextSquare(j);
    if st.i < |src| - 3 {
      Room(|src|, period, j);
      TurnRefused(level, src, |src|, st);
      MatchFound(src, period, st, q);
      TurnRepeats(level, src, period, |src|, st, q);
      StaysRepeating(level, src, period, |src|, st, q);
      TurnBits(level, src, |src|, st);
      var next := ScanStep(level, src, |src|, st).value;
      CopyWidthBound(level, (st.hp + 1 - st.table[IndexAt(src, st.i)]) % HistorySize(level), next.i - st.i);
      MainTurn(level, src, st);
      if next.i == |src| - 1 {
        copies := j + 1;
        MainStops(level, src, next);
      } else {
        copies := RepeatsOn(level, src, period, next, st.i, j + 1);
      }
    } else {
      copies := j;
      MainStops(level, src, st);
    }
  }

  lemma MainTurn(level: nat, src: seq<byte>, st: Scan)
    requires st.i < |src| - 3 && st.hp + (|src| - st.i) <= HISTORY_BYTES && |st.table| == TABLE_SIZE
    requires ScanStep(level, src, |src|, st).Some?
    ensures ScanMain(level, src, |src|, st) == ScanMain(level, src, |src|, ScanStep(level, src, |src|, st).value)
  {
    hide ScanStep;
  }

  lemma MainStops(level: nat, src: seq<byte>, st: Scan)
    requires |src| - 3 <= st.i <= |src| && st.hp + (|src| - st.i) <= HISTORY_BYTES && |st.table| == TABLE_SIZE
    ensures ScanMain(level, src, |src|, st) == Some(st)
  {
  }

  // ----- the first period

  /** In the first period every turn writes a literal; the first one does not enter its position, which is what
      the empty entries hold. */
  ghost predicate Opening(src: seq<byte>, period: nat, st: Scan) {
    && Periodic(src, period) && Distinct(src, period) && Scanned(src, st) && st.i <= period && st.bits <= 9 * st.i
    && forall f :: 0 <= f < period ==> OpeningEntry(src, period, st.table, st.i, f)
  }

  ghost predicate OpeningEntry(src: seq<byte>, period: nat, table: seq<u16>, i: nat, f: nat)
    requires f < period && period + 2 <= |src| && |table| == TABLE_SIZE
  {
    table[IndexAt(src, f)] == if 0 < f < i then f + 1 else 0
  }

  lemma OpeningTurn(level: nat, src: seq<byte>, period: nat, st: Scan)
    requires Opening(src, period, st) && period >= 2 && st.i < |src| - 3
    requires 9 * period + 24 <= 8 * |src|
    ensures var r := ScanStep(level, src, |src|, st);
            && r.Some? && r.value.i == st.i + 1 && r.value.bits == st.bits + LiteralWidth(src[st.i])
            && r.value.tokens == st.tokens + [Literal(src[st.i])] && r.value.table == Entered(src, st)
            && if st.i < period then Opening(src, period, r.value) else Repeating(src, period, r.value, st.i)
  {
    hide ScanStep, Periodic, IndexAt, Written;
    var f := st.i % period;
    PhaseOf(st.i, period);
    SameIndex(src, period, f, st.i);
    assert OpeningEntry(src, period, st.table, st.i, f);
    assert st.table[IndexAt(src, st.i)] == 0 by {
      if st.i < period { DivModUnique(st.i, period, 0, st.i); } else { DivModUnique(st.i, period, 1, 0); }
    }
    TurnRefused(level, src, |src|, st);
    TurnChoice(level, src, |src|, st);
    TurnBits(level, src, |src|, st);
    StepScanned(level, src, |src|, st);
    EnteredHere(src, period, st);
    var r := ScanStep(level, src, |src|, st).value;
    forall g | 0 <= g < period
      ensures if st.i < period then OpeningEntry(src, period, r.table, r.i, g)
              else EntryOf(src, period, r.table, st.i, g)
    {
      assert OpeningEntry(src, period, st.table, st.i, g);
      DivModUnique(g, period, 0, g);
    }
  }

  lemma {:induction false} Opens(level: nat, src: seq<byte>, period: nat, st: Scan) returns (r: Scan)
    requires Opening(src, period, st) && period >= 2 && |src| >= 256 && |src| >= 2 * period
    ensures Repeating(src, period, r, period) && r.i == period + 1 && r.bits <= 9 * (period + 2)
    ensures ScanMain(level, src, |src|, st) == ScanMain(level, src, |src|, r)
    decreases |src| - st.i
  {
    hide ScanStep, ScanMain, Periodic, Distinct, OpeningEntry, EntryOf, Written, Entered;
    OpeningTurn(level, src, period, st);
    MainTurn(level, src, st);
    r := ScanStep(level, src, |src|, st).value;
    if st.i < period { r := Opens(level, src, period, r); }
  }

  /** The first turns of a source of equal symbols. */
  lemma ConstantTurn(level: nat, src: seq<byte>, st: Scan)
    requires Periodic(src, 1) && Distinct(src, 1) && Scanned(src, st) && |src| >= 256 && st.i < 3
    requires st.table[IndexAt(src, 0)] == 0 || st.table[IndexAt(src, 0)] == st.i
    requires st.bits <= 9 * st.i
    ensures var r, p := ScanStep(level, src, |src|, st), st.table[IndexAt(src, 0)];
            && r.Some? && r.value.i == st.i + 1 && r.value.bits <= 9 * r.value.i && Scanned(src, r.value)
            && r.value.table[IndexAt(src, 0)] == if p == st.i then p else st.i + 1
  {
    hide ScanStep, Periodic, IndexAt, Written;
    SameIndex(src, 1, 0, st.i);
    TurnRefused(level, src, |src|, st);
    TurnChoice(level, src, |src|, st);
    TurnBits(level, src, |src|, st);
    StepScanned(level, src, |src|, st);
  }

  lemma OpensConstant(level: nat, src: seq<byte>, s0: Scan) returns (r: Scan)
    requires Opening(src, 1, s0) && s0.i == 0 && |src| >= 256
    ensures Repeating(src, 1, r, 1) && r.i == 3 && r.bits <= 27
    ensures ScanMain(level, src, |src|, s0) == ScanMain(level, src, |src|, r)
  {
    hide ScanStep, ScanMain, Periodic, IndexAt, Written;
    assert OpeningEntry(src, 1, s0.table, 0, 0);
    ConstantTurn(level, src, s0);
    MainTurn(level, src, s0);
    var s1 := ScanStep(level, src, |src|, s0).value;
    ConstantTurn(level, src, s1);
    MainTurn(level, src, s1);
    var s2 := ScanStep(level, src, |src|, s1).value;
    ConstantTurn(level, src, s2);
    MainTurn(level, src, s2);
    r := ScanStep(level, src, |src|, s2).value;
    assert EntryOf(src, 1, r.table, 1, 0);
  }

  lemma StartsOpening(level: nat, src: seq<byte>, period: nat)
    requires Periodic(src, period) && Distinct(src, period) && |src| <= HISTORY_BYTES
    ensures Opening(src, period, StartScan(NewEncoder(level), |src|)) && StartScan(NewEncoder(level), |src|).i == 0
  {
    hide IndexAt, Periodic;
  }

  // ----- the whole packet

  lemma {:induction false} TailFits(src: seq<byte>, st: Scan)
    requires st.i <= |src| && st.hp + (|src| - st.i) <= HISTORY_BYTES
    requires st.bits + 9 * (|src| - st.i) + 15 <= 8 * |src|
    ensures var r := ScanTail(src, |src|, st); r.Some? && r.value.bits <= st.bits + 9 * (|src| - st.i)
    decreases |src| - st.i
  {
    if st.i < |src| {
      var next := LiteralStep(|src|, src[st.i], st).value;
      TailFits(src, next.(hist := st.hist[st.hp := src[st.i]], hp := st.hp + 1, i := st.i + 1));
    }
  }

  /** The scan of a source that repeats: literals for its first period, then copy tuples. */
  lemma ScanRepeats(level: nat, src: seq<byte>, period: nat) returns (copies: nat)
    requires Periodic(src, period) && Distinct(src, period)
    requires 256 <= |src| <= HISTORY_BYTES && |src| >= 2 * period
    ensures copies * copies + period < |src|
    ensures var r := ScanAll(NewEncoder(level), src, |src|);
            r.Some? && r.value.bits <= 9 * (period + 5) + 49 * copies
  {
    hide ScanMain, ScanTail, Periodic, EntryOf, OpeningEntry, Written, IndexAt;
    StartsOpening(level, src, period);
    var st := StartScan(NewEncoder(level), |src|);
    if period == 1 {
      st := OpensConstant(level, src, st);
      copies := RepeatsOn(level, src, period, st, 1, 0);
    } else {
      st := Opens(level, src, period, st);
      copies := RepeatsOn(level, src, period, st, period, 0);
    }
    Room(|src|, period, copies);
    TailFits(src, ScanMain(level, src, |src|, st).value);
  }

  /** A block repeated at least twice and for 256 symbols or more is sent compressed by a new compressor, if the
      places of the block have different indices. The packet takes at most nine bits for each symbol of the
      block, and 49 for each of less than Sqrt(n) copy tuples. */
  lemma RepeatsCompressed(level: nat, src: seq<byte>, period: nat, capacity: nat)
    returns (copies: nat)
    requires level <= 1 && Periodic(src, period) && Distinct(src, period)
    requires 256 <= |src| <= HISTORY_BYTES && |src| >= 2 * period && capacity >= |src|
    ensures copies * copies + period < |src|
    ensures var p := Compress(NewEncoder(level), src, capacity).0;
            && p.flags.compressed
            && (|src| <= HistorySize(level) ==> 8 * |p.data| <= 9 * (period + 5) + 49 * copies + 7)
  {
    hide ScanAll, Periodic, Distinct;
    copies := ScanRepeats(level, src, period);
    if |src| <= HistorySize(level) {
      FreshOK(level);
      ScanAllKeeps(NewEncoder(level), src, |src|);
      ScanBits(NewEncoder(level), src, |src|);
    }
  }

  lemma FreshOK(level: nat)
    requires level <= 1
    ensures EncoderOK(NewEncoder(level))
  {
  }
}
