/** How many bytes nsc_rle_compress_data sends for a plane, counted from the plane alone
    (libfreerdp/codec/nsc_encode.c). */
module NscSize {
  import opened Bits
  import opened NscRle
  import opened Runs

  /** The bytes for a run: one, three, or seven for a length that needs more than a byte. */
  function RunCost(len: nat): nat {
    if len == 1 then 1 else if len < 256 then 3 else 7
  }

  /** The bytes for the runs from i on. */
  function RunsCost(p: seq<byte>, i: nat): nat
    requires i <= |p|
    decreases |p| - i
  {
    if i == |p| then 0 else RunCost(RunFrom(p, i)) + RunsCost(p, i + RunFrom(p, i))
  }

  /** The bytes for a whole plane: its runs up to the last four bytes, and those. */
  function PlaneCost(plane: seq<byte>): nat
    requires |plane| >= 4
  {
    RunsCost(plane[..|plane| - 4], 0) + 4
  }

  // ----- what the encoder reports

  /** The size the encoder returns is the cost where that is less than the plane, and at least the plane
      otherwise, also when it stops early. */
  lemma {:induction false} TotalIsCost(plane: seq<byte>, n: uint32, i: nat, run: uint32, size: nat)
    requires Pending(plane, n, i, run)
    ensures var cost := size + RunsCost(plane[..n - 4], i + 1 - run) + 4;
            var total := EncodeFrom(plane, n, i, run, size).1;
            if cost < n then total == cost else total >= n
    decreases n - i
  {
    hide Item, EncodeFrom, RunsCost;
    TotalTurn(plane, n, i, run, size);
    if n - i > 4 && size < n - 4 {
      if n - i > 5 && plane[i] == plane[i + 1] {
        TotalIsCost(plane, n, i + 1, run + 1, size);
      } else {
        ItemCost(plane[i], run);
        TotalIsCost(plane, n, i + 1, 1, size + |Item(plane[i], run)|);
        RunTaken(plane[..n - 4], i + 1 - run, i + 1);
      }
    } else if n - i == 4 {
      NoRuns(plane[..n - 4]);
    }
  }

  lemma NoRuns(p: seq<byte>)
    ensures RunsCost(p, |p|) == 0
  {
  }

  /** One turn of the encoder's loop, or its end. */
  lemma TotalTurn(plane: seq<byte>, n: uint32, i: nat, run: uint32, size: nat)
    requires Pending(plane, n, i, run)
    ensures EncodeFrom(plane, n, i, run, size).1 ==
            if n - i > 4 && size < n - 4 then
              if n - i > 5 && plane[i] == plane[i + 1] then EncodeFrom(plane, n, i + 1, run + 1, size).1
              else EncodeFrom(plane, n, i + 1, 1, size + |Item(plane[i], run)|).1
            else size + 4
  {
    hide Item;
  }

  lemma ItemCost(value: byte, run: uint32)
    requires run >= 1
    ensures |Item(value, run)| == RunCost(run)
  {
  }

  /** The run from start up to end is the first of what is left. */
  lemma RunTaken(p: seq<byte>, start: nat, end: nat)
    requires start < end <= |p| && (forall k :: start <= k < end ==> p[k] == p[end - 1])
    requires end < |p| ==> p[end] != p[end - 1]
    ensures RunsCost(p, start) == RunCost(end - start) + RunsCost(p, end)
  {
    hide RunCost, Lead;
    assert p[start] == p[end - 1];
    LeadIs(p, start, p[start], end - start);
  }

  // ----- planes

  /** A plane is sent run-length encoded exactly when that is shorter, with exactly the bytes its runs cost,
      and as it is otherwise. */
  lemma SentSize(plane: seq<byte>, n: uint32)
    requires n <= |plane| && 4 <= |plane|
    ensures n <= 4 ==> CompressPlane(plane, n) == plane[..n]
    ensures n > 4 ==>
              var cost := PlaneCost(plane[..n]);
              if cost < n then |CompressPlane(plane, n)| == cost else CompressPlane(plane, n) == plane[..n]
  {
    hide EncodeFrom, RunsCost;
    if n > 4 {
      TotalIsCost(plane, n, 0, 1, 0);
      assert plane[..n][..n - 4] == plane[..n - 4];
      if Encode(plane, n).1 < n {
        RleRoundTrip(plane, n, []);
      }
    } else {
      ShortRaw(plane, n);
    }
  }

  lemma ShortRaw(plane: seq<byte>, n: uint32)
    requires n <= 4 <= |plane|
    ensures CompressPlane(plane, n) == plane[..n]
  {
  }

  /** A plane that was not sent is opaque: all its bytes are 0xFF. */
  lemma AbsentPlane(b: seq<byte>, n: nat)
    ensures var r := DecompressPlane(b, 0, n);
            r.Some? && |r.value| == n && forall k :: 0 <= k < n ==> r.value[k] == 0xFF
  {
  }
}
