/** The history buffer: what a token does to it, and decoding a bit stream against it
    (mppc_decompress). */
module MppcHistory {
  import opened Bits
  import opened MppcCode

  /** Bytes in the HistoryBuffer array; a level uses the first HistorySize(level) of them. */
  const HISTORY_BYTES := 65536

  function HistorySize(level: nat): nat {
    if level != 0 then 65536 else 8192
  }

  type History = h: seq<byte> | |h| == HISTORY_BYTES witness seq(HISTORY_BYTES, _ => 0)

  /** n bytes copied one at a time from s to d; the two ranges may overlap. Behind the history comes the
      match buffer, which is zero in a context that only decompresses. */
  function CopyBytes(h: History, s: nat, d: nat, n: nat): (r: History)
    requires d + n <= |h|
  {
    if n == 0 then h else
      var r := CopyBytes(h, s, d, n - 1);
      r[d + n - 1 := if s + n - 1 < |h| then r[s + n - 1] else 0]
  }

  function TokenLength(t: Token): nat {
    match t
    case Literal(_) => 1
    case Copy(_, length) => length
  }

  /** Where a copy at `pos` reads from: offsets count back and wrap around the used part. */
  function CopySource(level: nat, pos: nat, offset: nat): (s: nat)
    ensures s < HistorySize(level)
  {
    (pos - offset) % HistorySize(level)
  }

  /** The token stays inside the used part. */
  predicate Fits(level: nat, pos: nat, t: Token) {
    pos + TokenLength(t) <= HistorySize(level)
  }

  function Apply(level: nat, h: History, pos: nat, t: Token): (r: History)
    requires Fits(level, pos, t)
  {
    match t
    case Literal(symbol) => h[pos := symbol]
    case Copy(offset, length) => CopyBytes(h, CopySource(level, pos, offset), pos, length)
  }

  predicate AllFit(level: nat, pos: nat, ts: seq<Token>)
    decreases |ts|
  {
    ts == [] || (Fits(level, pos, ts[0]) && AllFit(level, pos + TokenLength(ts[0]), ts[1..]))
  }

  function TotalLength(ts: seq<Token>): nat {
    if ts == [] then 0 else TokenLength(ts[0]) + TotalLength(ts[1..])
  }

  function ApplyAll(level: nat, h: History, pos: nat, ts: seq<Token>): (r: History)
    requires AllFit(level, pos, ts)
    decreases |ts|
  {
    if ts == [] then h
    else ApplyAll(level, Apply(level, h, pos, ts[0]), pos + TokenLength(ts[0]), ts[1..])
  }

  lemma {:induction false} ApplySnoc(level: nat, h: History, pos: nat, ts: seq<Token>, t: Token)
    requires AllFit(level, pos, ts) && Fits(level, pos + TotalLength(ts), t)
    ensures AllFit(level, pos, ts + [t])
    ensures TotalLength(ts + [t]) == TotalLength(ts) + TokenLength(t)
    ensures ApplyAll(level, h, pos, ts + [t]) == Apply(level, ApplyAll(level, h, pos, ts), pos + TotalLength(ts), t)
    decreases |ts|
  {
    if ts == [] {
      assert ts + [t] == [t] && [t][1..] == [];
    } else {
      assert (ts + [t])[1..] == ts[1..] + [t];
      ApplySnoc(level, Apply(level, h, pos, ts[0]), pos + TokenLength(ts[0]), ts[1..], t);
    }
  }

  lemma {:induction false} BitsSnoc(level: nat, ts: seq<Token>, t: Token)
    ensures AllBits(level, ts + [t]) == AllBits(level, ts) + TokenBits(level, t)
  {
    if ts == [] {
      assert ts + [t] == [t] && [t][1..] == [];
    } else {
      assert (ts + [t])[1..] == ts[1..] + [t];
      BitsSnoc(level, ts[1..], t);
    }
  }

  // ----- decoding

  datatype Decoded =
    | Done(history: History, pos: nat)
    | OutOfRange(history: History)      // -1004
    | InvalidOffset(history: History)   // -1001 or -1002
    | InvalidLength(history: History)   // -1003
    | Overflow(history: History)        // -1005

  /** The decoding loop of mppc_decompress. */
  function Decode(level: nat, h: History, pos: nat, b: seq<bool>): (r: Decoded)
    ensures r.Done? ==> pos <= r.pos && (r.pos == pos || r.pos <= HistorySize(level))
    decreases |b|
  {
    if |b| < 8 then Done(h, pos)
    else if pos > HistorySize(level) - 1 then OutOfRange(h)
    else
      match ReadToken(level, b)
      case BadOffset => InvalidOffset(h)
      case BadLength => InvalidLength(h)
      case Read(Literal(symbol), rest) => Decode(level, h[pos := symbol], pos + 1, rest)
      case Read(Copy(offset, length), rest) =>
        if pos + length - 1 > HistorySize(level) - 1 then Overflow(h)
        else Decode(level, CopyBytes(h, CopySource(level, pos, offset), pos, length), pos + length, rest)
  }

  predicate AllCodable(level: nat, ts: seq<Token>) {
    forall i :: 0 <= i < |ts| ==> Codable(level, ts[i])
  }

  lemma DecodeStep(level: nat, h: History, pos: nat, b: seq<bool>, t: Token, rest: seq<bool>)
    requires |b| >= 8 && ReadToken(level, b) == Read(t, rest) && Codable(level, t) && Fits(level, pos, t)
    ensures Decode(level, h, pos, b) == Decode(level, Apply(level, h, pos, t), pos + TokenLength(t), rest)
  {
    hide ReadToken;
  }

  lemma FirstTokenBits(level: nat, ts: seq<Token>, padding: seq<bool>)
    requires ts != []
    ensures AllBits(level, ts) + padding == TokenBits(level, ts[0]) + (AllBits(level, ts[1..]) + padding)
  {
  }

  /** Decoding the bits of any tokens that fit applies exactly those tokens: no token is shorter
      than a byte and the padding is, so the loop stops after the last one. */
  lemma {:induction false} DecodeAppliesTokens(level: nat, h: History, pos: nat, ts: seq<Token>, padding: seq<bool>)
    requires level <= 1 && AllCodable(level, ts) && AllFit(level, pos, ts) && |padding| < 8
    ensures Decode(level, h, pos, AllBits(level, ts) + padding) ==
            Done(ApplyAll(level, h, pos, ts), pos + TotalLength(ts))
    decreases |ts|
  {
    hide ReadToken, TokenBits;
    if ts == [] {
    } else {
      var t, rest := ts[0], AllBits(level, ts[1..]) + padding;
      FirstTokenBits(level, ts, padding);
      TokenRoundTrip(level, t, rest);
      DecodeStep(level, h, pos, TokenBits(level, t) + rest, t, rest);
      DecodeAppliesTokens(level, Apply(level, h, pos, t), pos + TokenLength(t), ts[1..], padding);
    }
  }
}
