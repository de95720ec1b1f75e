/** The circular log: `ring_write`, line-oriented readers at absolute positions, and the lossy
    stdout flusher. The reference is the unbounded log of everything ever written. */
module LogBuffer {
  import opened Numerals

  const FLUSH_CHUNK: nat := 512
  const SCAN_LIMIT: nat := 4096
  const RESTART_MESSAGE: string := "\n--- SYSTEM " + "RESTART ---\n"

  // ---------------------------------------------------------------- positions modulo the ring size

  /** Moving a position by less than a turn. */
  lemma ModMove(t: int, d: int, n: nat)
    requires d < n && -d < n && t >= 0 && t + d >= 0
    ensures (t + d) % n == var q := t % n + d; if q < 0 then q + n else if q < n then q else q - n
  {
    var q, r := t / n, t % n;
    DivId(t, n);
    if r + d < 0 {
      MulAdd(q - 1, 1, n);
      assert q == 0 ==> q * n == 0;
      ModIs(t + d, q - 1, r + d + n, n);
    } else if r + d < n {
      ModIs(t + d, q, r + d, n);
    } else {
      MulAdd(q, 1, n);
      ModIs(t + d, q + 1, r + d - n, n);
    }
  }

  lemma FullTurn(p: nat, n: nat)
    requires n > 0
    ensures (p + n) % n == p % n
  {
    DivId(p, n);
    MulAdd(p / n, 1, n);
    ModIs(p + n, p / n + 1, p % n, n);
  }

  // ---------------------------------------------------------------- the ring and the log

  /** Every position of the last turn of `log` is at its place in `ring`. */
  ghost predicate Mirrors(ring: seq<char>, log: seq<char>) {
    |ring| > 0 && forall p: nat :: |log| - |ring| <= p < |log| ==> ring[p % |ring|] == log[p]
  }

  /** The distance of place `q` ahead of the place of position `t`. */
  function Ahead(q: nat, t: nat, n: nat): nat
    requires q < n
  {
    if q >= t % n then q - t % n else q + n - t % n
  }

  /** `ring` after the bytes `data`, at most two turns of them, have been written at absolute position `t`. */
  ghost function Overwritten(ring: seq<char>, t: nat, data: seq<char>): (r: seq<char>)
    requires |ring| > 0
    ensures |r| == |ring|
  {
    seq(|ring|, q requires 0 <= q < |ring| =>
      var a := Ahead(q, t, |ring|);
      if a + |ring| < |data| then data[a + |ring|] else if a < |data| then data[a] else ring[q])
  }

  lemma WriteMirrors(ring: seq<char>, log: seq<char>, data: seq<char>)
    requires Mirrors(ring, log) && |data| <= 2 * |ring|
    ensures Mirrors(Overwritten(ring, |log|, data), log + data)
  {
    var n, t, next := |ring|, |log|, Overwritten(ring, |log|, data);
    forall p: nat | |log + data| - n <= p < |log + data|
      ensures next[p % n] == (log + data)[p]
    {
      PlaceOfLast(p, t, |data|, n);
      if p < t {
        assert ring[p % n] == log[p];
      }
    }
  }

  /** The place of a position of the last turn, after a write of `len` bytes at `t`. */
  lemma PlaceOfLast(p: nat, t: nat, len: nat, n: nat)
    requires n > 0 && len <= 2 * n && t + len - n <= p < t + len
    ensures p >= t + n ==> Ahead(p % n, t, n) + n == p - t
    ensures t <= p < t + n ==> Ahead(p % n, t, n) == p - t
    ensures p < t ==> Ahead(p % n, t, n) >= len
  {
    if p >= t + n {
      FullTurn(p - n, n);
      PlaceAhead(p - n, t, n, n);
    } else if p >= t {
      PlaceAhead(p, t, n, n);
    } else {
      PlaceAhead(p, t, len, n);
    }
  }

  lemma PlaceAhead(p: nat, t: nat, len: nat, n: nat)
    requires n > 0 && len <= n && t + len - n <= p < t + len
    ensures p >= t ==> Ahead(p % n, t, n) == p - t
    ensures p < t ==> Ahead(p % n, t, n) >= len
  {
    if p == t - n {
      FullTurn(p, n);
    } else {
      ModMove(t, p - t, n);
    }
  }

  // ---------------------------------------------------------------- readers

  /** The distance of the first newline among the `n` characters from `from`, or `n`. */
  function NewlineAfter(log: seq<char>, from: nat, n: nat): (i: nat)
    requires from + n <= |log|
    ensures i <= n && (i < n ==> log[from + i] == '\n')
    ensures forall j :: from <= j < from + i ==> log[j] != '\n'
    decreases n
  {
    if n == 0 || log[from] == '\n' then 0 else 1 + NewlineAfter(log, from + 1, n - 1)
  }

  function Min(a: nat, b: nat): nat {
    if a < b then a else b
  }

  /** Where a read that asks for `req` starts: there if it is retained, at the end if it is ahead,
      otherwise after the first newline of what is retained, looking no further than the limit. */
  function ReadStart(log: seq<char>, n: nat, req: nat): (start: nat)
    ensures start <= |log|
  {
    var r := Min(req, |log|);
    if |log| >= n && r < |log| - n then
      var base := |log| - n;
      var limit := Min(n, SCAN_LIMIT);
      var i := NewlineAfter(log, base, limit);
      if i < limit then base + i + 1 else base
    else r
  }

  /** How much it takes: up to and including the first newline, or all that fits. */
  function ReadLength(log: seq<char>, start: nat, max: nat): nat
    requires start <= |log|
  {
    var room := Min(|log| - start, max);
    var i := NewlineAfter(log, start, room);
    if i < room then i + 1 else room
  }

  function ReadText(log: seq<char>, n: nat, req: nat, max: nat): seq<char> {
    var s := ReadStart(log, n, req);
    log[s..s + ReadLength(log, s, max)]
  }

  /** An overrun reader restarts behind the first newline at or after `base`, looking at `limit` bytes, and at
      `base` only if there is none. */
  ghost predicate Resynchronised(log: seq<char>, base: nat, limit: nat, s: nat)
    requires base + limit <= |log|
  {
    base <= s <= base + limit
    && (s > base ==> log[s - 1] == '\n' && '\n' !in log[base..s - 1])
    && (s == base ==> '\n' !in log[base..base + limit])
  }

  /** Where a read starts: at the position asked for or the end of the log, but an overrun reader at a line. */
  lemma StartIs(log: seq<char>, n: nat, req: nat)
    requires n > 0
    ensures var s := ReadStart(log, n, req);
      |log| - n <= s
      && (req <= |log| && |log| - n <= req ==> s == req)
      && (req > |log| ==> s == |log|)
      && (req < |log| - n ==> Resynchronised(log, |log| - n, Min(n, SCAN_LIMIT), s))
  {
    hide NewlineAfter;
  }

  /** One read: a slice of the log from a retained position, ending at its only newline or
      as full as it can be. */
  lemma ReadIsLine(log: seq<char>, n: nat, req: nat, max: nat)
    requires n > 0
    ensures var s, text := ReadStart(log, n, req), ReadText(log, n, req, max);
      |log| - n <= s && |text| <= max
      && (req <= |log| && |log| - n <= req ==> s == req)
      && (req > |log| ==> s == |log|)
      && (req < |log| - n ==> Resynchronised(log, |log| - n, Min(n, SCAN_LIMIT), s))
      && (forall i {:trigger text[i]} :: 0 <= i < |text| - 1 ==> text[i] != '\n')
      && (text == [] ==> s == |log| || max == 0)
      && (text != [] && text[|text| - 1] != '\n' ==> |text| == max || s + |text| == |log|)
  {
    hide ReadStart, Resynchronised;
    StartIs(log, n, req);
    var s := ReadStart(log, n, req);
    var k := ReadLength(log, s, max);
    var text := log[s..s + k];
    forall i | 0 <= i < |text| - 1
      ensures text[i] != '\n'
    {
      assert text[i] == log[s + i];
    }
  }

  lemma ReadInside(log: seq<char>, n: nat, req: nat, max: nat)
    requires n > 0 && |log| - n <= req <= |log|
    ensures var text := ReadText(log, n, req, max);
      ReadStart(log, n, req) == req && req + |text| <= |log| && text == log[req..req + |text|]
  {
    hide NewlineAfter;
    ReadIsLine(log, n, req, max);
  }

  function Flatten(texts: seq<seq<char>>): seq<char> {
    if texts == [] then [] else Flatten(texts[..|texts| - 1]) + texts[|texts| - 1]
  }

  /** A reader whose `k`-th call sees `logs[k]` and returns `texts[k]`, moving from `pos[k]` to `pos[k + 1]`. */
  ghost predicate Follows(n: nat, logs: seq<seq<char>>, max: nat, pos: seq<nat>, texts: seq<seq<char>>) {
    |logs| == |texts| && |pos| == |texts| + 1
    && (forall k :: 0 <= k < |texts| ==>
      texts[k] == ReadText(logs[k], n, pos[k], max) && pos[k + 1] == ReadStart(logs[k], n, pos[k]) + |texts[k]|)
  }

  lemma SlicesJoin(l: seq<char>, log: seq<char>, a: nat, b: nat, c: nat)
    requires l <= log && a <= b <= c <= |l|
    ensures log[a..b] + l[b..c] == log[a..c]
  {
  }

  /** Each log continues the one before it. */
  ghost predicate Grows(logs: seq<seq<char>>) {
    forall k :: 0 <= k < |logs| - 1 ==> logs[k] <= logs[k + 1]
  }

  /** The bytes that were gone when a call asked for them, or that resynchronising passed over. */
  function Skipped(n: nat, logs: seq<seq<char>>, pos: seq<nat>): int
    requires |pos| >= |logs|
  {
    if logs == [] then 0
    else
      var m := |logs| - 1;
      Skipped(n, logs[..m], pos) + ReadStart(logs[m], n, pos[m]) - pos[m]
  }

  /** Every call found what it asked for still in the ring. */
  ghost predicate NeverOverrun(n: nat, logs: seq<seq<char>>, pos: seq<nat>)
    requires |pos| >= |logs|
  {
    forall k :: 0 <= k < |logs| ==> |logs[k]| - n <= pos[k]
  }

  /** One call at a position its log has reached. */
  lemma ReadAccount(n: nat, log: seq<char>, max: nat, pos: nat)
    requires n > 0 && pos <= |log|
    ensures var s, text := ReadStart(log, n, pos), ReadText(log, n, pos, max);
      pos <= s && s + |text| <= |log| && text == log[s..s + |text|] && (pos < s <==> pos < |log| - n)
  {
    hide NewlineAfter;
    ReadIsLine(log, n, pos, max);
    if |log| - n <= pos {
      ReadInside(log, n, pos, max);
    }
  }

  /** Every text is the slice of its log from where its call started to where it left the position. */
  ghost predicate InOrder(n: nat, logs: seq<seq<char>>, pos: seq<nat>, texts: seq<seq<char>>)
    requires |logs| == |texts| < |pos|
  {
    forall k :: 0 <= k < |texts| ==> Taken(n, logs[k], pos[k], pos[k + 1], texts[k])
  }

  ghost predicate Taken(n: nat, log: seq<char>, pos: nat, next: nat, text: seq<char>) {
    var s := ReadStart(log, n, pos);
    pos <= s <= next <= |log| && text == log[s..next]
  }

  lemma FollowsLast(n: nat, logs: seq<seq<char>>, max: nat, pos: seq<nat>, texts: seq<seq<char>>)
    requires n > 0 && Follows(n, logs, max, pos, texts) && Grows(logs) && texts != []
    ensures var m := |texts| - 1;
      Follows(n, logs[..m], max, pos[..m + 1], texts[..m]) && Grows(logs[..m])
      && (m > 0 ==> |logs[m - 1]| <= |logs[m]|)
      && (pos[m] <= |logs[m]| ==> Taken(n, logs[m], pos[m], pos[m + 1], texts[m]))
      && pos[m + 1] == ReadStart(logs[m], n, pos[m]) + |texts[m]|
      && (pos[m] <= |logs[m]| ==> (ReadStart(logs[m], n, pos[m]) == pos[m] <==> |logs[m]| - n <= pos[m]))
  {
    hide ReadStart, ReadText;
    var m := |texts| - 1;
    assert m > 0 ==> logs[m - 1] <= logs[m];
    if pos[m] <= |logs[m]| {
      ReadAccount(n, logs[m], max, pos[m]);
    }
  }

  lemma InOrderLast(n: nat, logs: seq<seq<char>>, pos: seq<nat>, texts: seq<seq<char>>)
    requires |logs| == |texts| < |pos| && texts != []
    ensures var m := |texts| - 1;
      (InOrder(n, logs, pos, texts)
       <==> InOrder(n, logs[..m], pos[..m + 1], texts[..m]) && Taken(n, logs[m], pos[m], pos[m + 1], texts[m]))
      && (NeverOverrun(n, logs, pos)
          <==> NeverOverrun(n, logs[..m], pos[..m + 1]) && |logs[m]| - n <= pos[m])
  {
    hide Taken;
  }

  lemma InOrderAt(n: nat, logs: seq<seq<char>>, pos: seq<nat>, texts: seq<seq<char>>, k: nat)
    requires |logs| == |texts| < |pos| && InOrder(n, logs, pos, texts) && k < |texts|
    ensures pos[k] <= pos[k + 1] <= |logs[k]|
  {
  }

  /** The account of any reader, overrun or not: its slices of the log follow one another without overlap, and
      the position it reaches is its start, what it was given and what it skipped. It skips something exactly
      when it is overrun. */
  lemma {:induction false} ReaderAccount(n: nat, logs: seq<seq<char>>, max: nat, pos: seq<nat>,
                                         texts: seq<seq<char>>)
    requires n > 0 && Follows(n, logs, max, pos, texts) && Grows(logs) && (logs != [] ==> pos[0] <= |logs[0]|)
    ensures Account(n, logs, pos, texts)
    decreases |texts|
  {
    hide ReadStart, Taken, Follows, Grows, Account;
    FollowsShape(n, logs, max, pos, texts);
    if texts == [] {
      AccountOfNone(n, logs, pos, texts);
    } else {
      var m := |texts| - 1;
      FollowsLast(n, logs, max, pos, texts);
      FirstPosition(logs, pos, m);
      ReaderAccount(n, logs[..m], max, pos[..m + 1], texts[..m]);
      AccountLast(n, logs, pos, texts);
    }
  }

  ghost predicate Account(n: nat, logs: seq<seq<char>>, pos: seq<nat>, texts: seq<seq<char>>) {
    |logs| == |texts| && |pos| == |texts| + 1
    && InOrder(n, logs, pos, texts)
    && pos[|texts|] == pos[0] + |Flatten(texts)| + Skipped(n, logs, pos)
    && Skipped(n, logs, pos) >= 0
    && (Skipped(n, logs, pos) == 0 <==> NeverOverrun(n, logs, pos))
  }

  lemma AccountOfNone(n: nat, logs: seq<seq<char>>, pos: seq<nat>, texts: seq<seq<char>>)
    requires logs == [] && texts == [] && |pos| == 1
    ensures Account(n, logs, pos, texts)
  {
  }

  lemma FirstPosition(logs: seq<seq<char>>, pos: seq<nat>, m: nat)
    requires m < |logs| < |pos| && pos[0] <= |logs[0]|
    ensures logs[..m] != [] ==> pos[..m + 1][0] <= |logs[..m][0]|
  {
  }

  lemma AccountLast(n: nat, logs: seq<seq<char>>, pos: seq<nat>, texts: seq<seq<char>>)
    requires |logs| == |texts| && |pos| == |texts| + 1 && texts != []
    requires var m := |texts| - 1;
      Account(n, logs[..m], pos[..m + 1], texts[..m])
      && (m == 0 ==> pos[0] <= |logs[0]|) && (m > 0 ==> |logs[m - 1]| <= |logs[m]|)
      && (pos[m] <= |logs[m]| ==> Taken(n, logs[m], pos[m], pos[m + 1], texts[m]))
      && pos[m + 1] == ReadStart(logs[m], n, pos[m]) + |texts[m]|
      && (pos[m] <= |logs[m]| ==> (ReadStart(logs[m], n, pos[m]) == pos[m] <==> |logs[m]| - n <= pos[m]))
    ensures Account(n, logs, pos, texts)
  {
    hide ReadStart, InOrder, NeverOverrun, Flatten, Skipped;
    var m := |texts| - 1;
    var logs', pos', texts' := logs[..m], pos[..m + 1], texts[..m];
    assert pos'[m] == pos[m] && pos'[0] == pos[0];
    SumsLast(n, logs, pos, texts);
    InOrderLast(n, logs, pos, texts);
    if m > 0 {
      InOrderAt(n, logs', pos', texts', m - 1);
      assert logs'[m - 1] == logs[m - 1];
    }
  }

  lemma SumsLast(n: nat, logs: seq<seq<char>>, pos: seq<nat>, texts: seq<seq<char>>)
    requires |logs| == |texts| < |pos| && texts != []
    ensures var m := |texts| - 1;
      |Flatten(texts)| == |Flatten(texts[..m])| + |texts[m]|
      && Skipped(n, logs, pos) == Skipped(n, logs[..m], pos[..m + 1]) + ReadStart(logs[m], n, pos[m]) - pos[m]
  {
    hide ReadStart;
    SkippedPrefix(n, logs[..|texts| - 1], pos, |texts|);
  }

  lemma FollowsShape(n: nat, logs: seq<seq<char>>, max: nat, pos: seq<nat>, texts: seq<seq<char>>)
    requires Follows(n, logs, max, pos, texts)
    ensures |logs| == |texts| && |pos| == |texts| + 1
  {
  }

  lemma {:induction false} SkippedPrefix(n: nat, logs: seq<seq<char>>, pos: seq<nat>, k: nat)
    requires |logs| <= k <= |pos|
    ensures Skipped(n, logs, pos[..k]) == Skipped(n, logs, pos)
    decreases |logs|
  {
    hide ReadStart;
    if logs == [] {
    } else {
      SkippedPrefix(n, logs[..|logs| - 1], pos, k);
    }
  }

  /** A reader gets the log between its first and its last position without loss or repetition exactly when it
      is never overrun, however the log grows between its calls. */
  lemma ReaderLosesNothing(n: nat, logs: seq<seq<char>>, max: nat, pos: seq<nat>, texts: seq<seq<char>>,
                           log: seq<char>)
    requires n > 0 && Follows(n, logs, max, pos, texts) && Grows(logs) && (logs != [] ==> pos[0] <= |logs[0]|)
    requires pos[0] <= |log| && forall k :: 0 <= k < |logs| ==> logs[k] <= log
    ensures pos[0] <= pos[|texts|] <= |log|
    ensures Flatten(texts) == log[pos[0]..pos[|texts|]] <==> NeverOverrun(n, logs, pos)
  {
    hide ReadStart, ReadText, Skipped, Flatten, Taken;
    ReaderAccount(n, logs, max, pos, texts);
    if texts != [] {
      assert logs[|texts| - 1] <= log;
      InOrderAt(n, logs, pos, texts, |texts| - 1);
    }
    if NeverOverrun(n, logs, pos) {
      forall k | 0 <= k < |logs| ensures pos[k] <= |logs[k]| {
        InOrderAt(n, logs, pos, texts, k);
      }
      LosslessReader(n, logs, max, pos, texts, log);
    }
  }

  lemma {:induction false} LosslessReader(n: nat, logs: seq<seq<char>>, max: nat, pos: seq<nat>,
                                          texts: seq<seq<char>>, log: seq<char>)
    requires n > 0 && Follows(n, logs, max, pos, texts) && pos[0] <= |log|
    requires forall k :: 0 <= k < |logs| ==> logs[k] <= log
    requires forall k :: 0 <= k < |logs| ==> |logs[k]| - n <= pos[k] <= |logs[k]|
    ensures pos[0] <= pos[|texts|] <= |log| && Flatten(texts) == log[pos[0]..pos[|texts|]]
  {
    hide ReadStart, ReadText;
    if texts == [] {
    } else {
      var m := |texts| - 1;
      var l := logs[m];
      LosslessReader(n, logs[..m], max, pos[..m + 1], texts[..m], log);
      ReadInside(l, n, pos[m], max);
      SlicesJoin(l, log, pos[0], pos[m], pos[m + 1]);
    }
  }

  // ---------------------------------------------------------------- the flusher

  /** What the flusher has put on stdout or given up, in order. */
  datatype Piece = Chunk(bytes: seq<char>) | Gap(count: nat)

  function Span(p: Piece): nat {
    match p
    case Chunk(b) => |b|
    case Gap(n) => n
  }

  /** `pieces` cover `log` from `from` to `to`, each where the one before it ends. */
  ghost predicate Tiles(pieces: seq<Piece>, log: seq<char>, from: nat, to: nat) {
    if pieces == [] then from == to <= |log|
    else
      var p := pieces[|pieces| - 1];
      to - Span(p) >= from && to <= |log| && Tiles(pieces[..|pieces| - 1], log, from, to - Span(p))
      && (p.Chunk? ==> log[to - Span(p)..to] == p.bytes)
  }

  function GapPiece(n: nat): seq<Piece> {
    if n > 0 then [Gap(n)] else []
  }

  function ChunkPiece(bytes: seq<char>): seq<Piece> {
    if bytes != [] then [Chunk(bytes)] else []
  }

  function BytesOf(p: Piece): seq<char> {
    if p.Chunk? then p.bytes else []
  }

  function LossOf(p: Piece): nat {
    if p.Gap? then p.count else 0
  }

  function Emitted(pieces: seq<Piece>): seq<char> {
    if pieces == [] then [] else Emitted(pieces[..|pieces| - 1]) + BytesOf(pieces[|pieces| - 1])
  }

  function Dropped(pieces: seq<Piece>): nat {
    if pieces == [] then 0 else Dropped(pieces[..|pieces| - 1]) + LossOf(pieces[|pieces| - 1])
  }

  /** Position reached = start + bytes emitted + bytes counted as dropped. */
  lemma {:induction false} FlushConservation(pieces: seq<Piece>, log: seq<char>, from: nat, to: nat)
    requires Tiles(pieces, log, from, to)
    ensures from <= to && to == from + |Emitted(pieces)| + Dropped(pieces)
    ensures Dropped(pieces) == 0 ==> to <= |log| && Emitted(pieces) == log[from..to]
  {
    if pieces == [] {
    } else {
      hide Tiles, Emitted, Dropped, BytesOf, LossOf, Span;
      var init, p := pieces[..|pieces| - 1], pieces[|pieces| - 1];
      LastPiece(pieces, log, from, to);
      FlushConservation(init, log, from, to - Span(p));
      if Dropped(pieces) == 0 {
        SliceJoins(log, from, to - Span(p), to, Emitted(init), BytesOf(p));
      }
    }
  }

  lemma SliceJoins(log: seq<char>, from: nat, mid: nat, to: nat, a: seq<char>, b: seq<char>)
    requires from <= mid <= to <= |log| && a == log[from..mid] && b == log[mid..to]
    ensures a + b == log[from..to]
  {
  }

  lemma LastPiece(pieces: seq<Piece>, log: seq<char>, from: nat, to: nat)
    requires Tiles(pieces, log, from, to) && pieces != []
    ensures var init, p := pieces[..|pieces| - 1], pieces[|pieces| - 1];
      from <= to - Span(p) && to <= |log| && Tiles(init, log, from, to - Span(p))
      && (LossOf(p) == 0 ==> BytesOf(p) == log[to - Span(p)..to]) && Span(p) == |BytesOf(p)| + LossOf(p)
      && Emitted(pieces) == Emitted(init) + BytesOf(p) && Dropped(pieces) == Dropped(init) + LossOf(p)
  {
  }

  lemma {:induction false} TilesGrow(pieces: seq<Piece>, log: seq<char>, more: seq<char>, from: nat, to: nat)
    requires Tiles(pieces, log, from, to)
    ensures Tiles(pieces, log + more, from, to)
  {
    if pieces == [] {
    } else {
      var p := pieces[|pieces| - 1];
      TilesGrow(pieces[..|pieces| - 1], log, more, from, to - Span(p));
      assert p.Chunk? ==> (log + more)[to - Span(p)..to] == log[to - Span(p)..to];
    }
  }

  lemma TilesAppend(pieces: seq<Piece>, log: seq<char>, from: nat, to: nat, p: Piece)
    requires Tiles(pieces, log, from, to) && to + Span(p) <= |log|
    requires p.Chunk? ==> log[to..to + Span(p)] == p.bytes
    ensures Tiles(pieces + [p], log, from, to + Span(p))
    ensures Dropped(pieces + [p]) == Dropped(pieces) + LossOf(p)
    ensures Emitted(pieces + [p]) == Emitted(pieces) + BytesOf(p)
  {
    assert (pieces + [p])[..|pieces|] == pieces;
    FlushBounds(pieces, log, from, to);
  }

  lemma {:induction false} FlushBounds(pieces: seq<Piece>, log: seq<char>, from: nat, to: nat)
    requires Tiles(pieces, log, from, to)
    ensures from <= to <= |log|
  {
    if pieces == [] {
    } else {
      FlushBounds(pieces[..|pieces| - 1], log, from, to - Span(pieces[|pieces| - 1]));
    }
  }

  // ---------------------------------------------------------------- reading the ring

  lemma PlaceOf(pos: nat, i: nat, n: nat)
    requires i <= n && n > 0
    ensures (pos + i) % n == if pos % n + i < n then pos % n + i else pos % n + i - n
  {
    if i < n {
      ModMove(pos, i, n);
    } else {
      FullTurn(pos, n);
    }
  }

  /** What the two-part copy takes out of the ring. */
  function CopyOut(ring: seq<char>, at: nat, len: nat): (text: seq<char>)
    requires at < |ring| && len <= |ring|
    ensures |text| == len
  {
    if len <= |ring| - at then ring[at..at + len] else ring[at..] + ring[..len - (|ring| - at)]
  }

  /** Two copies, the second from the start of the ring if the first reaches its end. */
  lemma CopyFromRing(ring: seq<char>, log: seq<char>, pos: nat, len: nat)
    requires Mirrors(ring, log) && |log| - |ring| <= pos && pos + len <= |log|
    ensures CopyOut(ring, pos % |ring|, len) == log[pos..pos + len]
  {
    var text := CopyOut(ring, pos % |ring|, len);
    forall i | 0 <= i < len
      ensures text[i] == log[pos + i]
    {
      PlaceOf(pos, i, |ring|);
      assert ring[(pos + i) % |ring|] == log[pos + i];
    }
  }

  function Max(a: int, b: int): int {
    if a < b then b else a
  }

  /** How much of what follows position `pos` a ring of `n` bytes has lost after `total`. */
  function Lost(pos: nat, total: nat, n: nat): nat {
    if pos < total - n then total - n - pos else 0
  }

  class Ring {
    const buffer: array<char>
    var totalWritten: nat
    var stdoutPos: nat
    var stdoutDropped: nat
    ghost var log: seq<char>
    ghost var flushStart: nat
    ghost var pieces: seq<Piece>

    ghost predicate Valid()
      reads this, buffer
    {
      totalWritten == |log| && Mirrors(buffer[..], log)
      && Tiles(pieces, log, flushStart, stdoutPos) && stdoutDropped == Dropped(pieces)
    }

    /** Whatever writes and flusher rounds have happened, in any order: the flusher's position is
        where it started, plus every byte it emitted, plus the counter of bytes it lost. */
    lemma FlushAccount()
      requires Valid()
      ensures stdoutPos == flushStart + |Emitted(pieces)| + stdoutDropped
    {
      FlushConservation(pieces, log, flushStart, stdoutPos);
    }

    /** A cold boot: an empty log. */
    constructor (size: nat)
      requires size > 0
      ensures Valid() && fresh(buffer) && buffer.Length == size && log == [] && pieces == []
    {
      buffer := new char[size](_ => '\0');
      totalWritten, stdoutPos, stdoutDropped := 0, 0, 0;
      log, flushStart, pieces := [], 0, [];
    }

    /** `ring_write`, for data whose second copy still ends inside the buffer; a longer write, which would run
        past it, is outside the model. */
    method Write(data: seq<char>)
      requires Valid() && |data| <= 2 * buffer.Length - totalWritten % buffer.Length
      modifies this`totalWritten, this`log, buffer
      ensures Valid() && log == old(log) + data
    {
      if |data| == 0 {
        assert log == log + data;
        return;
      }
      var offset := totalWritten % buffer.Length;
      var tillEnd := buffer.Length - offset;
      if |data| <= tillEnd {
        forall k | 0 <= k < |data| { buffer[offset + k] := data[k]; }
      } else {
        forall k | 0 <= k < tillEnd { buffer[offset + k] := data[k]; }
        forall k | 0 <= k < |data| - tillEnd { buffer[k] := data[tillEnd + k]; }
      }
      assert buffer[..] == Overwritten(old(buffer[..]), totalWritten, data);
      WriteMirrors(old(buffer[..]), log, data);
      TilesGrow(pieces, log, data, flushStart, stdoutPos);
      totalWritten := totalWritten + |data|;
      log := log + data;
    }

    /** A soft reboot keeps the ring and its header, logs the restart, and starts flushing at the end. */
    method Restart()
      requires Valid() && |RESTART_MESSAGE| <= buffer.Length
      modifies this, buffer
      ensures Valid() && log == old(log) + RESTART_MESSAGE
      ensures pieces == [] && flushStart == stdoutPos == |log| && stdoutDropped == 0
    {
      Write(RESTART_MESSAGE);
      stdoutPos, stdoutDropped := totalWritten, 0;
      flushStart, pieces := totalWritten, [];
    }

    /** The two-part copy out of the ring. */
    method Copy(pos: nat, len: nat) returns (text: seq<char>)
      requires Mirrors(buffer[..], log) && |log| - buffer.Length <= pos && pos + len <= |log|
      ensures text == log[pos..pos + len]
    {
      CopyFromRing(buffer[..], log, pos, len);
      var at := pos % buffer.Length;
      var tillEnd := buffer.Length - at;
      if len <= tillEnd {
        text := buffer[at..at + len];
      } else {
        text := buffer[at..] + buffer[..len - tillEnd];
      }
    }

    /** The scan for a newline, place by place in the ring. */
    method FindNewline(from: nat, n: nat) returns (i: nat)
      requires Mirrors(buffer[..], log) && |log| - buffer.Length <= from && from + n <= |log|
      ensures i == NewlineAfter(log, from, n)
    {
      i := 0;
      while i < n
        invariant i <= n && forall j :: from <= j < from + i ==> log[j] != '\n'
      {
        assert buffer[..][(from + i) % buffer.Length] == log[from + i];
        if buffer[(from + i) % buffer.Length] == '\n' {
          break;
        }
        i := i + 1;
      }
      NewlineIs(log, from, n, i);
    }

    /** The first half of `log_buffer_read_absolute`: clamp the position, and resynchronise an
        overrun one to a line. */
    method Locate(absPos: nat) returns (start: nat)
      requires Valid()
      ensures start == ReadStart(log, buffer.Length, absPos)
    {
      hide Mirrors, Tiles, Dropped, NewlineAfter;
      start := absPos;
      if start > totalWritten {
        start := totalWritten;
      }
      if totalWritten >= buffer.Length && start < totalWritten - buffer.Length {
        start := totalWritten - buffer.Length;
        var scan := totalWritten - start;
        if scan > 4096 { scan := 4096; }
        var i := FindNewline(start, scan);
        if i < scan {
          start := start + i + 1;
        }
      }
    }

    /** `log_buffer_read_absolute`. */
    method ReadAbsolute(absPos: nat, maxLen: nat) returns (text: seq<char>, newPos: nat)
      requires Valid()
      ensures maxLen == 0 ==> text == [] && newPos == absPos
      ensures maxLen > 0 ==> text == ReadText(log, buffer.Length, absPos, maxLen)
      ensures maxLen > 0 ==> newPos == ReadStart(log, buffer.Length, absPos) + |text|
    {
      hide Mirrors, Tiles, Dropped, NewlineAfter, ReadStart;
      if maxLen == 0 {
        return [], absPos;
      }
      var req := Locate(absPos);
      StartRetained(log, buffer.Length, absPos);
      var available := totalWritten - req;
      var toRead := if available < maxLen then available else maxLen;
      NewlineNone(log, req);
      if toRead > 0 {
        var i := FindNewline(req, toRead);
        if i < toRead {
          toRead := i + 1;
        }
      }
      text := Copy(req, toRead);
      newPos := req + toRead;
    }

    /** The first half of a flusher round: count what has been overwritten since the last one. */
    method CountLoss() returns (droppedNow: nat)
      requires Valid()
      modifies this`stdoutPos, this`stdoutDropped, this`pieces
      ensures Valid() && |log| - buffer.Length <= stdoutPos <= |log|
      ensures droppedNow == Lost(old(stdoutPos), |log|, buffer.Length)
      ensures old(stdoutPos) + droppedNow == Max(old(stdoutPos), |log| - buffer.Length)
      ensures stdoutPos == old(stdoutPos) + droppedNow
      ensures pieces == old(pieces) + GapPiece(droppedNow)
    {
      hide Mirrors, Tiles, Dropped;
      droppedNow := 0;
      var total := totalWritten;
      FlushBounds(pieces, log, flushStart, stdoutPos);
      if stdoutPos > total {
        // the source clamps here; the position never passes the end
        assert false;
      }
      if total >= buffer.Length && stdoutPos < total - buffer.Length {
        droppedNow := (total - buffer.Length) - stdoutPos;
        TilesAppend(pieces, log, flushStart, stdoutPos, Gap(droppedNow));
        stdoutDropped := stdoutDropped + droppedNow;
        stdoutPos := total - buffer.Length;
        pieces := pieces + [Gap(droppedNow)];
      }
    }

    /** The second half: take at most a chunk. */
    method TakeChunk() returns (chunk: seq<char>)
      requires Valid() && |log| - buffer.Length <= stdoutPos <= |log|
      modifies this`stdoutPos, this`pieces
      ensures Valid() && |chunk| == Min(|log| - old(stdoutPos), FLUSH_CHUNK)
      ensures stdoutPos == old(stdoutPos) + |chunk| <= |log| && chunk == log[old(stdoutPos)..stdoutPos]
      ensures pieces == old(pieces) + ChunkPiece(chunk)
    {
      hide Mirrors, Tiles, Dropped;
      chunk := [];
      var available := totalWritten - stdoutPos;
      var bytes := if available < 512 then available else 512;
      if bytes > 0 {
        chunk := Copy(stdoutPos, bytes);
        TilesAppend(pieces, log, flushStart, stdoutPos, Chunk(chunk));
        stdoutPos := stdoutPos + bytes;
        pieces := pieces + [Chunk(chunk)];
      }
    }

    /** One locked round of `stdout_flush_task`: count the loss, then take a chunk. */
    method FlushRound() returns (chunk: seq<char>, droppedNow: nat)
      requires Valid()
      modifies this`stdoutPos, this`stdoutDropped, this`pieces
      ensures Valid()
      ensures droppedNow == Lost(old(stdoutPos), |log|, buffer.Length)
      ensures old(stdoutPos) + droppedNow == Max(old(stdoutPos), |log| - buffer.Length)
      ensures stdoutPos == old(stdoutPos) + droppedNow + |chunk| <= |log|
      ensures |chunk| == Min(|log| - (old(stdoutPos) + droppedNow), FLUSH_CHUNK)
      ensures chunk == log[old(stdoutPos) + droppedNow..stdoutPos]
      ensures pieces == old(pieces) + GapPiece(droppedNow) + ChunkPiece(chunk)
    {
      hide *;
      droppedNow := CountLoss();
      chunk := TakeChunk();
    }
  }

  lemma StartRetained(log: seq<char>, n: nat, req: nat)
    ensures |log| - n <= ReadStart(log, n, req) <= |log|
  {
  }

  lemma NewlineNone(log: seq<char>, from: nat)
    requires from <= |log|
    ensures NewlineAfter(log, from, 0) == 0
  {
  }

  lemma NewlineIs(log: seq<char>, from: nat, n: nat, i: nat)
    requires from + n <= |log| && i <= n && (i < n ==> log[from + i] == '\n')
    requires forall j :: from <= j < from + i ==> log[j] != '\n'
    ensures NewlineAfter(log, from, n) == i
    decreases n
  {
    if i == 0 {
    } else {
      NewlineIs(log, from + 1, n - 1, i - 1);
    }
  }
}
