/**
 The alert stream from agent beta to the orchestrator: frames "BETA:<len>:<json>", their incremental
 parser and the reassembly loop (agents/beta/beta.go, cmd/ghost-ctl/threat_response.go).
 */
module AlertFraming {
  import opened Bytes
  import opened Options

  const MAGIC: seq<Byte> := [66, 69, 84, 65, COLON] // "BETA:"
  const MAX_FRAME_SIZE: nat := 0x10_0000
  const MAX_FRAME_BUFFER: nat := 0x40_0000
  const READ_SIZE: nat := 0x1_0000
  const MAX_HEADER: nat := 13

  // ----- library functions of the parser -----

  predicate IsMagic(a: Byte, b: Byte, c: Byte, d: Byte, e: Byte) {
    a == 66 && b == 69 && c == 84 && d == 65 && e == COLON
  }

  predicate MagicAt(buf: seq<Byte>, i: nat) {
    i + |MAGIC| <= |buf| && IsMagic(buf[i], buf[i + 1], buf[i + 2], buf[i + 3], buf[i + 4])
  }

  /** The first magic at or after `from`. */
  function FindMagic(buf: seq<Byte>, from: nat): (r: Option<nat>)
    ensures r.Some? ==> from <= r.value && MagicAt(buf, r.value) && forall j :: from <= j < r.value ==> !MagicAt(buf, j)
    ensures r.None? ==> forall j :: from <= j ==> !MagicAt(buf, j)
    decreases |buf| - from
  {
    if from + |MAGIC| > |buf| then None
    else if MagicAt(buf, from) then Some(from)
    else FindMagic(buf, from + 1)
  }

  function FindColon(s: seq<Byte>): (r: Option<nat>)
    ensures r.Some? ==> r.value < |s| && s[r.value] == COLON && forall j :: 0 <= j < r.value ==> s[j] != COLON
    ensures r.None? ==> forall j :: 0 <= j < |s| ==> s[j] != COLON
  {
    if s == [] then None
    else if s[0] == COLON then Some(0)
    else
      var r := FindColon(s[1..]);
      if r.Some? then Some(r.value + 1) else None
  }

  /**
   Decimal text with an optional sign. A number beyond the machine integer is an error in Go and
   a large number here; the caller treats both alike.
   */
  function Atoi(s: seq<Byte>): Option<int> {
    var negative := s != [] && s[0] == 45;
    var digits := if s != [] && s[0] in {43, 45} then s[1..] else s;
    if digits == [] || !AllDigits(digits) then None
    else
      var value: int := DigitsValue(digits);
      Some(if negative then -value else value)
  }

  // ----- the parser -----

  datatype Extracted = Extracted(frame: Option<seq<Byte>>, rest: seq<Byte>)

  function ExtractFrame(buf: seq<Byte>): (r: Extracted)
    ensures |r.rest| <= |buf|
    ensures |r.rest| == |buf| ==> r == Extracted(None, buf)
  {
    if |buf| < |MAGIC| then Extracted(None, buf)
    else if !MagicAt(buf, 0) then
      match FindMagic(buf, 0)
      case Some(i) => Extracted(None, buf[i..])
      case None => Extracted(None, buf[|buf| - |MAGIC| + 1..])
    else
      var hdr := buf[|MAGIC|..];
      match FindColon(hdr)
      case None => Extracted(None, buf)
      case Some(colon) =>
        var length := Atoi(hdr[..colon]);
        var body := |MAGIC| + colon + 1;
        if length.None? || length.value < 0 || length.value > MAX_FRAME_SIZE then Extracted(None, buf[body..])
        else if |buf| < body + length.value then Extracted(None, buf)
        else Extracted(Some(buf[body..body + length.value]), buf[body + length.value..])
  }

  /** The one-shot parse: every frame, resynchronising as often as it helps. */
  function Scan(buf: seq<Byte>): seq<seq<Byte>> {
    var r := ExtractFrame(buf);
    if |r.rest| == |buf| then []
    else if r.frame.Some? then [r.frame.value] + Scan(r.rest)
    else Scan(r.rest)
  }

  // ----- the reassembly loop -----

  /** Extracts while a frame is complete; the first failure ends the drain but keeps its progress. */
  function Drain(buf: seq<Byte>): (r: (seq<seq<Byte>>, seq<Byte>))
    ensures |r.1| <= |buf|
  {
    var r := ExtractFrame(buf);
    if r.frame.None? then ([], r.rest)
    else
      var d := Drain(r.rest);
      ([r.frame.value] + d.0, d.1)
  }

  datatype Connection = Connection(dispatched: seq<seq<Byte>>, buf: seq<Byte>, open: bool)

  function Drained(c: Connection): Connection {
    var d := Drain(c.buf);
    Connection(c.dispatched + d.0, d.1, c.open)
  }

  /** One read, the overflow check and the drain that follows; an empty read only drains again. */
  function Receive(c: Connection, chunk: seq<Byte>): Connection {
    if !c.open then c
    else if chunk == [] then Drained(c)
    else if |c.buf + chunk| > MAX_FRAME_BUFFER then c.(buf := c.buf + chunk, open := false)
    else Drained(c.(buf := c.buf + chunk))
  }

  /** The connection after a list of reads. */
  function Serve(chunks: seq<seq<Byte>>): Connection {
    if chunks == [] then Drained(Connection([], [], true))
    else Receive(Serve(chunks[..|chunks| - 1]), chunks[|chunks| - 1])
  }

  method HandleConnection(chunks: seq<seq<Byte>>) returns (c: Connection)
    ensures c == Serve(chunks)
  {
    var dispatched, buf := [], [];
    var k := 0;
    while true
      invariant k <= |chunks|
      invariant if k == 0 then dispatched == [] && buf == []
                else Serve(chunks[..k - 1]).open && Serve(chunks[..k]) == Drained(Connection(dispatched, buf, true))
      decreases |chunks| - k
    {
      ghost var before := Connection(dispatched, buf, true);
      var ok := true;
      while ok
        invariant ok ==> Drained(Connection(dispatched, buf, true)) == Drained(before)
        invariant !ok ==> Connection(dispatched, buf, true) == Drained(before)
        decreases ok, |buf|
      {
        var r := ExtractFrame(buf);
        buf := r.rest;
        ok := r.frame.Some?;
        if ok {
          dispatched := dispatched + [r.frame.value];
        }
      }
      assert chunks[..0] == [];
      if k == |chunks| {
        assert chunks[..k] == chunks;
        return Connection(dispatched, buf, true);
      }
      assert chunks[..k + 1][..k] == chunks[..k];
      var chunk := chunks[k];
      k := k + 1;
      if chunk == [] {
        continue;
      }
      buf := buf + chunk;
      if |buf| > MAX_FRAME_BUFFER {
        ClosedStaysClosed(chunks, k);
        return Connection(dispatched, buf, false);
      }
    }
  }

  lemma {:induction false} ClosedStaysClosed(chunks: seq<seq<Byte>>, k: nat)
    requires k <= |chunks| && !Serve(chunks[..k]).open
    ensures Serve(chunks) == Serve(chunks[..k])
    decreases |chunks|
  {
    if k < |chunks| {
      assert chunks[..|chunks| - 1][..k] == chunks[..k];
      ClosedStaysClosed(chunks[..|chunks| - 1], k);
    } else {
      assert chunks[..k] == chunks;
    }
  }

  // ----- independence from chunking -----

  lemma FirstMagic(s: seq<Byte>, i: nat)
    requires MagicAt(s, i) && forall j :: 0 <= j < i ==> !MagicAt(s, j)
    ensures FindMagic(s, 0) == Some(i)
  {
    assert FindMagic(s, 0).Some?;
  }

  lemma MagicInSuffix(s: seq<Byte>, k: nat, j: nat)
    requires k <= |s|
    ensures MagicAt(s[k..], j) <==> MagicAt(s, k + j)
  {
  }

  lemma FindMagicInSuffix(s: seq<Byte>, k: nat)
    requires k <= |s| && forall j :: 0 <= j < k ==> !MagicAt(s, j)
    ensures match FindMagic(s, 0)
            case Some(i) => k <= i && FindMagic(s[k..], 0) == Some(i - k) && s[k..][i - k..] == s[i..]
            case None => FindMagic(s[k..], 0).None?
  {
    hide FindMagic;
    var t := s[k..];
    forall j | 0 <= j ensures MagicAt(t, j) <==> MagicAt(s, k + j) {
      MagicInSuffix(s, k, j);
    }
    if FindMagic(s, 0).Some? {
      var i := FindMagic(s, 0).value;
      assert MagicAt(t, i - k) by {
        MagicInSuffix(s, k, i - k);
      }
      FirstMagic(t, i - k);
    }
  }

  /** Bytes before the first magic do not matter to the one-shot parse. */
  lemma SkipToMagic(s: seq<Byte>, k: nat)
    requires k <= |s| && forall j :: 0 <= j < k ==> !MagicAt(s, j)
    ensures Scan(s) == Scan(s[k..])
  {
    hide Scan;
    FindMagicInSuffix(s, k);
    ScanStartsAtMagic(s, FindMagic(s, 0));
    ScanStartsAtMagic(s[k..], FindMagic(s[k..], 0));
  }

  function ScanFrom(s: seq<Byte>, found: Option<nat>): seq<seq<Byte>>
    requires found.Some? ==> found.value <= |s|
  {
    if found.Some? then Scan(s[found.value..]) else []
  }

  lemma ScanStartsAtMagic(s: seq<Byte>, found: Option<nat>)
    requires found == FindMagic(s, 0)
    ensures Scan(s) == ScanFrom(s, found)
  {
    if found == Some(0) {
      assert s[0..] == s;
    }
  }

  /** A resynchronisation step commutes with bytes that arrive later: it keeps any magic cut in two. */
  lemma ResyncThenMore(buf: seq<Byte>, more: seq<Byte>)
    requires |buf| >= |MAGIC| && !MagicAt(buf, 0)
    ensures Scan(buf + more) == Scan(ExtractFrame(buf).rest + more)
  {
    hide Scan;
    var s := buf + more;
    var k := |buf| - |ExtractFrame(buf).rest|;
    forall j | 0 <= j < k ensures !MagicAt(s, j) {
      assert !MagicAt(buf, j) && j + |MAGIC| <= |buf|;
    }
    SkipToMagic(s, k);
    assert s[k..] == ExtractFrame(buf).rest + more;
  }

  /** One extraction step commutes with bytes that arrive later. */
  lemma StepThenMore(buf: seq<Byte>, more: seq<Byte>)
    ensures var r := ExtractFrame(buf);
            Scan(buf + more) == (if r.frame.Some? then [r.frame.value] else []) + Scan(r.rest + more)
  {
    if |buf| >= |MAGIC| && !MagicAt(buf, 0) {
      ResyncThenMore(buf, more);
    } else if |ExtractFrame(buf).rest| < |buf| {
      HeaderThenMore(buf, more);
    }
  }

  lemma FirstColon(s: seq<Byte>, i: nat)
    requires i < |s| && s[i] == COLON && forall j :: 0 <= j < i ==> s[j] != COLON
    ensures FindColon(s) == Some(i)
  {
    assert FindColon(s).Some?;
  }

  /** A complete header is read the same way whatever follows. */
  lemma HeaderThenMore(buf: seq<Byte>, more: seq<Byte>)
    requires MagicAt(buf, 0) && |ExtractFrame(buf).rest| < |buf|
    ensures ExtractFrame(buf + more) == ExtractFrame(buf).(rest := ExtractFrame(buf).rest + more)
  {
    hide Atoi, FindColon;
    var r := ExtractFrame(buf);
    var s := buf + more;
    var hdr, hdr' := buf[|MAGIC|..], s[|MAGIC|..];
    assert hdr' == hdr + more;
    var colon := FindColon(hdr).value;
    FirstColon(hdr', colon);
    assert hdr'[..colon] == hdr[..colon];
    var body := |MAGIC| + colon + 1;
    assert s[body..] == buf[body..] + more;
    var length := Atoi(hdr[..colon]);
    if r.frame.Some? {
      var n := length.value;
      assert s[body..body + n] == buf[body..body + n];
      assert s[body + n..] == buf[body + n..] + more;
    }
  }

  lemma {:induction false} DrainThenMore(buf: seq<Byte>, more: seq<Byte>)
    ensures Scan(buf + more) == Drain(buf).0 + Scan(Drain(buf).1 + more)
    decreases |buf|
  {
    hide ExtractFrame, Scan;
    var r := ExtractFrame(buf);
    StepThenMore(buf, more);
    if r.frame.Some? {
      DrainThenMore(r.rest, more);
    }
  }

  lemma ReceiveThenMore(c: Connection, chunk: seq<Byte>, more: seq<Byte>)
    requires Receive(c, chunk).open
    ensures var d := Receive(c, chunk);
            d.dispatched + Scan(d.buf + more) == c.dispatched + Scan(c.buf + (chunk + more))
  {
    hide Scan, Drain;
    var buf := c.buf + chunk;
    assert chunk == [] ==> buf == c.buf;
    DrainThenMore(buf, more);
    assert buf + more == c.buf + (chunk + more);
    assert Receive(c, chunk) == Drained(c.(buf := buf));
  }

  /**
   Independence from chunking: however a stream is cut into reads, what was dispatched and what the
   buffer still yields are the one-shot parse, for every continuation of the stream. No frame is lost,
   doubled or reordered, and a magic cut in two by a read boundary is still found.
   */
  lemma {:induction false} NothingIsLost(chunks: seq<seq<Byte>>, more: seq<Byte>)
    requires Serve(chunks).open
    ensures Serve(chunks).dispatched + Scan(Serve(chunks).buf + more) == Scan(Flatten(chunks) + more)
    decreases |chunks|
  {
    if chunks == [] {
      DrainThenMore([], more);
    } else {
      var before, chunk := chunks[..|chunks| - 1], chunks[|chunks| - 1];
      hide Scan;
      NothingIsLost(before, chunk + more);
      ReceiveThenMore(Serve(before), chunk, more);
      assert Flatten(chunks) + more == Flatten(before) + (chunk + more);
    }
  }

  lemma {:induction false} ScanGrows(buf: seq<Byte>, more: seq<Byte>)
    ensures Scan(buf) <= Scan(buf + more)
    decreases |buf|
  {
    hide ExtractFrame;
    var r := ExtractFrame(buf);
    StepThenMore(buf, more);
    if |r.rest| < |buf| {
      ScanGrows(r.rest, more);
    }
  }

  /** At every moment, and also after an overflow, the dispatched frames are a prefix of the one-shot parse. */
  lemma {:induction false} DispatchedIsPrefixOfScan(chunks: seq<seq<Byte>>)
    ensures Serve(chunks).dispatched <= Scan(Flatten(chunks))
    decreases |chunks|
  {
    var c := Serve(chunks);
    if c.open {
      NothingIsLost(chunks, []);
      assert Flatten(chunks) + [] == Flatten(chunks);
    } else {
      DispatchedIsPrefixOfScan(chunks[..|chunks| - 1]);
      ScanGrows(Flatten(chunks[..|chunks| - 1]), chunks[|chunks| - 1]);
    }
  }

  /** A step that skips bytes without a frame skips on every longer stream too, so the drain ends there. */
  lemma SkipThenMore(buf: seq<Byte>, more: seq<Byte>)
    requires ExtractFrame(buf).frame.None? && |ExtractFrame(buf).rest| < |buf|
    ensures Drain(buf + more).0 == []
  {
    if MagicAt(buf, 0) {
      HeaderThenMore(buf, more);
    } else {
      assert !MagicAt(buf + more, 0);
    }
  }

  /** Draining early, and again when more has arrived, dispatches at least what one late drain would. */
  lemma {:induction false} DrainEarly(buf: seq<Byte>, more: seq<Byte>)
    ensures Drain(buf + more).0 <= Drain(buf).0 + Drain(Drain(buf).1 + more).0
    decreases |buf|
  {
    hide ExtractFrame;
    var r := ExtractFrame(buf);
    if r.frame.Some? {
      FramesStayInFront(buf, more);
      DrainEarly(r.rest, more);
    } else if |r.rest| < |buf| {
      SkipThenMore(buf, more);
    }
  }

  lemma FramesStayInFront(buf: seq<Byte>, more: seq<Byte>)
    requires ExtractFrame(buf).frame.Some?
    ensures ExtractFrame(buf + more) == ExtractFrame(buf).(rest := ExtractFrame(buf).rest + more)
  {
    HeaderThenMore(buf, more);
  }

  lemma ReceiveEarly(c: Connection, chunk: seq<Byte>, more: seq<Byte>)
    requires Receive(c, chunk).open
    ensures var d := Receive(c, chunk);
            c.dispatched + Drain(c.buf + (chunk + more)).0 <= d.dispatched + Drain(d.buf + more).0
  {
    hide Drain;
    var buf := c.buf + chunk;
    assert chunk == [] ==> buf == c.buf;
    assert buf + more == c.buf + (chunk + more);
    assert Receive(c, chunk) == Drained(c.(buf := buf));
    DrainEarly(buf, more);
  }

  lemma {:induction false} SplittingOnlyHelps(chunks: seq<seq<Byte>>, more: seq<Byte>)
    requires Serve(chunks).open
    ensures Drain(Flatten(chunks) + more).0 <= Serve(chunks).dispatched + Drain(Serve(chunks).buf + more).0
    decreases |chunks|
  {
    if chunks == [] {
      EmptyWaits();
      assert [] + more == more;
    } else {
      var before, chunk := chunks[..|chunks| - 1], chunks[|chunks| - 1];
      hide Drain;
      SplittingOnlyHelps(before, chunk + more);
      ReceiveEarly(Serve(before), chunk, more);
      assert Flatten(chunks) + more == Flatten(before) + (chunk + more);
    }
  }

  /** A buffer is never longer than what was received, so a short stream causes no overflow. */
  lemma {:induction false} ShortStreamStaysOpen(chunks: seq<seq<Byte>>)
    requires |Flatten(chunks)| <= MAX_FRAME_BUFFER
    ensures Serve(chunks).open && |Serve(chunks).buf| <= |Flatten(chunks)|
    decreases |chunks|
  {
    hide Drain;
    if chunks != [] {
      ShortStreamStaysOpen(chunks[..|chunks| - 1]);
    }
  }

  /** Whatever is received, the buffer of an open connection never exceeds 4 MiB. */
  lemma {:induction false} OpenBufferIsBounded(chunks: seq<seq<Byte>>)
    requires Serve(chunks).open
    ensures |Serve(chunks).buf| <= 4_194_304
    decreases |chunks|
  {
    hide Drain;
    if chunks == [] {
      EmptyWaits();
    } else {
      OpenBufferIsBounded(chunks[..|chunks| - 1]);
    }
  }

  lemma OneRead(s: seq<Byte>)
    requires |s| <= MAX_FRAME_BUFFER
    ensures Serve([s]).dispatched == Drain(s).0 && Flatten([s]) == s
  {
    EmptyWaits();
    hide Drain;
    ServeGrows([], s);
    assert [] + [s] == [s] && [] + s == s;
    assert Flatten([s]) == Flatten([s][..0]) + s;
  }

  /** One read of the whole stream is the worst split: every other has dispatched at least as much. */
  lemma OneReadIsWorst(chunks: seq<seq<Byte>>)
    requires Serve(chunks).open
    ensures Drain(Flatten(chunks)).0 <= Serve(chunks).dispatched
    ensures Drain(Flatten(chunks)).0 == Scan(Flatten(chunks)) ==> Serve(chunks).dispatched == Scan(Flatten(chunks))
  {
    DispatchedIsPrefixOfScan(chunks);
    hide Scan;
    if chunks == [] {
      EmptyWaits();
    } else {
      var before, chunk := chunks[..|chunks| - 1], chunks[|chunks| - 1];
      hide Drain;
      SplittingOnlyHelps(before, chunk);
      assert chunk == [] ==> Serve(before).buf + chunk == Serve(before).buf;
      assert Serve(chunks) == Receive(Serve(before), chunk);
    }
  }

  /**
   The loop catches up with the one-shot parse, however the stream is split into reads, exactly when
   draining the whole stream once dispatches every frame of it. (A longer stream may overflow.)
   */
  lemma EverySplitCatchesUpIff(s: seq<Byte>)
    requires |s| <= MAX_FRAME_BUFFER
    ensures (forall chunks: seq<seq<Byte>> :: Flatten(chunks) == s ==> Serve(chunks).dispatched == Scan(s))
       <==> Drain(s).0 == Scan(s)
  {
    hide Drain, Scan, Serve, Flatten;
    OneRead(s);
    if Drain(s).0 == Scan(s) {
      forall chunks: seq<seq<Byte>> | Flatten(chunks) == s ensures Serve(chunks).dispatched == Scan(s) {
        ShortStreamStaysOpen(chunks);
        OneReadIsWorst(chunks);
      }
    }
  }

  // ----- only frames are dispatched -----

  /** A frame stands at position i: the magic, a length that ends at the colon c, and as many bytes. */
  ghost predicate FramedAt(buf: seq<Byte>, i: nat, c: nat, frame: seq<Byte>) {
    && MagicAt(buf, i) && i + |MAGIC| <= c && c + 1 + |frame| <= |buf| && buf[c] == COLON
    && Atoi(buf[i + |MAGIC|..c]) == Some(|frame|) && |frame| <= 1_048_576
    && buf[c + 1..c + 1 + |frame|] == frame
  }

  /** The frames stand in the bytes one after the other, without overlap. */
  ghost predicate Placed(buf: seq<Byte>, frames: seq<seq<Byte>>, at: seq<(nat, nat)>) {
    && |at| == |frames|
    && (forall k :: 0 <= k < |at| ==> FramedAt(buf, at[k].0, at[k].1, frames[k]))
    && forall k, l :: 0 <= k < l < |at| ==> at[k].1 + 1 + |frames[k]| <= at[l].0
  }

  lemma FramedInSuffix(buf: seq<Byte>, o: nat, i: nat, c: nat, frame: seq<Byte>)
    requires o <= |buf| && FramedAt(buf[o..], i, c, frame)
    ensures FramedAt(buf, o + i, o + c, frame)
  {
    hide Atoi;
    assert buf[o..][i + |MAGIC|..c] == buf[o + i + |MAGIC|..o + c];
    assert buf[o..][c + 1..c + 1 + |frame|] == buf[o + c + 1..o + c + 1 + |frame|];
  }

  /** A step leaves a suffix of the buffer, and an extracted frame fills what it took. */
  lemma ExtractedStands(buf: seq<Byte>) returns (c: nat)
    ensures var r := ExtractFrame(buf);
            && r.rest == buf[|buf| - |r.rest|..]
            && (r.frame.Some? ==> FramedAt(buf, 0, c, r.frame.value) && c + 1 + |r.frame.value| == |buf| - |r.rest|)
  {
    hide Atoi, FindMagic;
    c := 0;
    if |buf| >= |MAGIC| && MagicAt(buf, 0) {
      var hdr := buf[|MAGIC|..];
      var colon := FindColon(hdr);
      if colon.Some? {
        c := |MAGIC| + colon.value;
        assert hdr[..colon.value] == buf[|MAGIC|..c];
      }
    }
  }

  lemma PlacedInSuffix(buf: seq<Byte>, o: nat, frames: seq<seq<Byte>>, later: seq<(nat, nat)>)
    returns (at: seq<(nat, nat)>)
    requires o <= |buf| && Placed(buf[o..], frames, later)
    ensures Placed(buf, frames, at) && forall k :: 0 <= k < |at| ==> o <= at[k].0
  {
    hide FramedAt;
    at := seq(|later|, k requires 0 <= k < |later| => (o + later[k].0, o + later[k].1));
    forall k | 0 <= k < |at| ensures FramedAt(buf, at[k].0, at[k].1, frames[k]) {
      FramedInSuffix(buf, o, later[k].0, later[k].1, frames[k]);
    }
  }

  lemma PlacedCons(buf: seq<Byte>, c: nat, frame: seq<Byte>, frames: seq<seq<Byte>>, later: seq<(nat, nat)>)
    requires FramedAt(buf, 0, c, frame) && Placed(buf, frames, later)
    requires forall k :: 0 <= k < |later| ==> c + 1 + |frame| <= later[k].0
    ensures Placed(buf, [frame] + frames, [(0, c)] + later)
  {
    hide FramedAt;
  }

  /** On any stream the one-shot parse yields disjoint framed stretches of it, each of at most 1 MiB, in order. */
  lemma {:induction false} ScannedFramesWereSent(buf: seq<Byte>) returns (at: seq<(nat, nat)>)
    ensures Placed(buf, Scan(buf), at)
    decreases |buf|
  {
    hide ExtractFrame, Scan, FramedAt, Placed;
    var r := ExtractFrame(buf);
    var c := ExtractedStands(buf);
    if |r.rest| == |buf| {
      at := [];
      ScanStops(buf);
      PlacedNothing(buf);
    } else {
      ScanStep(buf, r);
      var later := ScannedFramesWereSent(r.rest);
      at := PlacedInSuffix(buf, |buf| - |r.rest|, Scan(r.rest), later);
      if r.frame.Some? {
        PlacedCons(buf, c, r.frame.value, Scan(r.rest), at);
        at := [(0, c)] + at;
      } else {
        assert [] + Scan(r.rest) == Scan(r.rest);
      }
    }
  }

  lemma PlacedNothing(buf: seq<Byte>)
    ensures Placed(buf, [], [])
  {
  }

  lemma ScanStops(buf: seq<Byte>)
    requires |ExtractFrame(buf).rest| == |buf|
    ensures Scan(buf) == []
  {
  }

  /** So whatever arrives, every dispatched frame was sent as a frame, and none is used twice. */
  lemma DispatchedFramesWereSent(chunks: seq<seq<Byte>>) returns (at: seq<(nat, nat)>)
    ensures Placed(Flatten(chunks), Serve(chunks).dispatched, at)
  {
    DispatchedIsPrefixOfScan(chunks);
    var all := ScannedFramesWereSent(Flatten(chunks));
    at := all[..|Serve(chunks).dispatched|];
    hide FramedAt, Scan, Serve;
  }

  // ----- streams of well-formed frames -----

  /** The frame agent beta writes for one payload. */
  function Encode(payload: seq<Byte>): seq<Byte> {
    MAGIC + Decimal(|payload|) + [COLON] + payload
  }

  function Frames(payloads: seq<seq<Byte>>): seq<Byte> {
    if payloads == [] then [] else Encode(payloads[0]) + Frames(payloads[1..])
  }

  ghost predicate Deliverable(payloads: seq<seq<Byte>>) {
    forall p <- payloads :: |p| <= MAX_FRAME_SIZE
  }

  lemma EncodeLength(payload: seq<Byte>)
    requires |payload| <= MAX_FRAME_SIZE
    ensures |Encode(payload)| <= MAX_HEADER + MAX_FRAME_SIZE
  {
    assert Pow10(7) == 10_000_000 by {
      assert Pow10(3) == 1000;
    }
    DecimalLength(|payload|, 7);
  }

  lemma AtoiDecimal(n: nat)
    ensures Atoi(Decimal(n)) == Some(n)
  {
    DecimalValue(n);
  }

  lemma TooShortForMagic(s: seq<Byte>)
    requires |s| < |MAGIC|
    ensures ExtractFrame(s) == Extracted(None, s)
  {
  }

  /** A beginning of a sequence has the same slices. */
  lemma SliceOfPrefix(s: seq<Byte>, whole: seq<Byte>, i: nat, j: nat)
    requires s <= whole && i <= j <= |s|
    ensures s[i..j] == whole[i..j]
  {
  }

  lemma HeaderIncomplete(s: seq<Byte>)
    requires MagicAt(s, 0) && AllDigits(s[|MAGIC|..])
    ensures ExtractFrame(s) == Extracted(None, s)
  {
  }

  lemma HeaderComplete(s: seq<Byte>, d: seq<Byte>, n: nat)
    requires MagicAt(s, 0) && |s| > |MAGIC| + |d| && s[|MAGIC|..|MAGIC| + |d|] == d && s[|MAGIC| + |d|] == COLON
    requires AllDigits(d) && Atoi(d) == Some(n) && n <= MAX_FRAME_SIZE
    ensures var body := |MAGIC| + |d| + 1;
            ExtractFrame(s) == if |s| < body + n then Extracted(None, s)
                               else Extracted(Some(s[body..body + n]), s[body + n..])
  {
    hide Atoi, FindColon;
    var hdr := s[|MAGIC|..];
    assert hdr[..|d|] == d && hdr[|d|] == COLON;
    assert forall i :: 0 <= i < |d| ==> hdr[i] == d[i];
    FirstColon(hdr, |d|);
  }

  /** A header whose number is negative or beyond 1 MiB is skipped, up to and including its colon. */
  lemma WrongLengthIsSkipped(n: nat, rest: seq<Byte>)
    ensures n > 0 ==> ExtractFrame(MAGIC + ([45] + Decimal(n)) + [COLON] + rest) == Extracted(None, rest)
    ensures n > 1_048_576 ==> ExtractFrame(MAGIC + Decimal(n) + [COLON] + rest) == Extracted(None, rest)
    ensures n > 1_048_576 ==> ExtractFrame(MAGIC + ([43] + Decimal(n)) + [COLON] + rest) == Extracted(None, rest)
  {
    SignedDecimal(n);
    hide Atoi, ExtractFrame, Decimal;
    if n > 0 {
      RejectedHeader([45] + Decimal(n), rest);
    }
    if n > 1_048_576 {
      RejectedHeader(Decimal(n), rest);
      RejectedHeader([43] + Decimal(n), rest);
    }
  }

  lemma SignedDecimal(n: nat)
    ensures Atoi(Decimal(n)) == Some(n) && Atoi([43] + Decimal(n)) == Some(n)
    ensures Atoi([45] + Decimal(n)).Some? && Atoi([45] + Decimal(n)).value + n == 0
  {
    DecimalValue(n);
    hide Decimal, DigitsValue;
    SignedDigits(Decimal(n));
  }

  lemma SignedDigits(d: seq<Byte>)
    requires d != [] && AllDigits(d)
    ensures Atoi(d).Some? && Atoi(d).value == DigitsValue(d) && Atoi([43] + d) == Atoi(d)
    ensures Atoi([45] + d).Some? && Atoi([45] + d).value + DigitsValue(d) == 0
  {
    hide DigitsValue;
    assert ([45] + d)[1..] == d && ([43] + d)[1..] == d && IsDigit(d[0]);
  }

  /** Text that is no number, a letter among its digits say, is skipped in the same way. */
  lemma NonNumberIsSkipped(text: seq<Byte>, rest: seq<Byte>, i: nat)
    requires COLON !in text && 0 < i < |text| && !IsDigit(text[i])
    ensures ExtractFrame(MAGIC + text + [COLON] + rest) == Extracted(None, rest)
  {
    assert !AllDigits(text) && !AllDigits(text[1..]) by {
      assert text[1..][i - 1] == text[i];
    }
    assert Atoi(text) == None;
    RejectedHeader(text, rest);
  }

  lemma RejectedHeader(text: seq<Byte>, rest: seq<Byte>)
    requires COLON !in text
    requires Atoi(text) == None || Atoi(text).value < 0 || Atoi(text).value > MAX_FRAME_SIZE
    ensures ExtractFrame(MAGIC + text + [COLON] + rest) == Extracted(None, rest)
  {
    hide Atoi, FindColon;
    var buf := MAGIC + text + [COLON] + rest;
    var hdr := buf[|MAGIC|..];
    assert hdr == text + [COLON] + rest && hdr[|text|] == COLON && hdr[..|text|] == text;
    FirstColon(hdr, |text|);
    assert buf[|MAGIC| + |text| + 1..] == rest;
  }

  lemma EncodeLayout(payload: seq<Byte>, tail: seq<Byte>)
    ensures var d, whole := Decimal(|payload|), Encode(payload) + tail;
            var body := |MAGIC| + |d| + 1;
            && MagicAt(whole, 0) && whole[|MAGIC|..|MAGIC| + |d|] == d && whole[|MAGIC| + |d|] == COLON
            && whole[body..body + |payload|] == payload && |Encode(payload)| == body + |payload|
  {
  }

  /** The parser on any beginning of a frame and what follows it: the payload, or "wait". */
  lemma ExtractOneFrame(payload: seq<Byte>, tail: seq<Byte>, s: seq<Byte>)
    requires |payload| <= MAX_FRAME_SIZE && s <= Encode(payload) + tail
    ensures ExtractFrame(s) == if |s| < |Encode(payload)| then Extracted(None, s)
                               else Extracted(Some(payload), s[|Encode(payload)|..])
  {
    hide ExtractFrame, FindColon, FindMagic, Decimal, Atoi, Encode;
    var d := Decimal(|payload|);
    var whole := Encode(payload) + tail;
    AtoiDecimal(|payload|);
    EncodeLayout(payload, tail);
    if |s| < |MAGIC| {
      TooShortForMagic(s);
    } else if |s| <= |MAGIC| + |d| {
      SliceOfPrefix(s, whole, |MAGIC|, |s|);
      SliceOfPrefix(d[..|s| - |MAGIC|], d, 0, |s| - |MAGIC|);
      assert s[|MAGIC|..] == d[..|s| - |MAGIC|];
      HeaderIncomplete(s);
    } else {
      var body := |MAGIC| + |d| + 1;
      SliceOfPrefix(s, whole, |MAGIC|, |MAGIC| + |d|);
      HeaderComplete(s, d, |payload|);
      if |s| >= |Encode(payload)| {
        SliceOfPrefix(s, whole, body, body + |payload|);
      }
    }
  }

  lemma {:induction false} FramesSplit(payloads: seq<seq<Byte>>, k: nat)
    requires k <= |payloads|
    ensures Frames(payloads) == Frames(payloads[..k]) + Frames(payloads[k..])
  {
    if k > 0 {
      FramesSplit(payloads[1..], k - 1);
      assert payloads[1..][..k - 1] == payloads[..k][1..];
      assert payloads[1..][k - 1..] == payloads[k..];
    }
  }

  /** The loop waits on `buf`: it is a proper beginning of the next frame, or nothing. */
  ghost predicate Waiting(buf: seq<Byte>, payloads: seq<seq<Byte>>) {
    && buf <= Frames(payloads)
    && (if payloads == [] then buf == [] else |buf| < |Encode(payloads[0])|)
  }

  lemma DrainStep(buf: seq<Byte>, frame: seq<Byte>, rest: seq<Byte>)
    requires ExtractFrame(buf) == Extracted(Some(frame), rest)
    ensures Drain(buf) == ([frame] + Drain(rest).0, Drain(rest).1)
  {
  }

  lemma DrainWaits(buf: seq<Byte>)
    requires ExtractFrame(buf) == Extracted(None, buf)
    ensures Drain(buf) == ([], buf)
  {
  }

  lemma FramesUnfold(payloads: seq<seq<Byte>>)
    ensures payloads == [] ==> Frames(payloads) == []
    ensures payloads != [] ==> Frames(payloads) == Encode(payloads[0]) + Frames(payloads[1..])
  {
  }

  /** A part of the stream shorter than its first frame waits. */
  lemma ShortWaits(payloads: seq<seq<Byte>>, s: seq<Byte>)
    requires s <= Frames(payloads) && (if payloads == [] then s == [] else |s| < |Encode(payloads[0])|)
    ensures Waiting(s, payloads[0..]) && s == Frames(payloads[..0]) + s
  {
    hide Encode;
    assert payloads[0..] == payloads && payloads[..0] == [];
    assert Frames([]) + s == s;
  }

  /** What follows the first frame. */
  lemma AfterFirstFrame(payloads: seq<seq<Byte>>, s: seq<Byte>)
    requires payloads != [] && s <= Frames(payloads) && |s| >= |Encode(payloads[0])|
    ensures s == Encode(payloads[0]) + s[|Encode(payloads[0])|..]
    ensures s[|Encode(payloads[0])|..] <= Frames(payloads[1..])
  {
    hide Encode;
    FramesUnfold(payloads);
    hide Frames;
    var first, rest := Encode(payloads[0]), Frames(payloads[1..]);
    assert s == (first + rest)[..|s|];
    assert s[..|first|] == first && s[|first|..] == rest[..|s| - |first|];
  }

  /** Draining any beginning of a well-formed stream yields its complete frames and waits. */
  lemma {:induction false} DrainOfFrames(payloads: seq<seq<Byte>>, s: seq<Byte>) returns (k: nat)
    requires Deliverable(payloads) && s <= Frames(payloads)
    ensures k <= |payloads| && Drain(s).0 == payloads[..k]
    ensures s == Frames(payloads[..k]) + Drain(s).1 && Waiting(Drain(s).1, payloads[k..])
    decreases |payloads|, 1
  {
    hide Encode, ExtractFrame, Drain, Waiting, Frames;
    FramesUnfold(payloads);
    if payloads == [] {
      k := 0;
      EmptyWaits();
      ShortWaits(payloads, s);
    } else {
      ExtractOneFrame(payloads[0], Frames(payloads[1..]), s);
      if |s| < |Encode(payloads[0])| {
        k := 0;
        DrainWaits(s);
        ShortWaits(payloads, s);
      } else {
        k := DrainFirst(payloads, s);
      }
    }
  }

  lemma {:induction false} DrainFirst(payloads: seq<seq<Byte>>, s: seq<Byte>) returns (k: nat)
    requires Deliverable(payloads) && payloads != [] && s <= Frames(payloads) && |s| >= |Encode(payloads[0])|
    requires ExtractFrame(s) == Extracted(Some(payloads[0]), s[|Encode(payloads[0])|..])
    ensures k <= |payloads| && Drain(s).0 == payloads[..k]
    ensures s == Frames(payloads[..k]) + Drain(s).1 && Waiting(Drain(s).1, payloads[k..])
    decreases |payloads|, 0
  {
    hide Encode, ExtractFrame, Drain, Waiting, Frames;
    AfterFirstFrame(payloads, s);
    var rest := s[|Encode(payloads[0])|..];
    DrainStep(s, payloads[0], rest);
    var j := DrainOfFrames(payloads[1..], rest);
    k := j + 1;
    OneFrameMore(payloads, j);
    Regroup(Encode(payloads[0]), Frames(payloads[1..][..j]), Drain(rest).1);
  }

  lemma Regroup(a: seq<Byte>, b: seq<Byte>, c: seq<Byte>)
    ensures a + (b + c) == (a + b) + c
  {
  }

  lemma OneFrameMore(payloads: seq<seq<Byte>>, j: nat)
    requires j < |payloads|
    ensures payloads[..j + 1] == [payloads[0]] + payloads[1..][..j] && payloads[j + 1..] == payloads[1..][j..]
    ensures Frames(payloads[..j + 1]) == Encode(payloads[0]) + Frames(payloads[1..][..j])
  {
    assert payloads[..j + 1][1..] == payloads[1..][..j];
  }

  lemma EmptyWaits()
    ensures ExtractFrame([]) == Extracted(None, []) && Drain([]) == ([], []) && Scan([]) == []
  {
  }

  /** The connection waits after k payloads of the stream. */
  ghost predicate DeliveredUpTo(c: Connection, payloads: seq<seq<Byte>>, k: nat, received: seq<Byte>)
    requires k <= |payloads|
  {
    && c.open && c.dispatched == payloads[..k]
    && received == Frames(payloads[..k]) + c.buf && Waiting(c.buf, payloads[k..])
  }

  lemma DeliveryStep(payloads: seq<seq<Byte>>, c: Connection, received: seq<Byte>, chunk: seq<Byte>, i: nat)
    returns (k: nat)
    requires Deliverable(payloads) && i <= |payloads| && DeliveredUpTo(c, payloads, i, received)
    requires received + chunk <= Frames(payloads) && |chunk| <= READ_SIZE
    ensures k <= |payloads| && DeliveredUpTo(Receive(c, chunk), payloads, k, received + chunk)
  {
    hide Drain, Frames, Waiting, Receive;
    FramesSplit(payloads, i);
    PrefixOfRest(Frames(payloads[..i]), c.buf + chunk, Frames(payloads[i..]), received + chunk);
    var j := ReceiveOfFrames(payloads[i..], c, chunk);
    JoinFrames(payloads, i, j, c.buf + chunk, Receive(c, chunk).buf);
    assert received + chunk == Frames(payloads[..i]) + (c.buf + chunk);
    k := i + j;
  }

  /**
   Every beginning of a well-formed stream, however it is cut: the connection stays open, the complete
   payloads have been dispatched in order, and the buffer holds only a beginning of the next frame.
   */
  lemma {:induction false} ServeOfFrames(payloads: seq<seq<Byte>>, chunks: seq<seq<Byte>>) returns (k: nat)
    requires Deliverable(payloads) && Flatten(chunks) <= Frames(payloads)
    requires forall c <- chunks :: |c| <= READ_SIZE
    ensures k <= |payloads| && DeliveredUpTo(Serve(chunks), payloads, k, Flatten(chunks))
    decreases |chunks|
  {
    if chunks == [] {
      EmptyWaits();
      k := DrainOfFrames(payloads, []);
    } else {
      hide Drain, Frames, Receive, DeliveredUpTo;
      var before, chunk := chunks[..|chunks| - 1], chunks[|chunks| - 1];
      var i := ServeOfFrames(payloads, before);
      k := DeliveryStep(payloads, Serve(before), Flatten(before), chunk, i);
    }
  }

  /** Frames taken out in two rounds are the frames of both rounds together. */
  lemma JoinFrames(payloads: seq<seq<Byte>>, i: nat, j: nat, buf: seq<Byte>, rest: seq<Byte>)
    requires i + j <= |payloads| && buf == Frames(payloads[i..][..j]) + rest
    ensures Frames(payloads[..i]) + buf == Frames(payloads[..i + j]) + rest
    ensures payloads[..i] + payloads[i..][..j] == payloads[..i + j] && payloads[i..][j..] == payloads[i + j..]
  {
    PayloadSlices(payloads, i, j);
    FramesSplit(payloads[..i + j], i);
  }

  lemma PayloadSlices(payloads: seq<seq<Byte>>, i: nat, j: nat)
    requires i + j <= |payloads|
    ensures payloads[..i + j][..i] == payloads[..i] && payloads[..i + j][i..] == payloads[i..][..j]
    ensures payloads[..i + j] == payloads[..i] + payloads[i..][..j] && payloads[i + j..] == payloads[i..][j..]
  {
  }

  /** One read of at most 64 KiB on a waiting connection: complete frames go out, no overflow. */
  lemma ReceiveOfFrames(payloads: seq<seq<Byte>>, c: Connection, chunk: seq<Byte>) returns (k: nat)
    requires Deliverable(payloads) && c.open && Waiting(c.buf, payloads)
    requires c.buf + chunk <= Frames(payloads) && |chunk| <= READ_SIZE
    ensures var d := Receive(c, chunk);
            && k <= |payloads| && d.open && d.dispatched == c.dispatched + payloads[..k]
            && c.buf + chunk == Frames(payloads[..k]) + d.buf && Waiting(d.buf, payloads[k..])
  {
    hide Encode, ExtractFrame, Drain, Frames;
    var buf := c.buf + chunk;
    assert chunk == [] ==> buf == c.buf;
    WaitingIsSmall(c.buf, payloads);
    assert Receive(c, chunk) == Drained(c.(buf := buf));
    k := DrainOfFrames(payloads, buf);
  }

  lemma PrefixOfRest(done: seq<Byte>, buf: seq<Byte>, rest: seq<Byte>, s: seq<Byte>)
    requires s == done + buf && s <= done + rest
    ensures buf <= rest
  {
    assert buf == s[|done|..] && rest == (done + rest)[|done|..];
  }

  lemma WaitingIsSmall(buf: seq<Byte>, payloads: seq<seq<Byte>>)
    requires Waiting(buf, payloads) && Deliverable(payloads)
    ensures |buf| < MAX_HEADER + MAX_FRAME_SIZE
  {
    if payloads != [] {
      EncodeLength(payloads[0]);
    }
  }

  /** A stream of frames, completely read, is dispatched payload by payload, and nothing is left over. */
  lemma WellFormedStreamIsDelivered(payloads: seq<seq<Byte>>, chunks: seq<seq<Byte>>)
    requires Deliverable(payloads) && Flatten(chunks) == Frames(payloads)
    requires forall c <- chunks :: |c| <= READ_SIZE
    ensures Serve(chunks) == Connection(payloads, [], true)
  {
    var k := ServeOfFrames(payloads, chunks);
    FramesSplit(payloads, k);
    assert |Serve(chunks).buf| == |Frames(payloads[k..])|;
    assert k == |payloads|;
    assert payloads[..k] == payloads;
  }

  /** On such a stream no read makes the buffer longer than one frame, one header and one read. */
  lemma BufferStaysBounded(payloads: seq<seq<Byte>>, chunks: seq<seq<Byte>>, i: nat)
    requires Deliverable(payloads) && Flatten(chunks) == Frames(payloads) && i < |chunks|
    requires forall c <- chunks :: |c| <= READ_SIZE
    ensures |Serve(chunks[..i]).buf + chunks[i]| < 1_048_576 + 13 + 65_536 <= MAX_FRAME_BUFFER == 4_194_304
  {
    FlattenPrefix(chunks, i);
    var k := ServeOfFrames(payloads, chunks[..i]);
    WaitingIsSmall(Serve(chunks[..i]).buf, payloads[k..]);
  }

  lemma {:induction false} FlattenPrefix(chunks: seq<seq<Byte>>, i: nat)
    requires i <= |chunks|
    ensures Flatten(chunks[..i]) <= Flatten(chunks)
  {
    if i < |chunks| {
      FlattenPrefix(chunks[..|chunks| - 1], i);
      assert chunks[..|chunks| - 1][..i] == chunks[..i];
    } else {
      assert chunks[..i] == chunks;
    }
  }

  lemma GarbageThenEmptyFrame()
    ensures var frame := Encode([]);
            ExtractFrame([0] + frame) == Extracted(None, frame) && ExtractFrame(frame) == Extracted(Some([]), [])
  {
    hide Encode, FindMagic;
    var frame := Encode([]);
    var chunk := [0] + frame;
    assert frame + [] == frame && frame[|frame|..] == [];
    ExtractOneFrame([], [], frame);
    assert MagicAt(frame, 0) && chunk[1..] == frame;
    MagicInSuffix(chunk, 1, 0);
    assert !MagicAt(chunk, 0);
    FirstMagic(chunk, 1);
  }

  lemma ServeTwoReads(chunk: seq<Byte>, frame: seq<Byte>)
    requires 0 < |chunk| <= MAX_FRAME_BUFFER
    requires ExtractFrame(chunk) == Extracted(None, frame) && ExtractFrame(frame) == Extracted(Some([]), [])
    ensures Serve([chunk]).dispatched == [] && Serve([chunk, []]).dispatched == [[]]
  {
    hide Drain, ExtractFrame, Serve;
    DrainTwice(chunk, frame);
    ServeGrows([], chunk);
    ServeGrows([chunk], []);
    var none: seq<seq<Byte>>, one := [], [chunk];
    assert none + [chunk] == one && one + [[]] == [chunk, []];
    assert [] + chunk == chunk;
  }

  lemma DrainTwice(chunk: seq<Byte>, frame: seq<Byte>)
    requires ExtractFrame(chunk) == Extracted(None, frame) && ExtractFrame(frame) == Extracted(Some([]), [])
    ensures Drain(chunk) == ([], frame) && Drain(frame) == ([[]], []) && Serve([]) == Connection([], [], true)
  {
    EmptyWaits();
    DrainStep(frame, [], []);
    hide ExtractFrame;
    var one: seq<seq<Byte>> := [[]];
    assert one + [] == one;
  }

  lemma ServeGrows(chunks: seq<seq<Byte>>, chunk: seq<Byte>)
    ensures Serve(chunks + [chunk]) == Receive(Serve(chunks), chunk)
  {
    assert (chunks + [chunk])[..|chunks|] == chunks;
  }

  lemma ScanStep(buf: seq<Byte>, r: Extracted)
    requires r == ExtractFrame(buf) && |r.rest| < |buf|
    ensures Scan(buf) == (if r.frame.Some? then [r.frame.value] else []) + Scan(r.rest)
  {
    hide ExtractFrame;
  }

  /** Equality with the one-shot parse fails after garbage: the loop resynchronises once and waits for a read. */
  lemma ResyncWaitsForARead()
    ensures var chunk := [0] + Encode([]);
            && Serve([chunk]).dispatched == [] && Scan(Flatten([chunk])) == [[]]
            && Serve([chunk, []]).dispatched == [[]]
  {
    GarbageThenEmptyFrame();
    EmptyWaits();
    EncodeLength([]);
    var frame := Encode([]);
    var chunk := [0] + frame;
    hide Encode, Drain, Scan, ExtractFrame, Serve;
    ServeTwoReads(chunk, frame);
    ScanStep(chunk, Extracted(None, frame));
    ScanStep(frame, Extracted(Some([]), []));
    assert Flatten([chunk]) == Flatten([chunk][..0]) + chunk == chunk;
  }
}
