/**
 The audit log of ghost-ctl: lines chained by the hash of their predecessor, across process restarts and
 rename rotations (cmd/ghost-ctl/main.go). One process writes, and a write that is refused leaves the
 file as it was.
 */
module AuditChain {
  import opened Options

  /** The first entry of a segment after a rotation names the tail of the previous one. */
  datatype Body = Rotated(prevTail: string) | Action(name: string, details: string)

  datatype Line = Line(prevHash: string, body: Body)

  /**
   Abstract functions of a line's text: its hash, its length in bytes with the newline, and the hash of
   its last 64 KiB, which is what a reader with a shorter window computes.
   */
  datatype Text = Text(hash: Line -> string, size: Line -> nat, cutHash: Line -> string)

  const TAIL_WINDOW: nat := 65536
  const MAX_LINE: nat := 1048576

  datatype File = File(ino: nat, lines: seq<Line>)

  /** What the process remembers between appends. */
  datatype Memory = Memory(loaded: bool, lastHash: string, ino: nat, size: nat)

  const FORGOTTEN := Memory(false, "", 0, 0)

  /** The log file, the segments renamed away, and the process's memory. */
  datatype Log = Log(file: Option<File>, archive: seq<seq<Line>>, memory: Memory)

  function Size(t: Text, lines: seq<Line>): nat {
    if lines == [] then 0 else Size(t, lines[..|lines| - 1]) + t.size(lines[|lines| - 1])
  }

  // ----- chains -----

  /** The hash the next line must carry. */
  function Tail(t: Text, lines: seq<Line>): string {
    if lines == [] then "" else t.hash(lines[|lines| - 1])
  }

  /** Every line carries the hash of the one before; the first carries none. */
  ghost predicate Verified(t: Text, lines: seq<Line>) {
    lines != [] ==>
      var before := lines[..|lines| - 1];
      Verified(t, before) && lines[|lines| - 1].prevHash == Tail(t, before)
  }

  /** What verifyAuditChain accepts: intact links, and no line beyond the scanner's buffer. */
  ghost predicate Passes(t: Text, lines: seq<Line>) {
    Verified(t, lines) && forall l <- lines :: t.size(l) <= 1_048_576
  }

  /** verifyAuditChain: the number of lines before the first broken link, and whether there is none. */
  method VerifyAuditChain(t: Text, lines: seq<Line>) returns (count: nat, ok: bool)
    ensures count <= |lines| && Verified(t, lines[..count])
    ensures ok <==> Passes(t, lines)
    ensures ok ==> count == |lines|
    ensures !ok ==> count < |lines| && (t.size(lines[count]) > MAX_LINE || !Verified(t, lines[..count + 1]))
  {
    var wantPrev := "";
    count := 0;
    while count < |lines|
      invariant count <= |lines| && Verified(t, lines[..count])
      invariant wantPrev == Tail(t, lines[..count])
      invariant forall l <- lines[..count] :: t.size(l) <= MAX_LINE
    {
      var line := lines[count];
      assert lines[..count + 1] == lines[..count] + [line];
      assert lines[..count + 1][..count] == lines[..count];
      if t.size(line) > MAX_LINE {
        assert line in lines;
        return count, false;
      }
      if line.prevHash != wantPrev {
        ExtendVerified(t, lines[..count], line);
        if Verified(t, lines) {
          PrefixVerified(t, lines, count + 1);
        }
        return count, false;
      }
      ExtendVerified(t, lines[..count], line);
      wantPrev := t.hash(line);
      count := count + 1;
    }
    assert lines[..count] == lines;
    return count, true;
  }

  lemma ExtendVerified(t: Text, lines: seq<Line>, line: Line)
    ensures Verified(t, lines + [line]) <==> Verified(t, lines) && line.prevHash == Tail(t, lines)
  {
    assert (lines + [line])[..|lines|] == lines;
  }

  /** The hash separates lines and is never empty. */
  ghost predicate Injective(t: Text) {
    && (forall l, m :: t.hash(l) == t.hash(m) ==> l == m)
    && forall l :: t.hash(l) != ""
  }

  /** Tamper evidence: a verified segment is determined by the hash of its last line. */
  lemma {:induction false} TailDeterminesSegment(t: Text, s: seq<Line>, s': seq<Line>)
    requires Injective(t) && Verified(t, s) && Verified(t, s') && Tail(t, s) == Tail(t, s')
    ensures s == s'
    decreases |s|
  {
    if s != [] && s' != [] {
      var n, n' := |s| - 1, |s'| - 1;
      assert s[n] == s'[n'];
      TailDeterminesSegment(t, s[..n], s'[..n']);
    }
  }

  lemma {:induction false} PrefixVerified(t: Text, s: seq<Line>, n: nat)
    requires Verified(t, s) && n <= |s|
    ensures Verified(t, s[..n])
    decreases |s|
  {
    if n < |s| {
      PrefixVerified(t, s[..|s| - 1], n);
      assert s[..|s| - 1][..n] == s[..n];
    } else {
      assert s[..n] == s;
    }
  }

  // ----- steps of the log -----

  /** How a write ends: in the file, not in the file, or in the file although an error is reported. */
  datatype Write = Written | Refused | Unreported

  /** Device and inode as one number, and the size; a missing file has neither. */
  function Stat(t: Text, file: Option<File>): (nat, nat) {
    match file case None => (0, 0) case Some(f) => (f.ino, Size(t, f.lines))
  }

  /** readAuditTailHash: a last line longer than the window is hashed only in part. */
  function ReadTail(t: Text, file: Option<File>): string {
    if file.None? || file.value.lines == [] then ""
    else
      var last := file.value.lines[|file.value.lines| - 1];
      if t.size(last) <= TAIL_WINDOW then t.hash(last) else t.cutHash(last)
  }

  /** The file after a write; appending creates a missing file under a new inode. */
  function AfterWrite(file: Option<File>, line: Line, w: Write, newIno: nat): Option<File> {
    if w == Refused then file
    else match file
      case None => Some(File(newIno, [line]))
      case Some(f) => Some(File(f.ino, f.lines + [line]))
  }

  function Loaded(t: Text, log: Log): Memory {
    if log.memory.loaded then log.memory
    else Memory(true, ReadTail(t, log.file), Stat(t, log.file).0, Stat(t, log.file).1)
  }

  predicate SeesRotation(t: Text, m: Memory, file: Option<File>) {
    Stat(t, file).0 != m.ino || Stat(t, file).1 < m.size
  }

  function Genesis(m: Memory): Line {
    Line("", Rotated(m.lastHash))
  }

  /** The second half of appendAudit: the entry itself. */
  function AppendEntry(t: Text, log: Log, body: Body, e: Write, newIno: nat): Log {
    var line := Line(log.memory.lastHash, body);
    var file := AfterWrite(log.file, line, e, newIno);
    if e == Written then Log(file, log.archive, Memory(true, t.hash(line), Stat(t, file).0, Stat(t, file).1))
    else Log(file, log.archive, log.memory)
  }

  /** appendAudit, with the outcomes of its genesis write and its entry write. */
  function Append(t: Text, log: Log, body: Body, g: Write, e: Write, newIno: nat): Log {
    var m := Loaded(t, log);
    if !SeesRotation(t, m, log.file) then AppendEntry(t, log.(memory := m), body, e, newIno)
    else
      var file := AfterWrite(log.file, Genesis(m), g, newIno);
      if g != Written then Log(file, log.archive, m)
      else
        // the remembered identity is the one from before the genesis write
        var m' := Memory(true, t.hash(Genesis(m)), Stat(t, log.file).0, Stat(t, log.file).1);
        AppendEntry(t, Log(file, log.archive, m'), body, e, newIno)
  }

  /** Rename rotation of a non-empty log, with or without a new empty file. */
  function Rotate(log: Log, created: Option<nat>): Log {
    if log.file.None? || log.file.value.lines == [] then log
    else
      var next := if created.None? then None else Some(File(created.value, []));
      Log(next, log.archive + [log.file.value.lines], log.memory)
  }

  function Restart(log: Log): Log {
    log.(memory := FORGOTTEN)
  }

  /** The process side: the globals of main.go and the file they describe. */
  class AuditLog {
    var file: Option<File>
    var lastHash: string
    var loaded: bool
    var ino: nat
    var size: nat
    ghost var archive: seq<seq<Line>>
    const t: Text

    ghost function View(): Log
      reads this
    {
      Log(file, archive, Memory(loaded, lastHash, ino, size))
    }

    constructor (t: Text, file: Option<File>)
      ensures this.t == t && View() == Log(file, [], FORGOTTEN)
    {
      this.t, this.file, loaded, lastHash, ino, size, archive := t, file, false, "", 0, 0, [];
    }

    method WriteAuditLine(line: Line, w: Write, newIno: nat) returns (ok: bool)
      modifies this`file, this`lastHash
      ensures ok == (w == Written) && file == AfterWrite(old(file), line, w, newIno)
      ensures lastHash == if ok then t.hash(line) else old(lastHash)
    {
      if w == Refused {
        return false;
      }
      match file {
        case None => file := Some(File(newIno, [line]));
        case Some(f) => file := Some(File(f.ino, f.lines + [line]));
      }
      if w == Unreported {
        return false;
      }
      lastHash := t.hash(line);
      return true;
    }

    method AppendAudit(body: Body, g: Write, e: Write, newIno: nat)
      modifies this
      ensures View() == Append(t, old(View()), body, g, e, newIno)
    {
      if !loaded {
        lastHash, loaded := ReadTail(t, file), true;
        ino, size := Stat(t, file).0, Stat(t, file).1;
      }
      var st := Stat(t, file);
      var ok;
      if st.0 != ino || st.1 < size {
        ok := WriteAuditLine(Line("", Rotated(lastHash)), g, newIno);
        if !ok {
          return;
        }
        ino, size := st.0, st.1;
      }
      ok := WriteAuditLine(Line(lastHash, body), e, newIno);
      if !ok {
        return;
      }
      ino, size := Stat(t, file).0, Stat(t, file).1;
    }
  }

  // ----- every run -----

  datatype Event =
    | AppendEvent(body: Body, g: Write, e: Write, newIno: nat)
    | RotateEvent(created: Option<nat>)
    | RestartEvent

  function Step(t: Text, log: Log, ev: Event): Log {
    match ev
    case AppendEvent(body, g, e, newIno) => Append(t, log, body, g, e, newIno)
    case RotateEvent(created) => Rotate(log, created)
    case RestartEvent => Restart(log)
  }

  function Run(t: Text, log: Log, events: seq<Event>): Log {
    if events == [] then log else Step(t, Run(t, log, events[..|events| - 1]), events[|events| - 1])
  }

  ghost predicate SegmentsVerified(t: Text, log: Log) {
    && (forall s <- log.archive :: Passes(t, s))
    && (log.file.Some? ==> Passes(t, log.file.value.lines))
  }

  /** The memory either describes the file as it is, or will notice that it was rotated away. */
  ghost predicate MemoryFits(t: Text, log: Log) {
    var m := log.memory;
    match log.file
    case None => m.ino != 0 || (m.size == 0 && m.lastHash == "")
    case Some(f) =>
      || (m.ino == f.ino && m.size <= Size(t, f.lines) && m.lastHash == Tail(t, f.lines))
      || (f.lines == [] && (m.ino != f.ino || m.size > 0))
  }

  ghost predicate ShortTail(t: Text, file: Option<File>) {
    file.Some? ==>
      && file.value.ino != 0
      && (file.value.lines != [] ==> t.size(file.value.lines[|file.value.lines| - 1]) <= TAIL_WINDOW)
  }

  /** The invariant of the log. */
  ghost predicate Good(t: Text, log: Log) {
    SegmentsVerified(t, log) && ShortTail(t, log.file) && (log.memory.loaded ==> MemoryFits(t, log))
  }

  /** The lines an append would write fit the tail window. */
  ghost predicate LinesFit(t: Text, log: Log, body: Body) {
    var m := Loaded(t, log);
    if SeesRotation(t, m, log.file) then
      t.size(Genesis(m)) <= TAIL_WINDOW && t.size(Line(t.hash(Genesis(m)), body)) <= TAIL_WINDOW
    else
      t.size(Line(m.lastHash, body)) <= TAIL_WINDOW
  }

  /**
   The outcomes that leave the log continuable: no error reported for a line that was written, and no
   entry refused right after the genesis line of a file that had gone.
   */
  predicate CleanAppend(t: Text, log: Log, g: Write, e: Write) {
    if SeesRotation(t, Loaded(t, log), log.file) then
      g == Refused || (g == Written && (e == Written || (e == Refused && log.file.Some?)))
    else
      e != Unreported
  }

  /** Clean appends of lines within the window, and rotations to a file that is not the old one. */
  ghost predicate Orderly(t: Text, log: Log, ev: Event) {
    match ev
    case AppendEvent(body, g, e, newIno) => newIno != 0 && LinesFit(t, log, body) && CleanAppend(t, log, g, e)
    case RotateEvent(created) =>
      created.Some? ==> created.value != 0 && (log.file.Some? ==> created.value != log.file.value.ino)
    case RestartEvent => true
  }

  lemma LoadedFits(t: Text, log: Log)
    requires Good(t, log)
    ensures Good(t, log.(memory := Loaded(t, log)))
  {
  }

  function LinesOf(file: Option<File>): seq<Line> {
    match file case None => [] case Some(f) => f.lines
  }

  lemma LongerBy(t: Text, lines: seq<Line>, line: Line)
    ensures Size(t, lines + [line]) == Size(t, lines) + t.size(line) && Tail(t, lines + [line]) == t.hash(line)
  {
    assert (lines + [line])[..|lines|] == lines;
  }

  lemma PassesExtends(t: Text, lines: seq<Line>, line: Line)
    requires Passes(t, lines) && line.prevHash == Tail(t, lines) && t.size(line) <= MAX_LINE
    ensures Passes(t, lines + [line])
  {
    ExtendVerified(t, lines, line);
  }

  /** A written line that carries the tail hash extends the chain. */
  lemma WriteExtends(t: Text, file: Option<File>, line: Line, newIno: nat)
    requires Verified(t, LinesOf(file)) && line.prevHash == Tail(t, LinesOf(file))
    ensures var written := AfterWrite(file, line, Written, newIno);
            && written.Some? && written.value.lines == LinesOf(file) + [line]
            && written.value.ino == (if file.Some? then file.value.ino else newIno)
            && Verified(t, written.value.lines) && Tail(t, written.value.lines) == t.hash(line)
            && (Passes(t, LinesOf(file)) && t.size(line) <= MAX_LINE ==> Passes(t, written.value.lines))
            && Size(t, written.value.lines) == Size(t, LinesOf(file)) + t.size(line)
  {
    var lines := LinesOf(file);
    assert [] + [line] == [line];
    LongerBy(t, lines, line);
    ExtendVerified(t, lines, line);
    if Passes(t, lines) && t.size(line) <= MAX_LINE {
      PassesExtends(t, lines, line);
    }
    hide Verified, Tail, Size, Passes;
    assert AfterWrite(file, line, Written, newIno).value.lines == lines + [line];
  }

  /** Appending the entry to a file whose tail hash the memory holds. */
  lemma AppendEntryKeeps(t: Text, log: Log, body: Body, e: Write, newIno: nat)
    requires Good(t, log) && log.memory.loaded && log.memory.lastHash == Tail(t, LinesOf(log.file))
    requires e != Unreported && newIno != 0 && t.size(Line(log.memory.lastHash, body)) <= TAIL_WINDOW
    ensures Good(t, AppendEntry(t, log, body, e, newIno))
  {
    hide Verified, Tail, Size;
    var line := Line(log.memory.lastHash, body);
    NothingIsVerified(t);
    WriteExtends(t, log.file, line, newIno);
    TailIsLast(t, LinesOf(log.file), line);
  }

  lemma NothingIsVerified(t: Text)
    ensures Verified(t, []) && Tail(t, []) == "" && Size(t, []) == 0
  {
  }

  lemma TailIsLast(t: Text, lines: seq<Line>, line: Line)
    ensures (lines + [line])[|lines + [line]| - 1] == line && lines + [line] != []
  {
  }

  /** Without a visible rotation the memory holds the tail hash of the file. */
  lemma NoRotationMeansTail(t: Text, log: Log)
    requires Good(t, log) && log.memory.loaded && !SeesRotation(t, log.memory, log.file)
    ensures log.memory.lastHash == Tail(t, LinesOf(log.file))
  {
  }

  /** A visible rotation means there is nothing in the file. */
  lemma RotationMeansEmpty(t: Text, log: Log)
    requires Good(t, log) && log.memory.loaded && SeesRotation(t, log.memory, log.file)
    ensures LinesOf(log.file) == []
  {
  }

  /** The genesis line leaves a state in which the entry can follow, or the next append starts over. */
  lemma GenesisKeeps(t: Text, log: Log, newIno: nat)
    requires Good(t, log) && log.memory.loaded && LinesOf(log.file) == [] && newIno != 0
    requires t.size(Genesis(log.memory)) <= TAIL_WINDOW
    ensures var first := Genesis(log.memory);
            var file := AfterWrite(log.file, first, Written, newIno);
            var m := Memory(true, t.hash(first), Stat(t, log.file).0, Stat(t, log.file).1);
            && SegmentsVerified(t, Log(file, log.archive, m)) && ShortTail(t, file)
            && m.lastHash == Tail(t, LinesOf(file)) && file.Some?
            && (log.file.Some? ==> MemoryFits(t, Log(file, log.archive, m)))
  {
    NothingIsVerified(t);
    WriteExtends(t, log.file, Genesis(log.memory), newIno);
    TailIsLast(t, [], Genesis(log.memory));
    hide Verified, Tail, Size;
  }

  lemma AppendKeeps(t: Text, log: Log, body: Body, g: Write, e: Write, newIno: nat)
    requires Good(t, log) && Orderly(t, log, AppendEvent(body, g, e, newIno))
    ensures Good(t, Append(t, log, body, g, e, newIno))
  {
    var m := Loaded(t, log);
    var log' := log.(memory := m);
    LoadedFits(t, log);
    hide Verified, Tail, Size, MemoryFits, ReadTail;
    if SeesRotation(t, m, log.file) {
      RotationMeansEmpty(t, log');
      if g == Written {
        var first := Genesis(m);
        GenesisKeeps(t, log', newIno);
        var file := AfterWrite(log.file, first, g, newIno);
        var m' := Memory(true, t.hash(first), Stat(t, log.file).0, Stat(t, log.file).1);
        EntryAfterGenesisKeeps(t, Log(file, log.archive, m'), body, e, newIno, log.file.Some?);
      }
    } else {
      NoRotationMeansTail(t, log');
      AppendEntryKeeps(t, log', body, e, newIno);
    }
  }

  /** The entry after a genesis line: a refusal is harmless when the remembered identity is the file's. */
  lemma EntryAfterGenesisKeeps(t: Text, log: Log, body: Body, e: Write, newIno: nat, known: bool)
    requires SegmentsVerified(t, log) && ShortTail(t, log.file) && log.file.Some? && log.memory.loaded
    requires log.memory.lastHash == Tail(t, LinesOf(log.file)) && (known ==> MemoryFits(t, log))
    requires e == Written || (e == Refused && known)
    requires newIno != 0 && t.size(Line(log.memory.lastHash, body)) <= TAIL_WINDOW
    ensures Good(t, AppendEntry(t, log, body, e, newIno))
  {
    hide Verified, Tail, Size;
    var line := Line(log.memory.lastHash, body);
    WriteExtends(t, log.file, line, newIno);
    TailIsLast(t, LinesOf(log.file), line);
  }

  lemma RotateKeeps(t: Text, log: Log, created: Option<nat>)
    requires Good(t, log) && Orderly(t, log, RotateEvent(created))
    ensures Good(t, Rotate(log, created))
  {
  }

  ghost predicate OrderlyRun(t: Text, log: Log, events: seq<Event>) {
    forall i :: 0 <= i < |events| ==> Orderly(t, Run(t, log, events[..i]), events[i])
  }

  /** In every orderly run every segment, archived or current, passes verification. */
  lemma {:induction false} RunStaysVerified(t: Text, log: Log, events: seq<Event>)
    requires Good(t, log) && OrderlyRun(t, log, events)
    ensures Good(t, Run(t, log, events)) && SegmentsVerified(t, Run(t, log, events))
    decreases |events|
  {
    if events != [] {
      var before, ev := events[..|events| - 1], events[|events| - 1];
      assert forall i :: 0 <= i < |before| ==> before[..i] == events[..i];
      RunStaysVerified(t, log, before);
      match ev {
        case AppendEvent(body, g, e, newIno) => AppendKeeps(t, Run(t, log, before), body, g, e, newIno);
        case RotateEvent(created) => RotateKeeps(t, Run(t, log, before), created);
        case RestartEvent =>
      }
    }
  }

  // ----- where the conditions are needed -----

  /**
   A written genesis line whose entry is then refused: the remembered identity is still that of the
   missing file, so the next append starts a second genesis line inside the segment and breaks it.
   */
  lemma RefusalAfterGenesisBreaks(t: Text, log: Log, body: Body, later: Body, ino: nat, ino': nat)
    requires Injective(t) && log.memory.loaded && log.file.None? && SeesRotation(t, log.memory, None) && ino != 0
    ensures var broken := Append(t, Append(t, log, body, Written, Refused, ino), later, Written, Written, ino');
            broken.file.Some? && !Verified(t, broken.file.value.lines)
  {
    var once := Append(t, log, body, Written, Refused, ino);
    var first := Genesis(log.memory);
    assert once.file == Some(File(ino, [first])) && SeesRotation(t, once.memory, once.file);
    var second := Genesis(once.memory);
    var twice := Append(t, once, later, Written, Written, ino');
    assert twice.file.value.lines == [first] + [second] + [Line(t.hash(second), later)];
    assert twice.file.value.lines[..1] == [first];
    assert twice.file.value.lines[1].prevHash == "";
  }

  /** No genesis line names its own hash. */
  ghost predicate NoSelfHash(t: Text) {
    forall tail :: t.hash(Line("", Rotated(tail))) != tail
  }

  /** A line that does not carry the tail hash breaks the chain, whatever follows it. */
  lemma BrokenLink(t: Text, lines: seq<Line>, line: Line, more: seq<Line>)
    requires line.prevHash != Tail(t, lines)
    ensures !Verified(t, lines + [line] + more)
  {
    var whole := lines + [line] + more;
    assert whole[..|lines| + 1] == lines + [line];
    ExtendVerified(t, lines, line);
    if Verified(t, whole) {
      PrefixVerified(t, whole, |lines| + 1);
    }
  }

  /** In a verified segment no line carries the hash it has itself. */
  lemma {:induction false} NoLineCarriesItself(t: Text, lines: seq<Line>)
    requires Injective(t) && Verified(t, lines) && lines != []
    ensures lines[|lines| - 1].prevHash != t.hash(lines[|lines| - 1])
    decreases |lines|
  {
    var last, before := lines[|lines| - 1], lines[..|lines| - 1];
    if last.prevHash == t.hash(last) {
      assert before != [] && before[|before| - 1] == last;
      NoLineCarriesItself(t, before);
    }
  }

  /** An append whose memory does not fit a file with lines breaks that file. */
  lemma StaleAppendBreaks(t: Text, log: Log, body: Body, ino: nat)
    requires Injective(t) && StaleMemory(t, log)
    ensures var next := Append(t, log, body, Written, Written, ino);
            next.file.Some? && !Verified(t, next.file.value.lines)
  {
    hide Verified, Size;
    var m, lines := log.memory, LinesOf(log.file);
    if SeesRotation(t, m, log.file) {
      var entry := Line(t.hash(Genesis(m)), body);
      BrokenLink(t, lines, Genesis(m), [entry]);
    } else {
      BrokenLink(t, lines, Line(m.lastHash, body), []);
      assert lines + [Line(m.lastHash, body)] + [] == lines + [Line(m.lastHash, body)];
    }
  }

  /** The memory is that of a file with lines as it was before them, or of another file. */
  ghost predicate StaleMemory(t: Text, log: Log) {
    && log.memory.loaded && log.file.Some? && LinesOf(log.file) != []
    && (SeesRotation(t, log.memory, log.file) || log.memory.lastHash != Tail(t, LinesOf(log.file)))
  }

  lemma UncleanAfterRotation(t: Text, log: Log, body: Body, g: Write, e: Write, ino: nat)
    requires Injective(t) && NoSelfHash(t) && log.memory.loaded && LinesOf(log.file) == [] && ino != 0
    requires SeesRotation(t, log.memory, log.file) && !CleanAppend(t, log, g, e)
    ensures StaleMemory(t, Append(t, log, body, g, e, ino))
  {
    hide Size, Verified;
    var first := Genesis(log.memory);
    assert [] + [first] == [first];
    if g == Written {
      var entry := Line(t.hash(first), body);
      TailIsLast(t, [first], entry);
      NothingIsVerified(t);
    }
  }

  lemma UncleanEntry(t: Text, log: Log, body: Body, g: Write, e: Write, ino: nat)
    requires Injective(t) && log.memory.loaded && Verified(t, LinesOf(log.file)) && ino != 0
    requires log.memory.lastHash == Tail(t, LinesOf(log.file))
    requires !SeesRotation(t, log.memory, log.file) && !CleanAppend(t, log, g, e)
    ensures StaleMemory(t, Append(t, log, body, g, e, ino))
  {
    hide Size, Verified;
    var lines, line := LinesOf(log.file), Line(log.memory.lastHash, body);
    TailIsLast(t, lines, line);
    if lines != [] {
      NoLineCarriesItself(t, lines);
    }
  }

  /** After an append that is not clean the memory no longer fits the file. */
  lemma UncleanMemory(t: Text, log: Log, body: Body, g: Write, e: Write, ino: nat)
    requires Injective(t) && NoSelfHash(t) && Good(t, log) && ino != 0 && !CleanAppend(t, log, g, e)
    ensures StaleMemory(t, Append(t, log, body, g, e, ino))
  {
    var log' := log.(memory := Loaded(t, log));
    LoadedFits(t, log);
    NothingIsVerified(t);
    if SeesRotation(t, log'.memory, log.file) {
      RotationMeansEmpty(t, log');
      UncleanAfterRotation(t, log', body, g, e, ino);
    } else {
      NoRotationMeansTail(t, log');
      UncleanEntry(t, log', body, g, e, ino);
    }
    hide StaleMemory, AppendEntry;
  }

  lemma StaleIsNotGood(t: Text, log: Log)
    requires StaleMemory(t, log)
    ensures !Good(t, log)
  {
  }

  /**
   What one append does to the chain: it stays continuable exactly when the append is clean, and a later
   append that is written leaves a verified log exactly then.
   */
  lemma AppendKeepsIff(t: Text, log: Log, body: Body, g: Write, e: Write, ino: nat, later: Body, ino': nat)
    requires Injective(t) && NoSelfHash(t) && Good(t, log) && ino != 0 && ino' != 0
    requires LinesFit(t, log, body) && LinesFit(t, Append(t, log, body, g, e, ino), later)
    ensures var once := Append(t, log, body, g, e, ino);
            && (Good(t, once) <==> CleanAppend(t, log, g, e))
            && (SegmentsVerified(t, Append(t, once, later, Written, Written, ino')) <==> CleanAppend(t, log, g, e))
  {
    var once := Append(t, log, body, g, e, ino);
    if CleanAppend(t, log, g, e) {
      AppendKeeps(t, log, body, g, e, ino);
      AppendKeeps(t, once, later, Written, Written, ino');
    } else {
      UncleanMemory(t, log, body, g, e, ino);
      StaleIsNotGood(t, once);
      StaleAppendBreaks(t, once, later, ino');
    }
    hide Good, Append, CleanAppend;
  }

  /** A line that was written although an error was reported breaks the chain on the next append. */
  lemma UnreportedWriteBreaks(t: Text, log: Log, body: Body, g: Write, e: Write, later: Body, ino: nat, ino': nat)
    requires Injective(t) && NoSelfHash(t) && Good(t, log) && ino != 0
    requires if SeesRotation(t, Loaded(t, log), log.file) then g == Unreported || (g == Written && e == Unreported)
             else e == Unreported
    ensures var broken := Append(t, Append(t, log, body, g, e, ino), later, Written, Written, ino');
            broken.file.Some? && !Verified(t, broken.file.value.lines)
  {
    UncleanMemory(t, log, body, g, e, ino);
    StaleAppendBreaks(t, Append(t, log, body, g, e, ino), later, ino');
  }

  /** After a restart the chain goes on exactly when the last line fits the tail window (or its two hashes agree). */
  lemma RestartContinuesIff(t: Text, log: Log, body: Body, ino: nat)
    requires log.file.Some? && log.file.value.lines != [] && Verified(t, log.file.value.lines)
    ensures var last := log.file.value.lines[|log.file.value.lines| - 1];
            Verified(t, LinesOf(Append(t, Restart(log), body, Written, Written, ino).file))
            <==> t.size(last) <= 65_536 || t.cutHash(last) == t.hash(last)
  {
    var line := Line(ReadTail(t, log.file), body);
    ExtendVerified(t, log.file.value.lines, line);
  }

  // ----- the whole history -----

  /** The archived segments and the current one, if it has lines. */
  function Segments(log: Log): seq<seq<Line>> {
    if LinesOf(log.file) == [] then log.archive else log.archive + [LinesOf(log.file)]
  }

  /** Verified segments; the first opens with an action, each other with a genesis line naming the tail before it. */
  ghost predicate Chained(t: Text, segments: seq<seq<Line>>) {
    segments != [] ==>
      var last, before := segments[|segments| - 1], segments[..|segments| - 1];
      && last != [] && Verified(t, last) && Chained(t, before)
      && (if before == [] then last[0].body.Action?
          else last[0].body == Rotated(Tail(t, before[|before| - 1])))
  }

  /**
   The next line written will continue the history: either the file shows its tail, or the process
   remembers the tail of the segment renamed away, or nothing was ever written and none seems missing.
   */
  ghost predicate MemoryLinks(t: Text, log: Log) {
    if LinesOf(log.file) != [] then true
    else if log.archive != [] then log.memory.loaded && log.memory.lastHash == Tail(t, log.archive[|log.archive| - 1])
    else !SeesRotation(t, Loaded(t, log), log.file)
  }

  /** A log whose segments are linked into one history, and stay so. */
  ghost predicate Linked(t: Text, log: Log) {
    Good(t, log) && Chained(t, Segments(log)) && MemoryLinks(t, log)
  }

  lemma ChainedExtends(t: Text, segments: seq<seq<Line>>, s: seq<Line>)
    requires Chained(t, segments) && s != [] && Verified(t, s)
    requires if segments == [] then s[0].body.Action?
             else s[0].body == Rotated(Tail(t, segments[|segments| - 1]))
    ensures Chained(t, segments + [s])
  {
    assert (segments + [s])[..|segments|] == segments;
  }

  /** The whole history is determined by the hash of the last line ever written. */
  lemma {:induction false} TailDeterminesHistory(t: Text, h: seq<seq<Line>>, h': seq<seq<Line>>)
    requires Injective(t) && Chained(t, h) && Chained(t, h') && h != [] && h' != []
    requires Tail(t, h[|h| - 1]) == Tail(t, h'[|h'| - 1])
    ensures h == h'
    decreases |h|
  {
    hide Verified, Tail;
    var n, n' := |h| - 1, |h'| - 1;
    TailDeterminesSegment(t, h[n], h'[n']);
    if n > 0 {
      assert Rotated(Tail(t, h[n - 1])) == Rotated(Tail(t, h'[n' - 1]));
      TailDeterminesHistory(t, h[..n], h'[..n']);
      assert h == h[..n] + [h[n]] && h' == h'[..n'] + [h'[n']];
    }
  }

  /** Lines added to the current segment keep the history chained. */
  lemma GrownSegmentChained(t: Text, archive: seq<seq<Line>>, lines: seq<Line>, line: Line)
    requires Chained(t, archive + [lines]) && lines != [] && Verified(t, lines + [line])
    ensures Chained(t, archive + [lines + [line]])
  {
    assert (archive + [lines])[..|archive|] == archive && (archive + [lines])[|archive|] == lines;
    ChainedExtends(t, archive, lines + [line]);
  }

  /** An entry that continues the current segment, or opens the very first one. */
  lemma EntryLinks(t: Text, log: Log, body: Body, e: Write, newIno: nat)
    requires Good(t, log) && Chained(t, Segments(log)) && log.memory.loaded && body.Action?
    requires log.memory.lastHash == Tail(t, LinesOf(log.file)) && (LinesOf(log.file) == [] ==> log.archive == [])
    requires e != Unreported
    ensures Chained(t, Segments(AppendEntry(t, log, body, e, newIno)))
  {
    if e == Written {
      hide Chained, Verified, Tail;
      var line := Line(log.memory.lastHash, body);
      NothingIsVerified(t);
      WriteExtends(t, log.file, line, newIno);
      if LinesOf(log.file) == [] {
        assert [] + [line] == [line];
        ChainedExtends(t, log.archive, [line]);
      } else {
        GrownSegmentChained(t, log.archive, LinesOf(log.file), line);
      }
    }
  }

  /** After a rotation: the genesis line opens the next segment, and the entry continues it. */
  lemma GenesisLinks(t: Text, log: Log, body: Body, e: Write, newIno: nat)
    requires Good(t, log) && log.memory.loaded && LinesOf(log.file) == [] && Chained(t, log.archive)
    requires log.archive != [] && log.memory.lastHash == Tail(t, log.archive[|log.archive| - 1])
    requires newIno != 0 && t.size(Genesis(log.memory)) <= TAIL_WINDOW && e != Unreported
    ensures var first := Genesis(log.memory);
            var file := AfterWrite(log.file, first, Written, newIno);
            var m := Memory(true, t.hash(first), Stat(t, log.file).0, Stat(t, log.file).1);
            Chained(t, Segments(AppendEntry(t, Log(file, log.archive, m), body, e, newIno)))
  {
    var first := Genesis(log.memory);
    NothingIsVerified(t);
    GenesisKeeps(t, log, newIno);
    WriteExtends(t, log.file, first, newIno);
    hide Chained, Verified, Tail;
    var file := AfterWrite(log.file, first, Written, newIno);
    assert LinesOf(file) == [first];
    ChainedExtends(t, log.archive, [first]);
    if e == Written {
      var entry := Line(t.hash(first), body);
      WriteExtends(t, file, entry, newIno);
      GrownSegmentChained(t, log.archive, [first], entry);
    }
  }

  /** An append to a linked log keeps it linked. */
  lemma AppendLinks(t: Text, log: Log, body: Body, g: Write, e: Write, newIno: nat)
    requires Injective(t) && Linked(t, log) && body.Action? && Orderly(t, log, AppendEvent(body, g, e, newIno))
    ensures Linked(t, Append(t, log, body, g, e, newIno))
  {
    AppendKeeps(t, log, body, g, e, newIno);
    AppendChains(t, log, body, g, e, newIno);
    AppendRemembers(t, log, body, g, e, newIno);
    hide Good, Chained, MemoryLinks, Append, Segments, Orderly;
  }

  lemma AppendChains(t: Text, log: Log, body: Body, g: Write, e: Write, newIno: nat)
    requires Injective(t) && Linked(t, log) && body.Action? && Orderly(t, log, AppendEvent(body, g, e, newIno))
    ensures Chained(t, Segments(Append(t, log, body, g, e, newIno)))
  {
    hide Chained, Verified, Size, Tail;
    var m := Loaded(t, log);
    var log' := log.(memory := m);
    LoadedFits(t, log);
    hide Good;
    if SeesRotation(t, m, log.file) {
      RotationMeansEmpty(t, log');
      if g == Written {
        GenesisLinks(t, log', body, e, newIno);
      }
    } else {
      NoRotationMeansTail(t, log');
      if LinesOf(log.file) == [] {
        EmptyHasNoTail(t, log);
      }
      EntryLinks(t, log', body, e, newIno);
    }
  }

  /** A linked log without lines and without a visible rotation is a log nothing was ever written to. */
  lemma EmptyHasNoTail(t: Text, log: Log)
    requires Injective(t) && Linked(t, log) && LinesOf(log.file) == []
    ensures SeesRotation(t, Loaded(t, log), log.file) <==> log.archive != []
  {
    if log.archive != [] {
      var last := log.archive[|log.archive| - 1];
      assert last in log.archive && last != [];
      if !SeesRotation(t, log.memory, log.file) {
        NoRotationMeansTail(t, log);
      }
    }
  }

  lemma AppendRemembers(t: Text, log: Log, body: Body, g: Write, e: Write, newIno: nat)
    requires MemoryLinks(t, log)
    ensures MemoryLinks(t, Append(t, log, body, g, e, newIno))
  {
    hide Tail, Size;
    var after := Append(t, log, body, g, e, newIno);
    if LinesOf(after.file) == [] {
      assert after == log.(memory := Loaded(t, log));
    }
  }

  /** The history goes on after a completely written append exactly when the memory links. */
  lemma AppendLinksIff(t: Text, log: Log, body: Body, newIno: nat)
    requires Injective(t) && Good(t, log) && Chained(t, Segments(log)) && body.Action?
    requires newIno != 0 && LinesFit(t, log, body)
    ensures Chained(t, Segments(Append(t, log, body, Written, Written, newIno))) <==> MemoryLinks(t, log)
  {
    if MemoryLinks(t, log) {
      AppendChains(t, log, body, Written, Written, newIno);
    } else {
      UnlinkedAppend(t, log, body, newIno);
    }
  }

  /** The first line of the segment that an append to an empty file starts. */
  function FirstBody(t: Text, log: Log, body: Body): Body {
    if SeesRotation(t, Loaded(t, log), log.file) then Rotated(Loaded(t, log).lastHash) else body
  }

  lemma AppendToEmpty(t: Text, log: Log, body: Body, newIno: nat)
    requires LinesOf(log.file) == []
    ensures var after := Append(t, log, body, Written, Written, newIno);
            LinesOf(after.file) != [] && after.archive == log.archive
            && LinesOf(after.file)[0].body == FirstBody(t, log, body)
  {
  }

  lemma ChainedOpens(t: Text, segments: seq<seq<Line>>, s: seq<Line>)
    requires s != [] && Chained(t, segments + [s])
    ensures if segments == [] then s[0].body.Action? else s[0].body == Rotated(Tail(t, segments[|segments| - 1]))
  {
    assert (segments + [s])[..|segments|] == segments;
  }

  lemma UnlinkedAppend(t: Text, log: Log, body: Body, newIno: nat)
    requires body.Action? && !MemoryLinks(t, log)
    ensures !Chained(t, Segments(Append(t, log, body, Written, Written, newIno)))
  {
    AppendToEmpty(t, log, body, newIno);
    var after := Append(t, log, body, Written, Written, newIno);
    if Chained(t, Segments(after)) {
      ChainedOpens(t, log.archive, LinesOf(after.file));
    }
    hide Append, Chained, Tail;
  }

  /** A rotation keeps the log linked exactly when the process has its memory, or there was nothing to rotate. */
  lemma RotateLinksIff(t: Text, log: Log, created: Option<nat>)
    requires Injective(t) && Linked(t, log) && Orderly(t, log, RotateEvent(created))
    ensures Linked(t, Rotate(log, created)) <==> log.memory.loaded || LinesOf(log.file) == []
  {
    RotateKeeps(t, log, created);
    hide Chained, Verified;
    if LinesOf(log.file) != [] {
      assert Segments(Rotate(log, created)) == Segments(log);
    }
  }

  /** A restart keeps the log linked exactly when the file has lines or nothing was ever renamed away. */
  lemma RestartLinksIff(t: Text, log: Log)
    requires Linked(t, log)
    ensures Linked(t, Restart(log)) <==> LinesOf(log.file) != [] || log.archive == []
  {
    hide Chained, Verified;
  }

  /**
   A restart between a rotation and the next append loses the link, whatever was logged before: the new
   process finds no file, takes the log to be new and writes no genesis line.
   */
  lemma RestartAfterRotationUnlinks(t: Text, log: Log, body: Body, created: Option<nat>, ino: nat)
    requires LinesOf(log.file) != [] && body.Action?
    ensures var after := Append(t, Restart(Rotate(log, created)), body, Written, Written, ino);
            Segments(after) == Segments(log) + [[Line("", body)]] && !Chained(t, Segments(after))
  {
    var rotated := Restart(Rotate(log, created));
    assert [] + [Line("", body)] == [Line("", body)];
    UnlinkedAppend(t, rotated, body, ino);
    hide Chained;
  }

  /** Steps that keep the history linked: the process that appended last is the one that sees the rotation. */
  ghost predicate KeepsLink(t: Text, log: Log, ev: Event) {
    match ev
    case AppendEvent(body, _, _, _) => body.Action?
    case RotateEvent(_) => log.memory.loaded || LinesOf(log.file) == []
    case RestartEvent => LinesOf(log.file) != [] || log.archive == []
  }

  ghost predicate LinkedRun(t: Text, log: Log, events: seq<Event>) {
    OrderlyRun(t, log, events) && forall i :: 0 <= i < |events| ==> KeepsLink(t, Run(t, log, events[..i]), events[i])
  }

  /** In every such run, restarts included, the history stays linked, so its last hash vouches for all of it. */
  lemma {:induction false} RunStaysLinked(t: Text, log: Log, events: seq<Event>)
    requires Injective(t) && Linked(t, log) && LinkedRun(t, log, events)
    ensures Linked(t, Run(t, log, events))
    decreases |events|
  {
    hide Linked, Orderly, KeepsLink;
    if events != [] {
      var n := |events| - 1;
      var before, ev := events[..n], events[n];
      assert forall i :: 0 <= i < n ==> before[..i] == events[..i];
      RunStaysLinked(t, log, before);
      StepLinks(t, Run(t, log, before), ev);
    }
  }

  lemma StepLinks(t: Text, log: Log, ev: Event)
    requires Injective(t) && Linked(t, log) && Orderly(t, log, ev) && KeepsLink(t, log, ev)
    ensures Linked(t, Step(t, log, ev))
  {
    hide Linked;
    match ev {
      case AppendEvent(body, g, e, newIno) => AppendLinks(t, log, body, g, e, newIno);
      case RotateEvent(created) => RotateLinksIff(t, log, created);
      case RestartEvent => RestartLinksIff(t, log);
    }
  }

  const EMPTY_LOG := Log(None, [], FORGOTTEN)

  /** What such a run from an empty log has written. */
  function History(t: Text, events: seq<Event>): seq<seq<Line>> {
    Segments(Run(t, EMPTY_LOG, events))
  }

  /** The first entry of a new log is such a run. */
  lemma FirstEntry(t: Text, body: Body, ino: nat)
    requires body.Action? && ino != 0 && t.size(Line("", body)) <= TAIL_WINDOW
    ensures var events := [AppendEvent(body, Written, Written, ino)];
            LinkedRun(t, EMPTY_LOG, events) && History(t, events) == [[Line("", body)]]
  {
    var events := [AppendEvent(body, Written, Written, ino)];
    assert events[..0] == [] && Run(t, EMPTY_LOG, []) == EMPTY_LOG;
    assert Run(t, EMPTY_LOG, events) == Step(t, EMPTY_LOG, events[0]);
  }

  /** Two such runs that end with the same hash have written the same history. */
  lemma EqualTailsEqualHistories(t: Text, events: seq<Event>, events': seq<Event>)
    requires Injective(t) && LinkedRun(t, EMPTY_LOG, events) && LinkedRun(t, EMPTY_LOG, events')
    requires var h, h' := History(t, events), History(t, events');
             h != [] && h' != [] && Tail(t, h[|h| - 1]) == Tail(t, h'[|h'| - 1])
    ensures History(t, events) == History(t, events')
  {
    EmptyIsLinked(t);
    RunStaysLinked(t, EMPTY_LOG, events);
    RunStaysLinked(t, EMPTY_LOG, events');
    hide Run, Segments, Chained, Good, LinkedRun, Tail;
    TailDeterminesHistory(t, History(t, events), History(t, events'));
  }

  lemma EmptyIsLinked(t: Text)
    ensures Linked(t, EMPTY_LOG)
  {
  }
}
