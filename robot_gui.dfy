/**
 * The replay engine of the robot window: the rows of a loaded capture log,
 * the per-row "sent" mark (the green background), the command counters, and
 * the run queue that the run timer walks one row per tick. The timer is the
 * flag `running`; a timer tick is a call of `Tick`; the serial port is the
 * flag `portOpen` handed to every send.
 */
module Replay {
  import opened Wrappers
  import opened Text
  import opened HexCodec
  import opened LogParser
  import opened Seqs

  /** A row whose display text contains one of these is left out of a run. */
  const SkipMarkers: seq<string> := ["(A)", "(B)", "(C)", "(D)"]

  predicate IsSkipped(e: Entry) {
    exists k :: 0 <= k < |SkipMarkers| && Contains(DisplayText(e), SkipMarkers[k])
  }

  /** A marker of three characters, none of them a space or a bar, cannot
      straddle the separator `" | "`. */
  lemma MarkerAcrossSeparator(p: string, h: string, m: string)
    requires |m| == 3 && forall k :: 0 <= k < 3 ==> m[k] != ' ' && m[k] != '|'
    ensures Contains(p + " | " + h, m) <==> Contains(p, m) || Contains(h, m)
  {
    var s := p + " | " + h;
    assert s[..|p|] == s[0..|p|] == p;
    assert s[|p| + 3..] == s[|p| + 3..|s|] == h;
    ContainsSlice(s, 0, |p|, m);
    ContainsSlice(s, |p| + 3, |s|, m);
    forall i | 0 <= i && |p| < i + 3 && i < |p| + 3 ensures !OccursAt(s, m, i) {
      if i + 3 <= |s| {
        var q := if i < |p| then |p| else i;
        assert s[i..i + 3][q - i] == s[q];
        assert s[q] == ' ' || s[q] == '|';
      }
    }
    if Contains(s, m) {
      var i :| 0 <= i <= |s| - |m| && OccursAt(s, m, i);
      if i + 3 <= |p| {
        assert p[i..i + 3] == s[i..i + 3];
        assert OccursAt(p, m, i);
      } else if i >= |p| + 3 {
        assert h[i - |p| - 3..i - |p|] == s[i..i + 3];
        assert OccursAt(h, m, i - |p| - 3);
      }
    }
  }

  /** A command row is skipped exactly when its label or its hex text holds
      a skip marker. */
  lemma SkippedCommand(p: string, h: string)
    ensures IsSkipped(Command(p, h)) <==>
      exists k :: 0 <= k < |SkipMarkers| && (Contains(p, SkipMarkers[k]) || Contains(h, SkipMarkers[k]))
  {
    forall k | 0 <= k < |SkipMarkers|
      ensures Contains(DisplayText(Command(p, h)), SkipMarkers[k]) <==>
        Contains(p, SkipMarkers[k]) || Contains(h, SkipMarkers[k])
    {
      MarkerAcrossSeparator(p, h, SkipMarkers[k]);
    }
  }

  // ------------------------------------------------------------ transmit

  /** What one call of `_write_serial` does with the port. */
  datatype TxOutcome = Written(bytes: seq<byte>) | PortClosed | EncodingFailed(error: DecodeError)

  /** `_write_serial`: the hex text is decoded first, so a text that does not
      decode fails whether or not the port is open; a decoded frame is
      written only to an open port. */
  function WriteSerial(hex: string, portOpen: bool): TxOutcome
  {
    match Decode(hex)
    case Err(e) => EncodingFailed(e)
    case Ok(bs) => if portOpen then Written(bs) else PortClosed
  }

  /** A frame is written exactly when the port is open and every
      whitespace-separated token of the hex text is a byte in base 16; a bad
      token is reported, naming the first one, whether or not the port is
      open. */
  lemma WriteSerialOutcome(hex: string, portOpen: bool)
    ensures var t := WriteSerial(hex, portOpen);
      var toks := Tokens(hex);
      (t.Written? <==> portOpen && forall i :: 0 <= i < |toks| ==> IsByteToken(toks[i])) &&
      (t.PortClosed? <==> !portOpen && forall i :: 0 <= i < |toks| ==> IsByteToken(toks[i])) &&
      (t.EncodingFailed? ==> exists i :: FirstBadToken(toks, i) && t.error == TokenError(toks[i]))
  {
  }

  /** A written frame holds one byte per token of the hex text, each the
      token's base-16 value. */
  lemma WrittenFrame(hex: string, portOpen: bool)
    requires WriteSerial(hex, portOpen).Written?
    ensures var bs := WriteSerial(hex, portOpen).bytes;
      |bs| == |Tokens(hex)| &&
      forall i :: 0 <= i < |bs| ==> IsByteToken(Tokens(hex)[i]) && bs[i] as int == NumeralValue(Tokens(hex)[i])
  {
  }

  /** The frame of a capture log line is written as its three bytes; a token
      that is not hex, or is above `FF`, stops the write. */
  lemma WriteSerialExamples()
    ensures WriteSerial("AA BB CC", true) == Written([0xAA, 0xBB, 0xCC])
    ensures WriteSerial("AA BB CC", false) == PortClosed
    ensures WriteSerial("AA ZZ", true) == EncodingFailed(NotHex("ZZ"))
    ensures WriteSerial("1FF AA", true) == EncodingFailed(OutOfRange("1FF"))
  {
    DecodeExample();
    DecodeNotHexExample();
    DecodeOutOfRangeExample();
  }

  // ------------------------------------------------------------ block scan

  /** The rows `run_selected_block` queues once its scan reaches row `i`: the
      scan ends at the first row without data (a header, or a command whose
      hex text is empty) or at the end of the list, and passes over rows
      carrying a skip marker. */
  function Gather(items: seq<Entry>, i: nat): seq<nat>
    requires i <= |items|
    decreases |items| - i
  {
    if i == |items| || !HasData(items[i]) then []
    else if IsSkipped(items[i]) then Gather(items, i + 1)
    else [i] + Gather(items, i + 1)
  }

  /** The queue holds rows of the list after the start of the scan, each
      with data and without a skip marker, in increasing order. */
  lemma {:induction false} GatherRows(items: seq<Entry>, i: nat)
    requires i <= |items|
    ensures forall k :: 0 <= k < |Gather(items, i)| ==>
      i <= Gather(items, i)[k] < |items| && HasData(items[Gather(items, i)[k]]) && !IsSkipped(items[Gather(items, i)[k]])
    ensures forall k, k' :: 0 <= k < k' < |Gather(items, i)| ==> Gather(items, i)[k] < Gather(items, i)[k']
    decreases |items| - i
  {
    if i < |items| && HasData(items[i]) {
      GatherRows(items, i + 1);
      var r := Gather(items, i + 1);
      if !IsSkipped(items[i]) {
        var q := [i] + r;
        assert Gather(items, i) == q;
        forall k | 0 < k < |q| ensures q[k] == r[k - 1] && i < q[k] {
          assert 0 <= k - 1 < |r|;
          assert i + 1 <= r[k - 1];
        }
      } else {
        assert Gather(items, i) == r;
      }
    }
  }

  /** A row is queued exactly when it lies after the start of the scan, is
      not skipped, and every row from the start of the scan up to it has data. */
  lemma {:induction false} GatherMembers(items: seq<Entry>, i: nat, j: int)
    requires i <= |items|
    ensures j in Gather(items, i) <==>
      i <= j < |items| && !IsSkipped(items[j]) && forall m :: i <= m <= j ==> HasData(items[m])
    decreases |items| - i
  {
    if i < |items| && HasData(items[i]) {
      GatherMembers(items, i + 1, j);
    }
  }

  /** A command row whose label carries a skip marker stays among the rows
      but is never queued, whatever block is selected. */
  lemma SkipMarkedNeverQueued(items: seq<Entry>, i: nat, j: nat, k: nat)
    requires i <= |items| && j < |items| && items[j].Command?
    requires k < |SkipMarkers| && Contains(items[j].prefix, SkipMarkers[k])
    ensures j !in Gather(items, i)
  {
    SkippedCommand(items[j].prefix, items[j].hex);
    assert items[j] == Command(items[j].prefix, items[j].hex);
    GatherMembers(items, i, j);
  }

  /** The loop of `run_selected_block` from the header at row `s`. */
  method ScanBlock(items: seq<Entry>, s: nat) returns (queue: seq<nat>)
    requires s < |items|
    ensures queue == Gather(items, s + 1)
  {
    queue := [];
    var i := s + 1;
    while i < |items|
      invariant s + 1 <= i <= |items|
      invariant queue + Gather(items, i) == Gather(items, s + 1)
    {
      if !HasData(items[i]) {
        assert queue == Gather(items, s + 1) by {
          assert Gather(items, i) == [];
        }
        break;
      }
      if IsSkipped(items[i]) {
        assert queue + Gather(items, i + 1) == Gather(items, s + 1) by {
          assert Gather(items, i) == Gather(items, i + 1);
        }
      } else {
        assert (queue + [i]) + Gather(items, i + 1) == Gather(items, s + 1) by {
          assert Gather(items, i) == [i] + Gather(items, i + 1);
          AppendAssoc(queue, [i], Gather(items, i + 1));
        }
        queue := queue + [i];
      }
      i := i + 1;
    }
  }

  // ------------------------------------------------------------ the engine

  /** The body of the loop of `load_log` for line `i`, given the rows the
      lines before it produced: the row it appends, if any, with the command
      list and count kept in step, or the failure of its split. */
  method LoadLine(lines: seq<string>, i: nat, entries: seq<Entry>, cmds: seq<string>, total: nat)
    returns (entries': seq<Entry>, cmds': seq<string>, total': nat, failed: bool)
    requires i < |lines| && Collect(Outcomes(lines), i) == LoadResult(entries, None)
    requires cmds == CommandHexes(entries) && total == CountCommands(entries)
    ensures Collect(Outcomes(lines), i + 1) == LoadResult(entries', if failed then Some(i) else None)
    ensures cmds' == CommandHexes(entries') && total' == CountCommands(entries')
  {
    var out := ParseLine(lines[i]);
    OutcomeAt(lines, i);
    CollectStep(Outcomes(lines), i);
    entries', cmds', total', failed := entries, cmds, total, false;
    match out
    case SplitFailure =>
      failed := true;
    case Blank =>
    case Item(e) =>
      AppendEntry(entries, e);
      entries' := entries + [e];
      if e.Command? {
        cmds' := cmds + [e.hex];
        total' := total + 1;
      }
  }

  /** The loop of `load_log` over the lines of a file: the rows it adds,
      `log_commands`, `total_cmds`, and the line whose split raised. */
  method ReadLines(lines: seq<string>) returns (entries: seq<Entry>, cmds: seq<string>, total: nat, failedAt: Option<nat>)
    ensures LoadResult(entries, failedAt) == ParseLog(lines)
    ensures cmds == CommandHexes(entries) && total == CountCommands(entries)
  {
    entries, cmds, total, failedAt := [], [], 0, None;
    var i := 0;
    while i < |lines|
      invariant i <= |lines| && Collect(Outcomes(lines), i) == LoadResult(entries, None)
      invariant cmds == CommandHexes(entries) && total == CountCommands(entries)
      invariant failedAt.None?
    {
      var failed;
      entries, cmds, total, failed := LoadLine(lines, i, entries, cmds, total);
      if failed {
        failedAt := Some(i);
        CollectSettled(Outcomes(lines), i + 1, |lines|);
        return;
      }
      i := i + 1;
    }
  }

  datatype LoadStatus = Cancelled | Loaded | Raised(line: nat)

  datatype Selection = NotAHeader | EmptyBlock | Started(count: nat)

  datatype TickOutcome = Finished | Sent(row: nat, tx: TxOutcome) | Fault

  class RobotGui {
    /** The rows of the log list. */
    var items: seq<Entry>
    /** Which rows have the green "sent" background. */
    var marks: seq<bool>
    /** `log_commands`. */
    var commands: seq<string>
    var totalCmds: nat
    var sentCmds: nat
    /** The rows of the current run, by position in `items`. */
    var runQueue: seq<nat>
    var runIndex: nat
    /** The run timer is active. */
    var running: bool
    /** The rows the run queue refers to were deleted by a later load. */
    var stale: bool

    ghost predicate Valid()
      reads this
    {
      |marks| == |items| &&
      (forall i :: 0 <= i < |items| && marks[i] ==> HasData(items[i])) &&
      commands == CommandHexes(items) &&
      totalCmds == CountCommands(items) &&
      (!stale ==> forall k :: 0 <= k < |runQueue| ==> runQueue[k] < |items| && HasData(items[runQueue[k]]))
    }

    constructor ()
      ensures Valid()
      ensures items == [] && marks == [] && commands == [] && totalCmds == 0 && sentCmds == 0
      ensures runQueue == [] && runIndex == 0 && !running && !stale
    {
      items, marks, commands := [], [], [];
      totalCmds, sentCmds := 0, 0;
      runQueue, runIndex := [], 0;
      running, stale := false, false;
    }

    /** `load_log` for the file the dialog returned, `None` when it was
        cancelled. A line whose split raises ends the load, keeping the rows
        added before it. The run queue is left as it was, but its rows no
        longer exist. */
    method Load(file: Option<seq<string>>) returns (status: LoadStatus)
      requires Valid()
      modifies this
      ensures Valid()
      ensures file.None? ==> status == Cancelled && unchanged(this)
      ensures file.Some? ==>
        var r := ParseLog(file.value);
        items == r.entries &&
        status == (if r.failedAt.Some? then Raised(r.failedAt.value) else Loaded) &&
        (forall i :: 0 <= i < |marks| ==> !marks[i]) &&
        sentCmds == 0 && stale &&
        runQueue == old(runQueue) && runIndex == old(runIndex) && running == old(running)
    {
      if file.None? {
        return Cancelled;
      }
      var entries, cmds, total, failedAt := ReadLines(file.value);
      Install(entries, cmds, total);
      status := if failedAt.Some? then Raised(failedAt.value) else Loaded;
    }

    /** Replaces the rows with freshly loaded ones, none of them marked. */
    method Install(entries: seq<Entry>, cmds: seq<string>, total: nat)
      requires cmds == CommandHexes(entries) && total == CountCommands(entries)
      modifies this
      ensures Valid()
      ensures items == entries && (forall i :: 0 <= i < |marks| ==> !marks[i]) && sentCmds == 0 && stale
      ensures runQueue == old(runQueue) && runIndex == old(runIndex) && running == old(running)
    {
      items, marks, commands := entries, seq(|entries|, _ => false), cmds;
      totalCmds, sentCmds := total, 0;
      stale := true;
    }

    /** `run_selected_block` with the list's current row. Anything but a row
        without data is refused and nothing changes. Otherwise the queue is
        rebuilt from the rows after it; an empty queue leaves the timer as it
        was, and a non-empty one restarts the run from its first row. */
    method SelectBlock(current: Option<nat>) returns (sel: Selection)
      requires Valid()
      requires current.Some? ==> current.value < |items|
      modifies this
      ensures Valid()
      ensures items == old(items) && marks == old(marks) && commands == old(commands)
      ensures totalCmds == old(totalCmds) && sentCmds == old(sentCmds)
      ensures sel.NotAHeader? <==> current.None? || HasData(items[current.value])
      ensures sel.NotAHeader? ==> unchanged(this)
      ensures !sel.NotAHeader? ==> runQueue == Gather(items, current.value + 1) && !stale
      ensures sel.EmptyBlock? <==> !sel.NotAHeader? && runQueue == []
      ensures sel.EmptyBlock? ==> runIndex == old(runIndex) && running == old(running)
      ensures sel.Started? ==> sel.count == |runQueue| && runIndex == 0 && running
    {
      if current.None? || HasData(items[current.value]) {
        return NotAHeader;
      }
      runQueue := ScanBlock(items, current.value);
      GatherRows(items, current.value + 1);
      stale := false;
      if runQueue == [] {
        return EmptyBlock;
      }
      runIndex := 0;
      running := true;
      sel := Started(|runQueue|);
    }

    /** `send_from_list`: transmit the row's hex text, mark the row, and count
        the send whatever the transmit did. */
    method SendFromList(row: nat, portOpen: bool) returns (tx: TxOutcome)
      requires Valid() && row < |items| && HasData(items[row])
      modifies this`marks, this`sentCmds
      ensures Valid()
      ensures tx == WriteSerial(items[row].hex, portOpen)
      ensures marks == old(marks)[row := true] && sentCmds == old(sentCmds) + 1
    {
      tx := WriteSerial(items[row].hex, portOpen);
      marks := marks[row := true];
      sentCmds := sentCmds + 1;
    }

    /** `_run_next`, one firing of the run timer. Past the end of the queue
        the timer stops. Otherwise the next queued row is sent and the index
        moves on; on a queue whose rows a load deleted, looking up the row
        raises and nothing changes. */
    method Tick(portOpen: bool) returns (t: TickOutcome)
      requires Valid() && running
      modifies this
      ensures Valid()
      ensures items == old(items) && commands == old(commands) && totalCmds == old(totalCmds)
      ensures runQueue == old(runQueue) && stale == old(stale)
      ensures old(runIndex) >= |runQueue| ==>
        t == Finished && !running && runIndex == old(runIndex) && marks == old(marks) && sentCmds == old(sentCmds)
      ensures old(runIndex) < |runQueue| && stale ==> t == Fault && unchanged(this)
      ensures old(runIndex) < |runQueue| && !stale ==>
        var k := runQueue[old(runIndex)];
        t == Sent(k, WriteSerial(items[k].hex, portOpen)) &&
        marks == old(marks)[k := true] && sentCmds == old(sentCmds) + 1 &&
        runIndex == old(runIndex) + 1 && running
    {
      if runIndex >= |runQueue| {
        running := false;
        return Finished;
      }
      if stale {
        return Fault;
      }
      var k := runQueue[runIndex];
      var tx := SendFromList(k, portOpen);
      runIndex := runIndex + 1;
      t := Sent(k, tx);
    }

    /** `stop_run`: the timer stops; the queue, its index, the marks and the
        counters stay. */
    method Stop()
      requires Valid()
      modifies this`running
      ensures Valid() && !running
      ensures runQueue == old(runQueue) && runIndex == old(runIndex)
      ensures marks == old(marks) && sentCmds == old(sentCmds) && totalCmds == old(totalCmds)
    {
      running := false;
    }

    /** `send_selected_item`, a double click on a row: a row with data is sent
        as `send_from_list` sends it; any other row is left alone. */
    method ManualSend(row: nat, portOpen: bool) returns (tx: Option<TxOutcome>)
      requires Valid() && row < |items|
      modifies this`marks, this`sentCmds
      ensures Valid()
      ensures HasData(items[row]) ==>
        tx == Some(WriteSerial(items[row].hex, portOpen)) &&
        marks == old(marks)[row := true] && sentCmds == old(sentCmds) + 1
      ensures !HasData(items[row]) ==> tx.None? && marks == old(marks) && sentCmds == old(sentCmds)
    {
      tx := None;
      if HasData(items[row]) {
        var t := SendFromList(row, portOpen);
        tx := Some(t);
      }
    }

    /** `reset_colors`: every row with data loses its mark (and no other row
        has one), and the sent counter returns to zero. */
    method ResetMarks()
      requires Valid()
      modifies this`marks, this`sentCmds
      ensures Valid()
      ensures |marks| == |items| && forall i :: 0 <= i < |marks| ==> !marks[i]
      ensures sentCmds == 0
      ensures items == old(items) && totalCmds == old(totalCmds)
    {
      var i := 0;
      while i < |items|
        invariant i <= |items| && |marks| == |items|
        invariant forall j :: 0 <= j < i ==> !marks[j]
        invariant forall j :: i <= j < |items| ==> marks[j] == old(marks)[j]
        invariant forall j :: 0 <= j < |items| && marks[j] ==> HasData(items[j])
      {
        if HasData(items[i]) {
          marks := marks[i := false];
        }
        i := i + 1;
      }
      sentCmds := 0;
    }
  }

  // ------------------------------------------------------------ runs

  /** `m` is `m0` with exactly the rows of `sent` marked in addition. */
  predicate MarkedBy(m0: seq<bool>, m: seq<bool>, sent: seq<nat>) {
    |m| == |m0| && forall j :: 0 <= j < |m| ==> (m[j] <==> m0[j] || j in sent)
  }

  /** Marking one more sent row keeps the marks in step with the rows sent. */
  lemma MarkOne(m0: seq<bool>, m: seq<bool>, sent: seq<nat>, row: nat)
    requires MarkedBy(m0, m, sent) && row < |m|
    ensures MarkedBy(m0, m[row := true], sent + [row])
  {
  }

  /** The run timer firing until the run stops itself: the rows still queued
      are sent in order, one per tick, and one tick more ends the run. */
  method RunToEnd(g: RobotGui, portOpen: bool) returns (sent: seq<nat>, ticks: nat)
    requires g.Valid() && g.running && !g.stale && g.runIndex <= |g.runQueue|
    modifies g
    ensures g.Valid() && !g.running && !g.stale
    ensures g.items == old(g.items) && g.runQueue == old(g.runQueue) && g.totalCmds == old(g.totalCmds)
    ensures sent == old(g.runQueue)[old(g.runIndex)..] && g.runIndex == |g.runQueue|
    ensures ticks == |sent| + 1
    ensures g.sentCmds == old(g.sentCmds) + |sent|
    ensures MarkedBy(old(g.marks), g.marks, sent)
  {
    ghost var q := g.runQueue;
    ghost var i0 := g.runIndex;
    ghost var m0 := g.marks;
    var items := g.items;
    sent, ticks := [], 0;
    while g.runIndex < |g.runQueue|
      invariant g.Valid() && g.running && !g.stale && g.items == items && g.runQueue == q
      invariant g.totalCmds == old(g.totalCmds)
      invariant i0 <= g.runIndex <= |q|
      invariant sent == q[i0..g.runIndex] && ticks == |sent|
      invariant g.sentCmds == old(g.sentCmds) + |sent|
      invariant MarkedBy(m0, g.marks, sent)
      decreases |q| - g.runIndex
    {
      ghost var before, idx := g.marks, g.runIndex;
      var t := g.Tick(portOpen);
      assert t.row == q[idx];
      SliceGrow(q, i0, idx, sent, t.row);
      MarkOne(m0, before, sent, t.row);
      sent, ticks := sent + [t.row], ticks + 1;
    }
    // The queue is exhausted: the next firing stops the timer.
    var last := g.Tick(portOpen);
    ticks := ticks + 1;
  }

  /** A block started from a header and left to run: exactly the rows its
      scan queued are sent, in order, with one tick more than there are rows. */
  method ReplayBlock(g: RobotGui, s: nat, portOpen: bool) returns (sel: Selection, sent: seq<nat>, ticks: nat)
    requires g.Valid() && s < |g.items| && !HasData(g.items[s])
    modifies g
    ensures g.Valid() && g.items == old(g.items)
    ensures sel.Started? <==> Gather(old(g.items), s + 1) != []
    ensures sel.Started? ==>
      sent == Gather(old(g.items), s + 1) && ticks == |sent| + 1 && !g.running &&
      g.sentCmds == old(g.sentCmds) + |sent|
  {
    sel := g.SelectBlock(Some(s));
    sent, ticks := [], 0;
    if sel.Started? {
      ghost var q := g.runQueue;
      assert q == Gather(old(g.items), s + 1) && g.runIndex == 0;
      sent, ticks := RunToEnd(g, portOpen);
      assert sent == q[0..] == q;
    }
  }

  /** The run timer firing `k` times, no more than there are rows left, and
      then the user pressing stop: exactly the next `k` queued rows are sent,
      in order, and the run is left inactive where it stood, so no further
      tick can fire. */
  method RunThenStop(g: RobotGui, portOpen: bool, k: nat) returns (sent: seq<nat>)
    requires g.Valid() && g.running && !g.stale && g.runIndex + k <= |g.runQueue|
    modifies g
    ensures g.Valid() && !g.running && !g.stale
    ensures g.items == old(g.items) && g.runQueue == old(g.runQueue) && g.totalCmds == old(g.totalCmds)
    ensures sent == old(g.runQueue)[old(g.runIndex)..old(g.runIndex) + k]
    ensures g.runIndex == old(g.runIndex) + k && g.sentCmds == old(g.sentCmds) + k
    ensures MarkedBy(old(g.marks), g.marks, sent)
  {
    ghost var q := g.runQueue;
    ghost var i0 := g.runIndex;
    ghost var m0 := g.marks;
    sent := [];
    var n := 0;
    while n < k
      invariant g.Valid() && g.running && !g.stale && g.items == old(g.items) && g.runQueue == q
      invariant g.totalCmds == old(g.totalCmds)
      invariant n <= k && g.runIndex == i0 + n
      invariant sent == q[i0..g.runIndex]
      invariant g.sentCmds == old(g.sentCmds) + n
      invariant MarkedBy(m0, g.marks, sent)
    {
      ghost var before, idx := g.marks, g.runIndex;
      var t := g.Tick(portOpen);
      assert t.row == q[idx];
      SliceGrow(q, i0, idx, sent, t.row);
      MarkOne(m0, before, sent, t.row);
      sent := sent + [t.row];
      n := n + 1;
    }
    g.Stop();
  }

  /** `run_selected_block` pressed twice on the same row: the rows are not
      touched by the first press, so the second builds the same queue and
      reports the same outcome. */
  method SelectTwice(g: RobotGui, current: Option<nat>) returns (first: Selection, second: Selection)
    requires g.Valid()
    requires current.Some? ==> current.value < |g.items|
    modifies g
    ensures g.Valid()
    ensures first == second
    ensures first.NotAHeader? <==> current.None? || HasData(old(g.items)[current.value])
    ensures current.Some? && !first.NotAHeader? ==> g.runQueue == Gather(old(g.items), current.value + 1)
  {
    first := g.SelectBlock(current);
    ghost var q1 := g.runQueue;
    second := g.SelectBlock(current);
    assert !first.NotAHeader? ==> g.runQueue == q1;
  }
}
