/**
 * The line-by-line logic of `load_log`: each line of a capture log is
 * stripped; blank lines are dropped; a line whose upper-cased form contains
 * the marker `SBUS:` becomes a command (tag before the marker, upper-cased
 * hex text after it); every other line becomes a block header.
 */
module LogParser {
  import opened Wrappers
  import opened Text
  import opened HexCodec
  import opened Seqs

  const Marker: string := "SBUS:"

  /** One row of the log list. A command's `hex` is what the row stores as
      its user data; a header stores none. */
  datatype Entry = Header(text: string) | Command(prefix: string, hex: string)

  /** The row's stored data is truthy: a command with non-empty hex text.
      A command with nothing after the marker stores `""`, which is falsy,
      so everywhere except the command count it behaves like a header. */
  predicate HasData(e: Entry) {
    e.Command? && e.hex != []
  }

  /** The text the row shows. */
  function DisplayText(e: Entry): string {
    match e
    case Header(t) => "--- " + t + " ---"
    case Command(p, h) => p + " | " + h
  }

  /** What one line contributes: nothing, one row, or the `IndexError` that
      `parts[1]` raises when the marker is present only in lower case. */
  datatype LineOutcome = Blank | Item(entry: Entry) | SplitFailure

  /** The marker has no lower-case letter, so upper-casing keeps it. */
  lemma MarkerNoLower()
    ensures NoLower(Marker)
  {
    forall i | 0 <= i < |Marker| ensures !('a' <= Marker[i] <= 'z') {
      assert Marker[i] in "SBU:";
    }
  }

  lemma ContainsUpper(s: string, p: string)
    requires NoLower(p) && Contains(s, p)
    ensures Contains(Upper(s), p)
  {
    var i :| 0 <= i <= |s| - |p| && OccursAt(s, p, i);
    assert Upper(s)[i..i + |p|] == p by {
      forall k | 0 <= k < |p| ensures Upper(s)[i..i + |p|][k] == p[k] {
        assert s[i + k] == s[i..i + |p|][k];
      }
    }
    assert OccursAt(Upper(s), p, i);
  }

  /** The body of the loop in `load_log` for one line. */
  function ParseLine(raw: string): LineOutcome {
    var line := Trim(raw);
    if line == [] then Blank
    else if !Contains(Upper(line), Marker) then Item(Header(line))
    else
      match SplitFirstTwo(line, Marker)
      case None => SplitFailure
      case Some((before, after)) => Item(Command(Trim(before), Upper(Trim(after))))
  }

  /** Which of the three outcomes a line has: blank exactly when it is all
      whitespace; a header exactly when the stripped line, upper-cased, lacks
      the marker; a command exactly when the stripped line itself has the
      marker; and the split failure otherwise. */
  lemma ParseLineKind(raw: string)
    ensures ParseLine(raw).Blank? <==> AllSpace(raw)
    ensures (ParseLine(raw).Item? && ParseLine(raw).entry.Header?) <==>
      !AllSpace(raw) && !Contains(Upper(Trim(raw)), Marker)
    ensures (ParseLine(raw).Item? && ParseLine(raw).entry.Command?) <==> Contains(Trim(raw), Marker)
    ensures ParseLine(raw).SplitFailure? <==>
      Contains(Upper(Trim(raw)), Marker) && !Contains(Trim(raw), Marker)
  {
    var line := Trim(raw);
    if line == [] {
      assert ParseLine(raw) == Blank;
      assert !Contains(line, Marker);
      assert Upper(line) == [];
      assert !Contains(Upper(line), Marker);
    } else if !Contains(Upper(line), Marker) {
      assert ParseLine(raw) == Item(Header(line));
      if Contains(line, Marker) {
        MarkerNoLower();
        ContainsUpper(line, Marker);
      }
    } else {
      SplitFirstTwoSpec(line, Marker);
      assert ParseLine(raw).SplitFailure? <==> !Contains(line, Marker);
    }
  }

  /** A header holds the stripped line. */
  lemma ParseLineHeader(raw: string)
    requires ParseLine(raw).Item? && ParseLine(raw).entry.Header?
    ensures ParseLine(raw).entry.text == Trim(raw) && ParseLine(raw).entry.text != []
  {
  }

  /** A command's label is the stripped text before the first marker, which
      contains no marker; its hex text is the stripped, upper-cased text
      between the first marker and the next one (or the end of the line). */
  lemma ParseLineCommand(raw: string)
    requires ParseLine(raw).Item? && ParseLine(raw).entry.Command?
    ensures Contains(Trim(raw), Marker)
    ensures var (before, after) := SplitFirstTwo(Trim(raw), Marker).value;
      ParseLine(raw).entry == Command(Trim(before), Upper(Trim(after)))
    ensures !Contains(ParseLine(raw).entry.prefix, Marker)
    ensures Trimmed(ParseLine(raw).entry.hex) && NoLower(ParseLine(raw).entry.hex)
  {
    var line := Trim(raw);
    SplitFirstTwoSpec(line, Marker);
    var (before, after) := SplitFirstTwo(line, Marker).value;
    var a, b := TrimSlice(before);
    ContainsSlice(before, a, b, Marker);
    UpperKeepsTrimmed(Trim(after));
  }

  lemma UpperKeepsTrimmed(t: string)
    requires Trimmed(t)
    ensures Trimmed(Upper(t))
  {
    var h := Upper(t);
    assert h != [] ==> h[0] == UpperChar(t[0]) && h[|h| - 1] == UpperChar(t[|t| - 1]);
  }

  /** What `load_log` leaves behind: the rows added, and the line whose
      split raised, if one did (the loop ends there). */
  datatype LoadResult = LoadResult(entries: seq<Entry>, failedAt: Option<nat>)

  /** The outcome of every line, in order. */
  function Outcomes(lines: seq<string>): (outs: seq<LineOutcome>)
    ensures |outs| == |lines|
    decreases |lines|
  {
    if lines == [] then [] else Outcomes(lines[..|lines| - 1]) + [ParseLine(lines[|lines| - 1])]
  }

  lemma {:induction false} OutcomeAt(lines: seq<string>, i: nat)
    requires i < |lines|
    ensures Outcomes(lines)[i] == ParseLine(lines[i])
    decreases |lines|
  {
    if i < |lines| - 1 {
      OutcomeAt(lines[..|lines| - 1], i);
    }
  }

  /** The loop of `load_log` over the first `n` line outcomes: rows are
      appended in order, and the first split failure ends the loop. */
  function Collect(outs: seq<LineOutcome>, n: nat): (r: LoadResult)
    requires n <= |outs|
    ensures r.failedAt.Some? ==> r.failedAt.value < n
    decreases n
  {
    if n == 0 then LoadResult([], None)
    else
      var p := Collect(outs, n - 1);
      if p.failedAt.Some? then p
      else
        match outs[n - 1]
        case Blank => p
        case Item(e) => LoadResult(p.entries + [e], None)
        case SplitFailure => LoadResult(p.entries, Some(n - 1))
  }

  /** The loop fails at the first failing outcome, and fails exactly when
      some outcome among the first `n` does. */
  lemma {:induction false} CollectFailure(outs: seq<LineOutcome>, n: nat)
    requires n <= |outs|
    ensures Collect(outs, n).failedAt.Some? ==>
      outs[Collect(outs, n).failedAt.value].SplitFailure? &&
      forall j :: 0 <= j < Collect(outs, n).failedAt.value ==> !outs[j].SplitFailure?
    ensures Collect(outs, n).failedAt.None? <==> forall j :: 0 <= j < n ==> !outs[j].SplitFailure?
    decreases n
  {
    if n > 0 {
      CollectFailure(outs, n - 1);
    }
  }

  /** One more line of the loop, while nothing has failed yet. */
  lemma CollectStep(outs: seq<LineOutcome>, n: nat)
    requires n < |outs| && Collect(outs, n).failedAt.None?
    ensures Collect(outs, n + 1) ==
      match outs[n]
      case Blank => Collect(outs, n)
      case Item(e) => LoadResult(Collect(outs, n).entries + [e], None)
      case SplitFailure => LoadResult(Collect(outs, n).entries, Some(n))
  {
  }

  /** Once a line has failed, further lines change nothing. */
  lemma {:induction false} CollectSettled(outs: seq<LineOutcome>, k: nat, n: nat)
    requires k <= n <= |outs| && Collect(outs, k).failedAt.Some?
    ensures Collect(outs, n) == Collect(outs, k)
    decreases n - k
  {
    if n > k {
      CollectSettled(outs, k, n - 1);
    }
  }

  /** `load_log` over a whole file. */
  function ParseLog(lines: seq<string>): LoadResult {
    Collect(Outcomes(lines), |lines|)
  }

  /** Where the loop stops: the failing line, or the end of the input. */
  function StopLine(lines: seq<string>): (k: nat)
    ensures k <= |lines|
  {
    match ParseLog(lines).failedAt
    case Some(k) => k
    case None => |lines|
  }

  /** The positions, in increasing order, of the outcomes among the first
      `n` that are not blank. */
  function NonBlank(outs: seq<LineOutcome>, n: nat): (r: seq<nat>)
    requires n <= |outs|
    ensures forall j :: 0 <= j < |r| ==> r[j] < n && !outs[r[j]].Blank?
    ensures forall j, j' :: 0 <= j < j' < |r| ==> r[j] < r[j']
    ensures forall i :: 0 <= i < n && !outs[i].Blank? ==> i in r
    decreases n
  {
    if n == 0 then [] else NonBlank(outs, n - 1) + (if outs[n - 1].Blank? then [] else [n - 1])
  }

  /** The positions, in increasing order, of the lines among the first `n`
      that are not all whitespace. */
  function NonBlankLines(lines: seq<string>, n: nat): (r: seq<nat>)
    requires n <= |lines|
    ensures forall j :: 0 <= j < |r| ==> r[j] < n && !AllSpace(lines[r[j]])
    ensures forall j, j' :: 0 <= j < j' < |r| ==> r[j] < r[j']
    ensures forall i :: 0 <= i < n && !AllSpace(lines[i]) ==> i in r
    decreases n
  {
    if n == 0 then [] else NonBlankLines(lines, n - 1) + (if AllSpace(lines[n - 1]) then [] else [n - 1])
  }

  lemma {:induction false} NonBlankMatches(outs: seq<LineOutcome>, lines: seq<string>, n: nat)
    requires n <= |outs| == |lines|
    requires forall i :: 0 <= i < n ==> (outs[i].Blank? <==> AllSpace(lines[i]))
    ensures NonBlank(outs, n) == NonBlankLines(lines, n)
    decreases n
  {
    if n > 0 {
      NonBlankMatches(outs, lines, n - 1);
    }
  }

  /** Every outcome that is not blank yields exactly one entry, in order. */
  lemma {:induction false} CollectOrder(outs: seq<LineOutcome>, n: nat)
    requires n <= |outs|
    requires Collect(outs, n).failedAt.None?
    ensures |Collect(outs, n).entries| == |NonBlank(outs, n)|
    ensures forall j :: 0 <= j < |NonBlank(outs, n)| ==>
      outs[NonBlank(outs, n)[j]] == Item(Collect(outs, n).entries[j])
    decreases n
  {
    if n > 0 {
      CollectOrder(outs, n - 1);
    }
  }

  /** Once a line fails, the entries are those of the lines before it. */
  lemma {:induction false} CollectStops(outs: seq<LineOutcome>, n: nat)
    requires n <= |outs|
    requires Collect(outs, n).failedAt.Some?
    ensures var k := Collect(outs, n).failedAt.value;
      Collect(outs, n).entries == Collect(outs, k).entries && Collect(outs, k).failedAt.None?
    decreases n
  {
    if Collect(outs, n - 1).failedAt.Some? {
      CollectStops(outs, n - 1);
    }
  }

  /** The whole load fails exactly when some line's split raises. */
  lemma ParseLogFails(lines: seq<string>)
    ensures ParseLog(lines).failedAt.None? <==>
      forall j :: 0 <= j < |lines| ==> !ParseLine(lines[j]).SplitFailure?
  {
    var outs := Outcomes(lines);
    CollectFailure(outs, |lines|);
    forall j | 0 <= j < |lines| ensures outs[j] == ParseLine(lines[j]) {
      OutcomeAt(lines, j);
    }
  }

  /** The outcomes among the first `n` that are blank are those of the lines
      that are all whitespace. */
  lemma BlankOutcomes(lines: seq<string>, n: nat)
    requires n <= |lines|
    ensures NonBlank(Outcomes(lines), n) == NonBlankLines(lines, n)
  {
    var outs := Outcomes(lines);
    forall i | 0 <= i < n ensures outs[i].Blank? <==> AllSpace(lines[i]) {
      OutcomeAt(lines, i);
      ParseLineKind(lines[i]);
    }
    NonBlankMatches(outs, lines, n);
  }

  /** The whole load: blank lines are dropped and every other line yields
      exactly one entry, in the order of the lines, up to the first line
      whose split fails. */
  lemma ParseLogOrder(lines: seq<string>)
    ensures var src := NonBlankLines(lines, StopLine(lines));
      |ParseLog(lines).entries| == |src| &&
      forall j :: 0 <= j < |src| ==> ParseLine(lines[src[j]]) == Item(ParseLog(lines).entries[j])
  {
    var outs := Outcomes(lines);
    var k := StopLine(lines);
    if ParseLog(lines).failedAt.Some? {
      CollectStops(outs, |lines|);
    }
    assert Collect(outs, k).entries == ParseLog(lines).entries && Collect(outs, k).failedAt.None?;
    CollectOrder(outs, k);
    BlankOutcomes(lines, k);
    var src := NonBlankLines(lines, k);
    forall j | 0 <= j < |src| ensures ParseLine(lines[src[j]]) == Item(ParseLog(lines).entries[j]) {
      OutcomeAt(lines, src[j]);
    }
  }

  // ------------------------------------------------------------- counters

  /** The number of command rows (with or without hex text). */
  function CountCommands(es: seq<Entry>): nat
    decreases |es|
  {
    if es == [] then 0
    else CountCommands(es[..|es| - 1]) + (if es[|es| - 1].Command? then 1 else 0)
  }

  /** The hex texts of the command rows, in order: `log_commands`. */
  function CommandHexes(es: seq<Entry>): (r: seq<string>)
    ensures |r| == CountCommands(es)
    decreases |es|
  {
    if es == [] then []
    else CommandHexes(es[..|es| - 1]) + (if es[|es| - 1].Command? then [es[|es| - 1].hex] else [])
  }

  /** Appending a row adds one to the count and its hex text to the list
      exactly when the row is a command. */
  lemma AppendEntry(es: seq<Entry>, e: Entry)
    ensures CountCommands(es + [e]) == CountCommands(es) + (if e.Command? then 1 else 0)
    ensures CommandHexes(es + [e]) == CommandHexes(es) + (if e.Command? then [e.hex] else [])
  {
    assert (es + [e])[..|es|] == es;
  }

  /** The stripped, upper-cased line contains the marker. */
  predicate HasMarker(raw: string) {
    Contains(Upper(Trim(raw)), Marker)
  }

  predicate IsCommandOutcome(o: LineOutcome) {
    o.Item? && o.entry.Command?
  }

  /** For each line, whether its stripped, upper-cased form has the marker. */
  function MarkerFlags(lines: seq<string>): (r: seq<bool>)
    ensures |r| == |lines|
  {
    seq(|lines|, i requires 0 <= i < |lines| => HasMarker(lines[i]))
  }

  /** The number of lines among the first `n` whose stripped, upper-cased
      form contains the marker. */
  function MarkerLines(lines: seq<string>, n: nat): nat
    requires n <= |lines|
  {
    Count(MarkerFlags(lines)[..n])
  }

  /** For each line outcome, whether it is a command row. */
  function CommandFlags(outs: seq<LineOutcome>): (r: seq<bool>)
    ensures |r| == |outs|
  {
    seq(|outs|, i requires 0 <= i < |outs| => IsCommandOutcome(outs[i]))
  }

  /** The number of command outcomes among the first `n`. */
  function CommandOutcomes(outs: seq<LineOutcome>, n: nat): nat
    requires n <= |outs|
  {
    Count(CommandFlags(outs)[..n])
  }

  lemma {:induction false} CollectCounts(outs: seq<LineOutcome>, n: nat)
    requires n <= |outs|
    requires Collect(outs, n).failedAt.None?
    ensures CountCommands(Collect(outs, n).entries) == CommandOutcomes(outs, n)
    decreases n
  {
    if n > 0 {
      var p := Collect(outs, n - 1);
      assert p.failedAt.None?;
      CollectCounts(outs, n - 1);
      CountTake(CommandFlags(outs), n - 1);
      assert CommandFlags(outs)[n - 1] == IsCommandOutcome(outs[n - 1]);
      match outs[n - 1]
      case Blank =>
        assert Collect(outs, n) == p;
      case Item(e) =>
        AppendEntry(p.entries, e);
        assert Collect(outs, n).entries == p.entries + [e];
      case SplitFailure =>
        assert false;
    }
  }

  lemma CommandIffMarker(raw: string, out: LineOutcome)
    requires out == ParseLine(raw) && !out.SplitFailure?
    ensures (out.Item? && out.entry.Command?) <==> Contains(Upper(Trim(raw)), Marker)
  {
    ParseLineKind(raw);
  }

  lemma OutcomesMatchMarkers(lines: seq<string>, outs: seq<LineOutcome>, n: nat)
    requires outs == Outcomes(lines) && n <= |lines|
    requires forall j :: 0 <= j < n ==> !outs[j].SplitFailure?
    ensures forall i :: 0 <= i < n ==> (IsCommandOutcome(outs[i]) <==> HasMarker(lines[i]))
  {
    forall i | 0 <= i < n ensures IsCommandOutcome(outs[i]) <==> HasMarker(lines[i])
    {
      OutcomeAt(lines, i);
      CommandIffMarker(lines[i], outs[i]);
    }
  }

  lemma CommandOutcomesMatch(outs: seq<LineOutcome>, lines: seq<string>, n: nat)
    requires n <= |outs| == |lines|
    requires forall i :: 0 <= i < n ==> (IsCommandOutcome(outs[i]) <==> HasMarker(lines[i]))
    ensures CommandOutcomes(outs, n) == MarkerLines(lines, n)
  {
    assert CommandFlags(outs)[..n] == MarkerFlags(lines)[..n];
  }

  /** The command count (`total_cmds`) is the number of lines, before the
      line that raised if one did, that carry the marker. */
  lemma CommandsCountMarkerLines(lines: seq<string>)
    ensures CountCommands(ParseLog(lines).entries) == MarkerLines(lines, StopLine(lines))
  {
    var outs := Outcomes(lines);
    var k := StopLine(lines);
    if ParseLog(lines).failedAt.Some? {
      CollectStops(outs, |lines|);
    }
    CollectFailure(outs, k);
    CollectCounts(outs, k);
    OutcomesMatchMarkers(lines, outs, k);
    CommandOutcomesMatch(outs, lines, k);
  }

  // ------------------------------------------------------------ round trip

  lemma NoMarkerWithoutS(s: string)
    requires forall i :: 0 <= i < |s| ==> s[i] != 'S'
    ensures !Contains(s, Marker)
  {
    forall i | 0 <= i <= |s| - |Marker| ensures !OccursAt(s, Marker, i) {
      assert s[i..i + |Marker|][0] == s[i];
    }
  }

  /** The first marker of `<tag> SBUS: <frame>` is the one written after the tag. */
  lemma FirstMarkerAfterTag(tag: string, rest: string)
    requires !Contains(tag, Marker)
    ensures IndexOf(tag + " " + Marker + rest, Marker) == Some(|tag| + 1)
  {
    var line := tag + " " + Marker + rest;
    var k := |tag| + 1;
    IndexOfSpec(line, Marker);
    assert line[k..k + |Marker|] == Marker;
    assert OccursAt(line, Marker, k);
    assert Contains(line, Marker);
    forall j | 0 <= j < k ensures !OccursAt(line, Marker, j) {
      if j + |Marker| <= |tag| {
        assert tag[j..j + |Marker|] == line[j..j + |Marker|];
        assert !OccursAt(tag, Marker, j);
      } else if j + |Marker| <= |line| {
        assert line[j..j + |Marker|][|tag| - j] == line[|tag|] == ' ';
      }
    }
  }

  /** How `split` cuts `<tag> SBUS: <text>` when neither part has a marker. */
  lemma SplitCommandLine(tag: string, h: string)
    requires !Contains(tag, Marker) && forall i :: 0 <= i < |h| ==> h[i] != 'S'
    ensures SplitFirstTwo(tag + " " + Marker + " " + h, Marker) == Some((tag + " ", " " + h))
  {
    var line := tag + " " + Marker + " " + h;
    var k := |tag| + 1;
    assert line == tag + " " + Marker + (" " + h);
    FirstMarkerAfterTag(tag, " " + h);
    var rest := line[k + |Marker|..];
    assert rest == " " + h;
    NoMarkerWithoutS(rest);
    IndexOfSpec(rest, Marker);
    assert line[..k] == tag + " ";
  }

  /** A stripped line that `split` cuts into two parts parses to a command
      made of those parts, stripped (and the second upper-cased). */
  lemma ParseSplitLine(raw: string, a: string, b: string)
    requires raw != [] && Trimmed(raw) && SplitFirstTwo(raw, Marker) == Some((a, b))
    ensures ParseLine(raw) == Item(Command(Trim(a), Upper(Trim(b))))
  {
    SplitFirstTwoSpec(raw, Marker);
    MarkerNoLower();
    ContainsUpper(raw, Marker);
  }

  /** A line `<tag> SBUS: <text>`, with a trimmed tag free of markers and a
      trimmed upper-case text, parses to a command carrying exactly that tag
      and text. */
  lemma CommandLineParses(tag: string, h: string)
    requires tag != [] && Trimmed(tag) && !Contains(tag, Marker)
    requires h != [] && Trimmed(h) && NoLower(h) && forall i :: 0 <= i < |h| ==> h[i] != 'S'
    ensures ParseLine(tag + " " + Marker + " " + h) == Item(Command(tag, h))
  {
    var line := tag + " " + Marker + " " + h;
    assert Trimmed(line) by {
      assert line[0] == tag[0];
      assert line[|line| - 1] == h[|h| - 1];
    }
    SplitCommandLine(tag, h);
    ParseSplitLine(line, tag + " ", " " + h);
    TrimWordSpace(tag, ' ');
    TrimSpaceWord(' ', h);
    UpperOfNoLower(h);
  }

  /** A log line written as `<tag> SBUS: <frame>` parses back to a command
      carrying that tag and frame, whose decoding is the frame's bytes. */
  lemma CommandLineRoundTrip(tag: string, bs: seq<byte>)
    requires tag != [] && Trimmed(tag) && !Contains(tag, Marker)
    requires bs != []
    ensures ParseLine(tag + " " + Marker + " " + EncodeHex(bs)) == Item(Command(tag, EncodeHex(bs)))
    ensures Decode(ParseLine(tag + " " + Marker + " " + EncodeHex(bs)).entry.hex) == Ok(bs)
  {
    var h := EncodeHex(bs);
    EncodeHexShape(bs);
    assert h[0] == h[0];
    CommandLineParses(tag, h);
    DecodeEncodeHex(bs);
  }

  /** A stripped line whose upper-cased form lacks the marker parses to a
      header holding the line. */
  lemma HeaderLineParses(line: string)
    requires line != [] && Trimmed(line) && !Contains(Upper(line), Marker)
    ensures ParseLine(line) == Item(Header(line))
  {
  }

  /** A header followed by `<tag> SBUS: <frame>`: the two rows, in order. */
  predicate IsBlockOf(h: string, tag: string, bs: seq<byte>) {
    h != [] && Trimmed(h) && !Contains(Upper(h), Marker) &&
    tag != [] && Trimmed(tag) && !Contains(tag, Marker) && bs != []
  }

  /** The loop over outcomes that are all rows collects exactly those rows. */
  lemma {:induction false} CollectItems(outs: seq<LineOutcome>, es: seq<Entry>, n: nat)
    requires n <= |outs| == |es| && forall i :: 0 <= i < |es| ==> outs[i] == Item(es[i])
    ensures Collect(outs, n) == LoadResult(es[..n], None)
    decreases n
  {
    if n > 0 {
      CollectItems(outs, es, n - 1);
      TakeSnoc(es, n - 1);
    }
  }

  /** A log whose every line parses to a row loads as those rows, in order. */
  lemma LoadAllRows(lines: seq<string>, es: seq<Entry>)
    requires |lines| == |es| && forall i :: 0 <= i < |lines| ==> ParseLine(lines[i]) == Item(es[i])
    ensures ParseLog(lines) == LoadResult(es, None)
  {
    forall i | 0 <= i < |lines| ensures Outcomes(lines)[i] == Item(es[i]) {
      OutcomeAt(lines, i);
    }
    CollectItems(Outcomes(lines), es, |es|);
    assert es[..|es|] == es;
  }

  /** A capture log of two blocks, each a header line and one command line,
      loads as its four rows in the order of the lines. */
  lemma TwoBlockLog(h1: string, t1: string, f1: seq<byte>, h2: string, t2: string, f2: seq<byte>)
    requires IsBlockOf(h1, t1, f1) && IsBlockOf(h2, t2, f2)
    ensures var lines := [h1, t1 + " " + Marker + " " + EncodeHex(f1), h2, t2 + " " + Marker + " " + EncodeHex(f2)];
      ParseLog(lines) ==
        LoadResult([Header(h1), Command(t1, EncodeHex(f1)), Header(h2), Command(t2, EncodeHex(f2))], None)
  {
    var lines := [h1, t1 + " " + Marker + " " + EncodeHex(f1), h2, t2 + " " + Marker + " " + EncodeHex(f2)];
    var es := [Header(h1), Command(t1, EncodeHex(f1)), Header(h2), Command(t2, EncodeHex(f2))];
    forall i | 0 <= i < |lines| ensures ParseLine(lines[i]) == Item(es[i]) {
      if i == 0 {
        HeaderLineParses(h1);
      } else if i == 1 {
        CommandLineRoundTrip(t1, f1);
      } else if i == 2 {
        HeaderLineParses(h2);
      } else {
        CommandLineRoundTrip(t2, f2);
      }
    }
    LoadAllRows(lines, es);
  }
}
