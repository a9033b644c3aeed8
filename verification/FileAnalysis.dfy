/** From the lines of a file to the summary of a header, through `Parser.java` and
    `prepareAnalyzedPackets` of `Writer.java`. */
module FileAnalysis {
  import opened Bytes
  import opened Wrappers
  import opened TrieModel
  import opened ParserModel
  import opened PacketTree
  import opened LineParser
  import opened Aggregation
  import opened Analysis
  import AggregationModel
  import Messages

  /** The headers have the length that the parser cuts off. */
  lemma {:induction false} HeadersNoted(log: Log, n: nat, lines: seq<Line>)
    requires Complete(log) && forall h :: h in log.exchanges ==> |h| == n
    ensures forall h :: h in NoteAll(log, n, lines).exchanges ==> |h| == n
    decreases |lines|
  {
    hide Complete, Heard;
    if lines != [] {
      HeaderNoted(log, n, lines[0]);
      HeadersNoted(Note(log, n, lines[0]), n, lines[1..]);
    }
  }

  lemma HeaderNoted(log: Log, n: nat, line: Line)
    requires Complete(log) && forall h :: h in log.exchanges ==> |h| == n
    ensures forall h :: h in Note(log, n, line).exchanges ==> |h| == n
  {
  }

  /** What a reader of the log notes about the lines before the first one that throws. */
  ghost function Noted(n: nat, lines: seq<Line>): (exchanges: map<Path, seq<Exchange>>) {
    NoteAll(Log(map[], None), n, lines[..LinesRead(EMPTY, n, lines)]).exchanges
  }

  ghost function TreesOf(n: nat, lines: seq<Line>): (trees: map<Path, View>) {
    Replay(EMPTY, n, lines).state.trees
  }

  /** For any file, the packets are those of the lines before the first one that throws. A
      header can be summarised if and only if all its exchanges there are answered, and then
      the summary is the multiset of these exchanges if and only if no stream ended strictly
      inside an edge. */
  lemma FileSummary(n: nat, lines: seq<Line>)
    ensures var trees, exchanges := TreesOf(n, lines), Noted(n, lines);
      && trees.Keys == exchanges.Keys
      && forall h {:trigger exchanges[h]} :: h in exchanges ==>
        && |h| == n
        && (AllReadable(trees[h].records, n) <==> Answered(exchanges[h]))
        && (Answered(exchanges[h]) ==>
          (CountsExchanges(trees[h].records, n, exchanges[h]) <==> Legible(h, exchanges[h])))
  {
    hide Replay, NoteAll, LinesRead, Legible, Faithful, AllReadable, Answered, CountsExchanges;
    var read := lines[..LinesRead(EMPTY, n, lines)];
    ReplayFaithful(EMPTY, Log(map[], None), n, lines);
    HeadersNoted(Log(map[], None), n, read);
    var st := Replay(EMPTY, n, read).state;
    var trees, exchanges := TreesOf(n, lines), Noted(n, lines);
    forall h {:trigger exchanges[h]} | h in exchanges
      ensures |h| == n
      ensures AllReadable(trees[h].records, n) <==> Answered(exchanges[h])
      ensures Answered(exchanges[h]) ==>
        (CountsExchanges(trees[h].records, n, exchanges[h]) <==> Legible(h, exchanges[h]))
    {
      ReadableWhenAnswered(st.trees[h], h, exchanges[h]);
      if Answered(exchanges[h]) {
        SummaryOfLog(st.trees[h], h, exchanges[h]);
      }
    }
  }

  /** How often a summary counts a pair of streams. */
  function PairOf(summary: seq<AggregationModel.Packet>, tx: Path, rx: Path): (c: int) {
    AggregationModel.PairCount(summary, Messages.Render(tx, " "), Messages.Render(rx, " "))
  }

  /** Parses a file and summarises the packets of one header, with its nodes cut into single
      bytes before or not. There is a summary if and only if the log has exchanges under the
      header, all of them answered, before the first line that throws; and it counts them
      right if and only if no stream ended strictly inside an edge. */
  method SummariseFile(headerLength: nat, lines: seq<Line>, h: Path, simpleNodes: bool)
    returns (summary: OutputTree?)
    ensures var exchanges := Noted(headerLength, lines);
      && (summary != null <==> h in exchanges && Answered(exchanges[h]))
      && (summary != null ==>
        && summary.Valid() && summary.header == Messages.Render(h, " ")
        && (CountsRight(summary.view, exchanges[h]) <==> Legible(h, exchanges[h])))
  {
    hide Replay, NoteAll, LinesRead, Legible, AllReadable, Answered, Tree.Valid, Tree.View, Tree.Repr, OutputTree.Valid,
      Messages.Render, CountsRight, Parser.Valid;
    var parser := new Parser(headerLength);
    var _ := parser.ParseLines(lines);
    FileSummary(headerLength, lines);
    SameTrees(parser, headerLength, lines);
    ghost var exchanges := Noted(headerLength, lines);
    summary := null;
    if h in parser.packets {
      TreeHeld(parser, h);
      var tree := parser.packets[h];
      ghost var rs := tree.View().records;
      assert h in exchanges && (AllReadable(rs, headerLength) <==> Answered(exchanges[h]));
      summary := SummariseTree(tree, headerLength, simpleNodes);
      if summary != null {
        CountsFromView(rs, headerLength, exchanges[h], summary.view);
      }
    }
  }

  lemma SameTrees(parser: Parser, n: nat, lines: seq<Line>)
    requires parser.Valid() && parser.Abs() == Replay(EMPTY, n, lines).state
    ensures parser.trees == TreesOf(n, lines) && parser.packets.Keys == TreesOf(n, lines).Keys
  {
    hide Replay;
  }

  lemma TreeHeld(parser: Parser, h: Path)
    requires parser.Valid() && h in parser.packets
    ensures var tree := parser.packets[h];
      && h in parser.trees && tree.Valid() && tree.header == h
      && tree.View() == parser.trees[h] && tree.Repr() <= parser.Repr
  {
    assert parser.Holds(h);
  }

  /** The summary counts every pair as often as the exchanges have it. */
  ghost predicate CountsRight(summary: seq<AggregationModel.Packet>, es: seq<Exchange>)
    requires Answered(es)
  {
    forall tx: Path, rx: Path :: PairOf(summary, tx, rx) == multiset(Answers(es))[(tx, rx)]
  }

  lemma CountsFromView(rs: seq<ParserModel.Record>, n: nat, es: seq<Exchange>, summary: seq<AggregationModel.Packet>)
    requires AllReadable(rs, n) && Answered(es) && summary == AggregationModel.Aggregate(AllShown(rs, n, " "))
    ensures CountsRight(summary, es) <==> CountsExchanges(rs, n, es)
  {
    hide AllReadable, Answered, Answers, Messages.Render, AggregationModel.Aggregate, AggregationModel.PairCount;
    forall tx: Path, rx: Path
      ensures PairOf(summary, tx, rx) == Counted(rs, n, tx, rx)
    {
    }
  }

  /** The summary of one tree, unless a packet cannot be read. */
  method SummariseTree(tree: Tree, headerLength: nat, simpleNodes: bool) returns (summary: OutputTree?)
    requires tree.Valid()
    modifies tree.Repr()
    ensures summary != null <==> AllReadable(old(tree.View().records), headerLength)
    ensures summary != null ==>
      && summary.Valid() && summary.header == Messages.Render(tree.header, " ")
      && summary.view == AggregationModel.Aggregate(AllShown(old(tree.View().records), headerLength, " "))
  {
    hide Tree.Valid, Tree.View, Tree.Repr, OutputTree.Valid, AllReadable, Messages.Render, AggregationModel.Aggregate;
    if simpleNodes {
      tree.SimplifyNodes();
    }
    var outputTree, ok := PrepareAnalyzedPackets(tree, headerLength, " ");
    summary := if ok then outputTree else null;
  }

  // ---------------------------------------------------------------- a log with an unanswered command

  /** Two commands in a row. */
  function UnansweredLog(): (lines: seq<Line>) {
    [Transmitted([9, 1]), Transmitted([9, 2])]
  }

  lemma UnansweredLogRuns()
    ensures Replay(EMPTY, 1, UnansweredLog()).ok
  {
    hide NewView, MergeView, Replay;
    var header: Path, data0: Path, data1: Path := [9], [9, 1], [9, 2];
    var lines := UnansweredLog();
    assert data0[..1] == header && data1[..1] == header && data0[1..] != [] && data1[1..] != [];
    StepGood(EMPTY, 1, lines[0]);
    var st1 := Step(EMPTY, 1, lines[0]).state;
    assert Step(EMPTY, 1, lines[0]).ok && header in st1.trees;
    assert Step(st1, 1, lines[1]).ok;
    TwoOk(EMPTY, 1, lines);
  }

  lemma TwoOk(st: State, n: nat, lines: seq<Line>)
    requires Good(st) && |lines| == 2 && Step(st, n, lines[0]).ok
    requires var st1 := Step(st, n, lines[0]).state; Good(st1) && Step(st1, n, lines[1]).ok
    ensures Replay(st, n, lines).ok
  {
    hide Step, Good;
    var st1 := Step(st, n, lines[0]).state;
    StepGood(st1, n, lines[1]);
    var a := lines[1..];
    assert a[0] == lines[1] && a[1..] == [];
    assert Replay(st1, n, a).ok;
  }

  lemma UnansweredLogNoted(lines: seq<Line>, h: Path)
    requires lines == UnansweredLog() && h == [9]
    ensures var noted := NoteAll(Log(map[], None), 1, lines);
      h in noted.exchanges && !Answered(noted.exchanges[h])
  {
    hide NoteAll;
    var data0: Path, data1: Path := [9, 1], [9, 2];
    assert data0[..1] == h && data1[..1] == h;
    var log := Log(map[], None);
    var log1 := Note(log, 1, lines[0]);
    var log2 := Note(log1, 1, lines[1]);
    assert h in log2.exchanges && log2.exchanges[h][0].rx == [];
    TwoNotes(log, 1, lines);
  }

  lemma TwoNotes(log: Log, n: nat, lines: seq<Line>)
    requires Complete(log) && |lines| == 2
    ensures NoteAll(log, n, lines) == Note(Note(log, n, lines[0]), n, lines[1])
  {
    hide Note, Complete;
    var a := lines[1..];
    assert a[0] == lines[1] && a[1..] == [];
    var log1 := Note(log, n, lines[0]);
    assert NoteAll(log1, n, a) == Note(log1, n, lines[1]);
  }

  /** Two commands in a row leave a packet without an answer, so that there is no summary of
      their header. */
  lemma UnansweredLogFails(lines: seq<Line>, h: Path)
    requires lines == UnansweredLog() && h == [9]
    ensures h in TreesOf(1, lines) && !AllReadable(TreesOf(1, lines)[h].records, 1)
  {
    hide Replay, NoteAll, Step, AllReadable, Answered, CountsExchanges, Legible, UnansweredLog;
    UnansweredLogRuns();
    UnansweredLogNoted(lines, h);
    RunFaithful(EMPTY, Log(map[], None), 1, lines);
    ReadableWhenAnswered(TreesOf(1, lines)[h], h, NoteAll(Log(map[], None), 1, lines).exchanges[h]);
  }

  // ---------------------------------------------------------------- a log with a response time

  /** A command with the header 9, its answer, and how long it took. */
  function TimedLog(): (lines: seq<Line>) {
    [Transmitted([9, 1]), Received([5]), ResponseTime(Some(7))]
  }

  lemma TimedLogRuns()
    ensures Replay(EMPTY, 1, TimedLog()).ok
  {
    hide NewView, MergeView, ReceiveView, TimeView, Replay;
    var header: Path, data: Path := [9], [9, 1];
    var lines := TimedLog();
    assert data[..1] == header && data[1..] != [];
    var st1 := Step(EMPTY, 1, lines[0]).state;
    StepGood(EMPTY, 1, lines[0]);
    assert Step(EMPTY, 1, lines[0]).ok && st1.last == Some(header) && header in st1.trees;
    var st2 := Step(st1, 1, lines[1]).state;
    StepGood(st1, 1, lines[1]);
    assert Step(st1, 1, lines[1]).ok && st2.last == Some(header) && header in st2.trees;
    assert Step(st2, 1, lines[2]).ok;
    FirstOk(EMPTY, 1, lines);
    TwoOk(st1, 1, lines[1..]);
  }

  lemma FirstOk(st: State, n: nat, lines: seq<Line>)
    requires Good(st) && lines != [] && Step(st, n, lines[0]).ok
    ensures Good(Step(st, n, lines[0]).state)
    ensures Replay(Step(st, n, lines[0]).state, n, lines[1..]).ok ==> Replay(st, n, lines).ok
  {
    hide Step, Good;
    StepGood(st, n, lines[0]);
  }

  lemma TimedLogNoted(lines: seq<Line>, h: Path, es: seq<Exchange>)
    requires lines == TimedLog() && h == [9] && es == [Exchange([1], [[5]], Some(Timing(7, 1)))]
    ensures NoteAll(Log(map[], None), 1, lines) == Log(map[h := es], Some(h), 1)
  {
    hide NoteAll, Heard, Timed;
    var data: Path, x: Path, d: Path := [9, 1], [1], [5];
    assert data[..1] == h && data[1..] == x;
    var log := Log(map[], None);
    var log1 := Note(log, 1, lines[0]);
    assert log1.exchanges == map[h := [] + [Exchange(x, [])]];
    var log2 := Note(log1, 1, lines[1]);
    HeardLast([], x, d);
    assert log2.exchanges == map[h := [] + [Exchange(x, [d])]];
    var log3 := Note(log2, 1, lines[2]);
    TimedLast([], x, d, Timing(7, 1));
    assert [] + [Exchange(x, [d], Some(Timing(7, 1)))] == es;
    assert log3.exchanges == map[h := es];
    TwoNotes(log1, 1, lines[1..]);
    assert NoteAll(log, 1, lines) == NoteAll(log1, 1, lines[1..]) by { FirstNote(log, 1, lines); }
  }

  lemma FirstNote(log: Log, n: nat, lines: seq<Line>)
    requires Complete(log) && lines != []
    ensures NoteAll(log, n, lines) == NoteAll(Note(log, n, lines[0]), n, lines[1..])
  {
    hide Note, Complete;
  }

  lemma TimedLast(es: seq<Exchange>, tx: Path, d: Path, timing: Timing)
    ensures Timed(es + [Exchange(tx, [d])], timing) == es + [Exchange(tx, [d], Some(timing))]
  {
    assert (es + [Exchange(tx, [d])])[..|es|] == es;
  }

  /** The packet of this log holds both streams, the response time and the number one. */
  lemma TimedLogRecorded(lines: seq<Line>, h: Path)
    requires lines == TimedLog() && h == [9]
    ensures Replay(EMPTY, 1, lines).ok && h in TreesOf(1, lines)
    ensures TreesOf(1, lines)[h].records == [ParserModel.Record([9, 1], Some([9, 5]), 7, 1)]
  {
    hide Replay, NoteAll, Faithful, TimedLog;
    var es := [Exchange([1], [[5]], Some(Timing(7, 1)))];
    TimedLogRuns();
    TimedLogNoted(lines, h, es);
    RunFaithful(EMPTY, Log(map[], None), 1, lines);
    OneRecord(TreesOf(1, lines)[h], h, es[0]);
    assert [es[0]] == es;
    assert h + [1] == [9, 1] && h + [5] == [9, 5];
  }

  /** The record of a single exchange. */
  lemma OneRecord(v: View, h: Path, e: Exchange)
    requires Faithful(v, h, [e]) && e.tx != [] && |e.rx| == 1 && e.rx[0] != [] && e.timing.Some?
    ensures v.records ==
      [ParserModel.Record(h + e.tx, Some(h + e.rx[0]), e.timing.value.time, e.timing.value.number)]
  {
    hide RunPaths, LocusOf, Run;
    var es := [e];
    assert Recorded(h, v.records[0], es, 0);
    TxsSnoc([], e);
    assert [] + es == es && es[..1] == es && [] + [e.tx] == [e.tx] && [] + e.rx == [e.rx[0]];
    FirstLocus(h, e.tx);
    FirstLocus(h, e.rx[0]);
  }

  // ---------------------------------------------------------------- a log that is not legible

  /** Two commands with the header 9, each answered with 5. The second one is a prefix of
      the first. */
  function PrefixLog(): (lines: seq<Line>) {
    [Transmitted([9, 1, 2]), Received([5]), Transmitted([9, 1]), Received([5])]
  }

  lemma PrefixLogRuns()
    ensures Replay(EMPTY, 1, PrefixLog()).ok
  {
    hide NewView, MergeView, ReceiveView, Replay;
    var header: Path := [9];
    var lines := PrefixLog();
    var data0: Path, data1: Path := [9, 1, 2], [9, 1];
    assert data0[..1] == header && data1[..1] == header && data0[1..] != [] && data1[1..] != [];
    var st1 := Step(EMPTY, 1, lines[0]).state;
    StepGood(EMPTY, 1, lines[0]);
    assert Step(EMPTY, 1, lines[0]).ok && st1.last == Some(header) && header in st1.trees;
    var st2 := Step(st1, 1, lines[1]).state;
    StepGood(st1, 1, lines[1]);
    assert Step(st1, 1, lines[1]).ok && st2.last == Some(header) && header in st2.trees;
    var st3 := Step(st2, 1, lines[2]).state;
    StepGood(st2, 1, lines[2]);
    assert Step(st2, 1, lines[2]).ok && st3.last == Some(header) && header in st3.trees;
    assert Step(st3, 1, lines[3]).ok;
    FourOk(EMPTY, 1, lines);
  }

  lemma FourOk(st: State, n: nat, lines: seq<Line>)
    requires Good(st) && |lines| == 4 && Step(st, n, lines[0]).ok
    requires var st1 := Step(st, n, lines[0]).state; Good(st1) && Step(st1, n, lines[1]).ok
    requires var st1 := Step(st, n, lines[0]).state;
      var st2 := Step(st1, n, lines[1]).state; Good(st2) && Step(st2, n, lines[2]).ok
    requires var st1 := Step(st, n, lines[0]).state;
      var st2 := Step(st1, n, lines[1]).state;
      var st3 := Step(st2, n, lines[2]).state; Good(st3) && Step(st3, n, lines[3]).ok
    ensures Replay(st, n, lines).ok
  {
    hide Step, Good;
    var st1 := Step(st, n, lines[0]).state;
    var st2 := Step(st1, n, lines[1]).state;
    var st3 := Step(st2, n, lines[2]).state;
    StepGood(st3, n, lines[3]);
    var a, b, c := lines[1..], lines[1..][1..], lines[1..][1..][1..];
    assert a[0] == lines[1] && b[0] == lines[2] && c[0] == lines[3] && c[1..] == [];
    assert Replay(st3, n, c).ok;
    assert Replay(st2, n, b).ok;
    assert Replay(st1, n, a).ok;
  }

  /** The exchanges of the log, as a reader would note them. */
  function PrefixExchanges(): (es: seq<Exchange>) {
    [Exchange([1, 2], [[5]]), Exchange([1], [[5]])]
  }

  lemma PrefixLogNoted()
    ensures NoteAll(Log(map[], None), 1, PrefixLog()) == Log(map[[9] := PrefixExchanges()], Some([9]))
  {
    hide NoteAll, Heard;
    var h: Path, x: Path, y: Path, d: Path := [9], [1, 2], [1], [5];
    var lines := PrefixLog();
    var data0: Path, data1: Path := [9, 1, 2], [9, 1];
    assert data0[..1] == h && data0[1..] == x && data1[..1] == h && data1[1..] == y;
    var log := Log(map[], None);
    var log1 := Note(log, 1, lines[0]);
    assert [] + [Exchange(x, [])] == [Exchange(x, [])];
    assert log1.exchanges == map[h := [] + [Exchange(x, [])]];
    var log2 := Note(log1, 1, lines[1]);
    HeardLast([], x, d);
    assert log2.exchanges == map[h := [] + [Exchange(x, [d])]];
    var log3 := Note(log2, 1, lines[2]);
    var es := [] + [Exchange(x, [d])];
    assert log3.exchanges == map[h := es + [Exchange(y, [])]];
    var log4 := Note(log3, 1, lines[3]);
    HeardLast(es, y, d);
    assert log4.exchanges == map[h := es + [Exchange(y, [d])]];
    assert es + [Exchange(y, [d])] == PrefixExchanges();
    FourNotes(log, 1, lines);
  }

  lemma HeardLast(es: seq<Exchange>, tx: Path, d: Path)
    ensures Heard(es + [Exchange(tx, [])], d) == es + [Exchange(tx, [d])]
  {
    assert (es + [Exchange(tx, [])])[..|es|] == es;
    assert [] + [d] == [d];
  }

  lemma FourNotes(log: Log, n: nat, lines: seq<Line>)
    requires Complete(log) && |lines| == 4
    ensures NoteAll(log, n, lines) == Note(Note(Note(Note(log, n, lines[0]), n, lines[1]), n, lines[2]), n, lines[3])
  {
    hide Note, Complete;
    var a, b, c := lines[1..], lines[1..][1..], lines[1..][1..][1..];
    assert a[0] == lines[1] && b[0] == lines[2] && c[0] == lines[3] && c[1..] == [];
    var log1 := Note(log, n, lines[0]);
    var log2 := Note(log1, n, lines[1]);
    var log3 := Note(log2, n, lines[2]);
    assert NoteAll(log3, n, c) == Note(log3, n, lines[3]);
    assert NoteAll(log2, n, b) == NoteAll(log3, n, c);
    assert NoteAll(log1, n, a) == NoteAll(log2, n, b);
  }

  lemma PrefixEndsInside()
    ensures !EndsWell(RunPaths([9], Txs(PrefixExchanges()[..1])), [9] + PrefixExchanges()[1].tx)
  {
    hide RunPaths;
    var h: Path, x: Path, y: Path := [9], [1, 2], [1];
    var es := PrefixExchanges();
    TxsSnoc([], es[0]);
    assert es[..1] == [] + [es[0]] && [] + [x] == [x];
    RunNothing(h);
    RunSnoc(h, [], x);
    FirstMerge(h, h + x);
    assert h + y <= h + x && |h + y| == 2;
  }

  /** The second command of this log reads back longer than it was, so that the summary
      does not count the exchanges of the log. */
  lemma PrefixLogReadsTooLong(lines: seq<Line>, es: seq<Exchange>, h: Path)
    requires lines == PrefixLog() && es == PrefixExchanges() && h == [9]
    ensures Replay(EMPTY, 1, lines).ok && h in Replay(EMPTY, 1, lines).state.trees && Answered(es)
    ensures var rs := Replay(EMPTY, 1, lines).state.trees[h].records;
      && |rs| == |es| == 2 && Proper(h + es[1].tx, rs[1].tx)
      && AllReadable(rs, 1) && !CountsExchanges(rs, 1, es)
  {
    hide Replay, Faithful, EndsWell, Legible, CountsExchanges, RunPaths, AllReadable, PrefixLog;
    PrefixLogFaithful();
    var v := Replay(EMPTY, 1, lines).state.trees[h];
    PrefixEndsInside();
    ReadsPastEnd(v, h, es, 1);
    NotLegible(h, es);
    SummaryOfLog(v, h, es);
  }

  lemma PrefixLogFaithful()
    ensures Replay(EMPTY, 1, PrefixLog()).ok && [9] in Replay(EMPTY, 1, PrefixLog()).state.trees
    ensures Faithful(Replay(EMPTY, 1, PrefixLog()).state.trees[[9]], [9], PrefixExchanges())
  {
    hide Replay, NoteAll, Faithful, PrefixLog, PrefixExchanges;
    PrefixLogRuns();
    PrefixLogNoted();
    var noted := NoteAll(Log(map[], None), 1, PrefixLog());
    assert [9] in noted.exchanges && noted.exchanges[[9]] == PrefixExchanges();
    RunFaithful(EMPTY, Log(map[], None), 1, PrefixLog());
  }

  lemma ReadsPastEnd(v: View, h: Path, es: seq<Exchange>, i: nat)
    requires Faithful(v, h, es) && i < |es| && !EndsWell(RunPaths(h, Txs(es[..i])), h + es[i].tx)
    ensures |v.records| == |es| && Proper(h + es[i].tx, v.records[i].tx)
  {
    hide Recorded, EndsWell, RunPaths, Run;
    assert Recorded(h, v.records[i], es, i);
    ReadBack(h, v.records[i], es, i);
  }

  lemma NotLegible(h: Path, es: seq<Exchange>)
    requires Answered(es) && |es| > 1 && !EndsWell(RunPaths(h, Txs(es[..1])), h + es[1].tx)
    ensures !Legible(h, es)
  {
    hide EndsWell, RunPaths;
    assert !LegibleAt(h, es, 1);
  }
}
