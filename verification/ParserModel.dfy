/** What the lines of a log do to the parser, as functions on values: the reference that
    the classes of modules `PacketTree` and `LineParser` follow, and the laws of whole runs. */
module ParserModel {
  import opened Bytes
  import opened TrieModel
  import opened Wrappers

  /** A recorded packet: the bytes its tree nodes stand for, header included. */
  datatype Record = Record(tx: Path, rx: Option<Path>, time: int, ac: int)

  datatype View = View(header: Path, tx: Model, rx: Model, records: seq<Record>)

  /** The exception on an empty stream comes after the root has been counted. */
  ghost function CountRoot(C: Model, r: Path): Model
    requires r in C
  {
    C[r := C[r] + 1]
  }

  ghost predicate Ok(v: View) {
    v.header in v.tx && v.header in v.rx && v.records != []
  }

  ghost function NewView(header: Path, data: Path): (v: View)
    ensures Ok(v)
  {
    View(header, Run(header, [data]), Run(header, []), [Record(header + data, None, 0, 0)])
  }

  ghost function MergeView(v: View, stream: Path): (v': View)
    requires Ok(v)
  {
    if stream == [] then v.(tx := CountRoot(v.tx, v.header)) else
      var t := v.header + stream;
      v.(tx := MergeModel(v.tx, t),
         records := v.records + [Record(LocusOf(MergePaths(v.tx.Keys, t), t), None, 0, 0)])
  }

  function SetLast(rs: seq<Record>, r: Record): (rs': seq<Record>)
    requires rs != []
  {
    rs[..|rs| - 1] + [r]
  }

  ghost function ReceiveView(v: View, stream: Path): (v': View)
    requires Ok(v)
  {
    if stream == [] then v.(rx := CountRoot(v.rx, v.header)) else
      var t := v.header + stream;
      var last := v.records[|v.records| - 1];
      v.(rx := MergeModel(v.rx, t),
         records := SetLast(v.records, last.(rx := Some(LocusOf(MergePaths(v.rx.Keys, t), t)))))
  }

  function TimeView(v: View, time: int, ac: int): (v': View)
    requires v.records != []
  {
    v.(records := SetLast(v.records, v.records[|v.records| - 1].(time := time, ac := ac)))
  }

  // ---------------------------------------------------------------- lines

  datatype Line = Transmitted(data: Path) | Received(data: Path) | ResponseTime(time: Option<int>)

  datatype State = State(trees: map<Path, View>, last: Option<Path>, ac: int)

  /** The state after a line; not `ok` stands for an exception, which ends the file. */
  datatype Outcome = Outcome(state: State, ok: bool)

  ghost predicate Good(st: State) {
    forall h :: h in st.trees ==> Ok(st.trees[h]) && st.trees[h].header == h
  }

  /** The stream goes into the tree of its header, or into a new tree. */
  ghost function StoreIn(trees: map<Path, View>, header: Path, stream: Path): (trees': map<Path, View>)
    requires header in trees ==> Ok(trees[header])
  {
    if header in trees then trees[header := MergeView(trees[header], stream)]
    else if stream == [] then trees
    else trees[header := NewView(header, stream)]
  }

  ghost function StepTransmitted(st: State, headerLength: nat, data: Path): (o: Outcome)
    requires Good(st)
  {
    if |data| < headerLength then Outcome(st, false) else
      var header, stream := data[..headerLength], data[headerLength..];
      Outcome(State(StoreIn(st.trees, header, stream), if stream == [] then st.last else Some(header), st.ac),
              stream != [])
  }

  ghost function StepReceived(st: State, data: Path): (o: Outcome)
    requires Good(st)
  {
    if st.last.None? || st.last.value !in st.trees then Outcome(st, true) else
      var h := st.last.value;
      Outcome(st.(trees := st.trees[h := ReceiveView(st.trees[h], data)]), data != [])
  }

  /** The counter moves on before a missing tree is noticed. */
  ghost function StepTime(st: State, time: Option<int>): (o: Outcome)
    requires Good(st)
  {
    if time.None? then Outcome(st, false)
    else if st.last.None? || st.last.value !in st.trees then Outcome(st.(ac := st.ac + 1), false) else
      var h := st.last.value;
      Outcome(st.(trees := st.trees[h := TimeView(st.trees[h], time.value, st.ac)], ac := st.ac + 1), true)
  }

  ghost function Step(st: State, headerLength: nat, line: Line): (o: Outcome)
    requires Good(st)
  {
    match line
    case Transmitted(data) => StepTransmitted(st, headerLength, data)
    case Received(data) => StepReceived(st, data)
    case ResponseTime(time) => StepTime(st, time)
  }

  lemma StepGood(st: State, n: nat, line: Line)
    requires Good(st)
    ensures Good(Step(st, n, line).state)
  {
  }

  const EMPTY := State(map[], None, 1)

  /** A whole file: lines up to the first exception. */
  ghost function Replay(st: State, n: nat, lines: seq<Line>): (o: Outcome)
    requires Good(st)
    ensures Good(o.state)
    decreases |lines|
  {
    if lines == [] then Outcome(st, true) else
      StepGood(st, n, lines[0]);
      var o := Step(st, n, lines[0]);
      if o.ok then Replay(o.state, n, lines[1..]) else o
  }

  // ---------------------------------------------------------------- the log itself

  /** A response time, and which of all numeric time lines of the log it is, from 1 on. */
  datatype Timing = Timing(time: int, number: int)

  /** One transmitted stream, the streams received until the next line for its header, and
      the last response time in between. */
  datatype Exchange = Exchange(tx: Path, rx: seq<Path>, timing: Option<Timing> := None)

  /** What a reader of the log would write down, without any trees; `times` is the number of
      time lines so far. */
  datatype Log = Log(exchanges: map<Path, seq<Exchange>>, last: Option<Path>, times: nat := 0)

  function Heard(es: seq<Exchange>, d: Path): (es': seq<Exchange>)
    requires es != []
  {
    es[..|es| - 1] + [es[|es| - 1].(rx := es[|es| - 1].rx + [d])]
  }

  function Timed(es: seq<Exchange>, timing: Timing): (es': seq<Exchange>)
    requires es != []
  {
    es[..|es| - 1] + [es[|es| - 1].(timing := Some(timing))]
  }

  ghost predicate Complete(log: Log) {
    (log.last.Some? ==> log.last.value in log.exchanges)
    && forall h :: h in log.exchanges ==> log.exchanges[h] != []
  }

  ghost function Note(log: Log, n: nat, line: Line): (log': Log)
    requires Complete(log)
    ensures Complete(log')
  {
    match line
    case Transmitted(data) =>
      if |data| < n then log else
        var h := data[..n];
        var es := if h in log.exchanges then log.exchanges[h] else [];
        Log(log.exchanges[h := es + [Exchange(data[n..], [])]], Some(h), log.times)
    case Received(data) =>
      if log.last.None? then log else
        log.(exchanges := log.exchanges[log.last.value := Heard(log.exchanges[log.last.value], data)])
    case ResponseTime(time) =>
      if time.None? then log
      else if log.last.None? then log.(times := log.times + 1)
      else
        var timing := Timing(time.value, log.times + 1);
        log.(times := log.times + 1,
             exchanges := log.exchanges[log.last.value := Timed(log.exchanges[log.last.value], timing)])
  }

  ghost function NoteAll(log: Log, n: nat, lines: seq<Line>): (log': Log)
    requires Complete(log)
    ensures Complete(log')
    decreases |lines|
  {
    if lines == [] then log else NoteAll(Note(log, n, lines[0]), n, lines[1..])
  }

  function Txs(es: seq<Exchange>): (ts: seq<Path>) {
    if es == [] then [] else Txs(es[..|es| - 1]) + [es[|es| - 1].tx]
  }

  function Rxs(es: seq<Exchange>): (ts: seq<Path>) {
    if es == [] then [] else Rxs(es[..|es| - 1]) + es[|es| - 1].rx
  }

  /** The record of the `i`th exchange holds the places of its own streams in the trees of
      all streams so far, the transmitted one and the last of the received ones, and its own
      response time with its number, or zeros. */
  ghost predicate Recorded(h: Path, r: Record, es: seq<Exchange>, i: nat)
    requires i < |es|
  {
    var so, e := es[..i + 1], es[i];
    && r.tx == LocusOf(RunPaths(h, Txs(so)), h + e.tx)
    && r.rx == (if e.rx == [] then None else Some(LocusOf(RunPaths(h, Rxs(so)), h + e.rx[|e.rx| - 1])))
    && r.time == (if e.timing.None? then 0 else e.timing.value.time)
    && r.ac == (if e.timing.None? then 0 else e.timing.value.number)
  }

  /** A tree of packets that has seen exactly the exchanges `es`. */
  ghost predicate Faithful(v: View, h: Path, es: seq<Exchange>) {
    && v.header == h && es != []
    && v.tx == Run(h, Txs(es)) && v.rx == Run(h, Rxs(es)) && |v.records| == |es|
    && forall i {:trigger Recorded(h, v.records[i], es, i)} :: 0 <= i < |es| ==> Recorded(h, v.records[i], es, i)
  }

  ghost predicate FaithfulTo(st: State, log: Log) {
    && st.last == log.last && st.trees.Keys == log.exchanges.Keys && st.ac == log.times + 1
    && forall h :: h in st.trees ==> Faithful(st.trees[h], h, log.exchanges[h])
  }

  lemma TxsSnoc(es: seq<Exchange>, e: Exchange)
    ensures Txs(es + [e]) == Txs(es) + [e.tx] && Rxs(es + [e]) == Rxs(es) + e.rx
  {
    assert (es + [e])[..|es|] == es;
  }

  lemma FaithfulNew(h: Path, s: Path)
    requires s != []
    ensures Faithful(NewView(h, s), h, [Exchange(s, [])])
  {
    hide Run, RunPaths, MergeModel, MergePaths, LocusOf;
    var es := [Exchange(s, [])];
    TxsSnoc([], Exchange(s, []));
    assert [] + es == es && es[..1] == es;
    assert Txs(es) == [s] && Rxs(es) == [];
    FirstLocus(h, s);
    assert Recorded(h, NewView(h, s).records[0], es, 0);
  }

  lemma FirstLocus(h: Path, s: Path)
    requires s != []
    ensures LocusOf(RunPaths(h, [s]), h + s) == h + s
  {
    hide RunPaths, MergePaths;
    RunSnoc(h, [], s);
    assert [] + [s] == [s];
    RunNothing(h);
    FirstMerge(h, h + s);
    assert IsLocus({h, h + s}, h + s, h + s);
    LocusUnique({h, h + s}, h + s, h + s);
  }

  lemma FaithfulMerge(v: View, h: Path, es: seq<Exchange>, s: Path)
    requires Faithful(v, h, es) && s != [] && Ok(v)
    ensures Faithful(MergeView(v, s), h, es + [Exchange(s, [])])
  {
    hide Run, RunPaths, MergeModel, MergePaths, LocusOf;
    var es' := es + [Exchange(s, [])];
    TxsSnoc(es, Exchange(s, []));
    assert Rxs(es) + [] == Rxs(es);
    RunModelSnoc(h, Txs(es), s);
    RunSnoc(h, Txs(es), s);
    var v' := MergeView(v, s);
    forall i | 0 <= i < |es'|
      ensures Recorded(h, v'.records[i], es', i)
    {
      if i < |es| {
        assert Recorded(h, v.records[i], es, i);
        assert es'[..i + 1] == es[..i + 1];
      } else {
        assert es'[..i + 1] == es';
      }
    }
  }

  lemma HeardStreams(es: seq<Exchange>, d: Path)
    requires es != []
    ensures Txs(Heard(es, d)) == Txs(es) && Rxs(Heard(es, d)) == Rxs(es) + [d]
  {
    var k := |es| - 1;
    assert es == es[..k] + [es[k]];
    TxsSnoc(es[..k], es[k]);
    TxsSnoc(es[..k], es[k].(rx := es[k].rx + [d]));
    assert Rxs(es[..k]) + (es[k].rx + [d]) == Rxs(es[..k]) + es[k].rx + [d];
  }

  lemma FaithfulReceive(v: View, h: Path, es: seq<Exchange>, d: Path)
    requires Faithful(v, h, es) && d != [] && Ok(v)
    ensures Faithful(ReceiveView(v, d), h, Heard(es, d))
  {
    hide Run, RunPaths, MergeModel, MergePaths, LocusOf, Txs, Rxs;
    var k := |es| - 1;
    var es' := Heard(es, d);
    HeardStreams(es, d);
    RunModelSnoc(h, Rxs(es), d);
    RunSnoc(h, Rxs(es), d);
    var v' := ReceiveView(v, d);
    forall i | 0 <= i < |es'|
      ensures Recorded(h, v'.records[i], es', i)
    {
      assert Recorded(h, v.records[i], es, i);
      if i < k {
        assert es'[..i + 1] == es[..i + 1];
      } else {
        assert es'[..i + 1] == es' && es[..i + 1] == es;
      }
    }
  }

  lemma TimedStreams(es: seq<Exchange>, timing: Timing)
    requires es != []
    ensures Txs(Timed(es, timing)) == Txs(es) && Rxs(Timed(es, timing)) == Rxs(es)
  {
    var k := |es| - 1;
    assert es == es[..k] + [es[k]];
    TxsSnoc(es[..k], es[k]);
    TxsSnoc(es[..k], es[k].(timing := Some(timing)));
  }

  lemma FaithfulTime(v: View, h: Path, es: seq<Exchange>, time: int, ac: int)
    requires Faithful(v, h, es)
    ensures Faithful(TimeView(v, time, ac), h, Timed(es, Timing(time, ac)))
  {
    hide Run, RunPaths, LocusOf, Txs, Rxs;
    var k := |es| - 1;
    var es' := Timed(es, Timing(time, ac));
    TimedStreams(es, Timing(time, ac));
    var v' := TimeView(v, time, ac);
    forall i | 0 <= i < |es'|
      ensures Recorded(h, v'.records[i], es', i)
    {
      assert Recorded(h, v.records[i], es, i);
      if i < k {
        assert es'[..i + 1] == es[..i + 1];
      } else {
        assert es'[..i + 1] == es' && es[..i + 1] == es;
      }
    }
  }

  lemma StepFaithful(st: State, log: Log, n: nat, line: Line)
    requires Good(st) && Complete(log) && FaithfulTo(st, log) && Step(st, n, line).ok
    ensures FaithfulTo(Step(st, n, line).state, Note(log, n, line))
  {
    hide Faithful, MergeView, ReceiveView, TimeView, NewView, Heard, Timed;
    match line
    case Transmitted(data) =>
      var h, s := data[..n], data[n..];
      if h in st.trees {
        FaithfulMerge(st.trees[h], h, log.exchanges[h], s);
      } else {
        FaithfulNew(h, s);
        assert [] + [Exchange(s, [])] == [Exchange(s, [])];
      }
    case Received(data) =>
      if log.last.Some? {
        FaithfulReceive(st.trees[log.last.value], log.last.value, log.exchanges[log.last.value], data);
      }
    case ResponseTime(time) =>
      FaithfulTime(st.trees[log.last.value], log.last.value, log.exchanges[log.last.value], time.value, st.ac);
  }

  /** The lines before an exception leave the trees and packets of the log's exchanges. */
  lemma {:induction false} RunFaithful(st: State, log: Log, n: nat, lines: seq<Line>)
    requires Good(st) && Complete(log) && FaithfulTo(st, log) && Replay(st, n, lines).ok
    ensures FaithfulTo(Replay(st, n, lines).state, NoteAll(log, n, lines))
    decreases |lines|
  {
    hide FaithfulTo, Step, Note, Good, Complete;
    if lines != [] {
      StepGood(st, n, lines[0]);
      StepFaithful(st, log, n, lines[0]);
      RunFaithful(Step(st, n, lines[0]).state, Note(log, n, lines[0]), n, lines[1..]);
    }
  }

  /** How many of the lines give a response time. */
  function NumericTimes(lines: seq<Line>): (k: nat) {
    if lines == [] then 0
    else (if lines[0].ResponseTime? && lines[0].time.Some? then 1 else 0) + NumericTimes(lines[1..])
  }

  /** The numbers that are noted count the response times of the whole log. */
  lemma {:induction false} TimesNoted(log: Log, n: nat, lines: seq<Line>)
    requires Complete(log)
    ensures NoteAll(log, n, lines).times == log.times + NumericTimes(lines)
    decreases |lines|
  {
    hide Complete, Heard, Timed;
    if lines != [] {
      TimesNoted(Note(log, n, lines[0]), n, lines[1..]);
    }
  }

  function ExchangesOf(log: Log, h: Path): (es: seq<Exchange>) {
    if h in log.exchanges then log.exchanges[h] else []
  }

  /** What the lines transmit with the header `h`. */
  function SentWith(h: Path, n: nat, lines: seq<Line>): (streams: seq<Path>) {
    if lines == [] then []
    else
      var rest := SentWith(h, n, lines[1..]);
      match lines[0]
      case Transmitted(data) => if |data| >= n && data[..n] == h then [data[n..]] + rest else rest
      case _ => rest
  }

  /** What the lines receive while `h` is the header that was transmitted last. */
  function HeardWith(h: Path, last: Option<Path>, n: nat, lines: seq<Line>): (streams: seq<Path>)
    decreases |lines|
  {
    if lines == [] then []
    else
      match lines[0]
      case Transmitted(data) => HeardWith(h, if |data| >= n then Some(data[..n]) else last, n, lines[1..])
      case Received(data) => (if last == Some(h) then [data] else []) + HeardWith(h, last, n, lines[1..])
      case ResponseTime(_) => HeardWith(h, last, n, lines[1..])
  }

  lemma StreamNoted(log: Log, n: nat, line: Line, h: Path)
    requires Complete(log)
    ensures var log' := Note(log, n, line);
      && Txs(ExchangesOf(log', h)) == Txs(ExchangesOf(log, h)) + (match line
        case Transmitted(data) => if |data| >= n && data[..n] == h then [data[n..]] else []
        case _ => [])
      && Rxs(ExchangesOf(log', h)) == Rxs(ExchangesOf(log, h)) + (match line
        case Received(data) => if log.last == Some(h) then [data] else []
        case _ => [])
      && log'.last == (match line
        case Transmitted(data) => if |data| >= n then Some(data[..n]) else log.last
        case _ => log.last)
  {
    hide Txs, Rxs, Heard, Timed;
    var es := ExchangesOf(log, h);
    match line
    case Transmitted(data) =>
      if |data| >= n {
        TxsSnoc(es, Exchange(data[n..], []));
      }
    case Received(data) =>
      if log.last == Some(h) {
        HeardStreams(es, data);
      }
    case ResponseTime(time) =>
      if time.Some? && log.last == Some(h) {
        TimedStreams(es, Timing(time.value, log.times + 1));
      }
  }

  /** All streams of a header are noted, in order, on either side. */
  lemma {:induction false} StreamsNoted(log: Log, n: nat, lines: seq<Line>, h: Path)
    requires Complete(log)
    ensures Txs(ExchangesOf(NoteAll(log, n, lines), h)) == Txs(ExchangesOf(log, h)) + SentWith(h, n, lines)
    ensures Rxs(ExchangesOf(NoteAll(log, n, lines), h)) == Rxs(ExchangesOf(log, h)) + HeardWith(h, log.last, n, lines)
    decreases |lines|
  {
    hide Txs, Rxs, Note, Complete, ExchangesOf;
    if lines == [] {
      assert Txs(ExchangesOf(log, h)) + [] == Txs(ExchangesOf(log, h));
      assert Rxs(ExchangesOf(log, h)) + [] == Rxs(ExchangesOf(log, h));
    } else {
      StreamNoted(log, n, lines[0], h);
      StreamsNoted(Note(log, n, lines[0]), n, lines[1..], h);
    }
  }

  /** The lines that throw: too short a command, an empty answer, no number, or a time
      before any command. */
  lemma StepThrows(st: State, log: Log, n: nat, line: Line)
    requires Good(st) && Complete(log) && FaithfulTo(st, log)
    ensures !Step(st, n, line).ok <==>
      match line
      case Transmitted(data) => |data| <= n
      case Received(data) => data == [] && log.last.Some?
      case ResponseTime(time) => time.None? || log.last.None?
  {
    hide Faithful, MergeModel, NewView, LocusOf;
  }

  /** The state after a line that throws: nothing has changed but the count of a root that an
      empty stream came to, or the number of times. */
  lemma ThrownState(st: State, n: nat, line: Line)
    requires Good(st) && !Step(st, n, line).ok
    ensures match line
      case Transmitted(data) =>
        if |data| == n && data in st.trees then
          var v := st.trees[data];
          && data in v.tx
          && Step(st, n, line).state == st.(trees := st.trees[data := v.(tx := v.tx[data := v.tx[data] + 1])])
        else Step(st, n, line).state == st
      case Received(data) =>
        && data == [] && st.last.Some? && st.last.value in st.trees
        && var v := st.trees[st.last.value];
        && v.header in v.rx
        && Step(st, n, line).state ==
          st.(trees := st.trees[st.last.value := v.(rx := v.rx[v.header := v.rx[v.header] + 1])])
      case ResponseTime(time) =>
        Step(st, n, line).state == if time.None? then st else st.(ac := st.ac + 1)
  {
    hide MergeModel, NewView, LocusOf;
    match line {
      case Transmitted(data) =>
        if |data| >= n {
          assert data[n..] == [];
          assert data[..n] == data;
        }
      case Received(data) =>
      case ResponseTime(time) =>
    }
  }

  // ---------------------------------------------------------------- files that end early

  /** The same headers with the same packets; only counts may differ. */
  ghost predicate SameRecords(st: State, st': State) {
    && st'.trees.Keys == st.trees.Keys
    && forall h :: h in st.trees ==>
      st'.trees[h].header == st.trees[h].header && st'.trees[h].records == st.trees[h].records
  }

  /** A line that throws changes no packet. */
  lemma ThrowKeepsRecords(st: State, n: nat, line: Line)
    requires Good(st) && !Step(st, n, line).ok
    ensures SameRecords(st, Step(st, n, line).state)
  {
    hide MergeModel, NewView, LocusOf;
  }

  /** The number of lines before the first one that throws, or of all lines. */
  ghost function LinesRead(st: State, n: nat, lines: seq<Line>): (k: nat)
    requires Good(st)
    ensures k <= |lines|
    decreases |lines|
  {
    if lines == [] || !Step(st, n, lines[0]).ok then 0
    else
      StepGood(st, n, lines[0]);
      1 + LinesRead(Step(st, n, lines[0]).state, n, lines[1..])
  }

  /** What has been recorded after a file is what was recorded by the lines before the first
      one that throws. */
  lemma {:induction false} ReadLines(st: State, n: nat, lines: seq<Line>)
    requires Good(st)
    ensures var k := LinesRead(st, n, lines);
      && Replay(st, n, lines[..k]).ok
      && (k < |lines| ==> !Step(Replay(st, n, lines[..k]).state, n, lines[k]).ok)
      && SameRecords(Replay(st, n, lines[..k]).state, Replay(st, n, lines).state)
      && (Replay(st, n, lines).ok <==> k == |lines|)
    decreases |lines|
  {
    hide Step, Good;
    if lines != [] {
      StepGood(st, n, lines[0]);
      if Step(st, n, lines[0]).ok {
        var st1 := Step(st, n, lines[0]).state;
        var k := LinesRead(st1, n, lines[1..]);
        ReadLines(st1, n, lines[1..]);
        assert lines[..k + 1][1..] == lines[1..][..k];
      } else {
        ThrowKeepsRecords(st, n, lines[0]);
      }
    }
  }

  /** Whatever was in the log: after any lines the trees and packets are those of the
      exchanges in the lines before the first one that throws, up to counts that this line
      may have changed. In particular each received stream is with the most recent
      transmitted one. */
  lemma ReplayFaithful(st: State, log: Log, n: nat, lines: seq<Line>)
    requires Good(st) && Complete(log) && FaithfulTo(st, log)
    ensures var read := lines[..LinesRead(st, n, lines)];
      && Replay(st, n, read).ok && FaithfulTo(Replay(st, n, read).state, NoteAll(log, n, read))
      && SameRecords(Replay(st, n, read).state, Replay(st, n, lines).state)
  {
    hide Step, Good, Complete, FaithfulTo, SameRecords;
    ReadLines(st, n, lines);
    RunFaithful(st, log, n, lines[..LinesRead(st, n, lines)]);
  }

  // ---------------------------------------------------------------- records stay

  /** Nothing that happens to a tree of packets touches an older packet, and the bytes
      sent with the last one never change. */
  ghost predicate Keeps(v: View, v': View) {
    && v'.header == v.header && |v.records| <= |v'.records|
    && (forall i :: 0 <= i < |v.records| ==> v'.records[i].tx == v.records[i].tx)
    && (forall i :: 0 <= i < |v.records| - 1 ==> v'.records[i] == v.records[i])
  }

  ghost predicate KeepsAll(st: State, st': State) {
    forall h :: h in st.trees ==> h in st'.trees && Keeps(st.trees[h], st'.trees[h])
  }

  lemma StepKeeps(st: State, n: nat, line: Line)
    requires Good(st)
    ensures KeepsAll(st, Step(st, n, line).state)
  {
    hide StepTransmitted, StepReceived, StepTime;
    match line {
      case Transmitted(data) => TransmittedKeeps(st, n, data);
      case Received(data) => ReceivedKeeps(st, data);
      case ResponseTime(time) => TimeKeeps(st, time);
    }
  }

  lemma TransmittedKeeps(st: State, n: nat, data: Path)
    requires Good(st)
    ensures KeepsAll(st, StepTransmitted(st, n, data).state)
  {
    hide MergeModel, NewView, LocusOf;
  }

  lemma ReceivedKeeps(st: State, data: Path)
    requires Good(st)
    ensures KeepsAll(st, StepReceived(st, data).state)
  {
    hide ReceiveView, Keeps;
    if st.last.Some? && st.last.value in st.trees {
      ReceiveKeeps(st.trees[st.last.value], data);
    }
    forall h | h in st.trees
      ensures Keeps(st.trees[h], st.trees[h])
    {
      NothingChanged(st.trees[h]);
    }
  }

  lemma ReceiveKeeps(v: View, data: Path)
    requires Ok(v)
    ensures Keeps(v, ReceiveView(v, data))
  {
    hide MergeModel, LocusOf;
  }

  lemma NothingChanged(v: View)
    ensures Keeps(v, v)
  {
  }

  lemma TimeKeeps(st: State, time: Option<int>)
    requires Good(st)
    ensures KeepsAll(st, StepTime(st, time).state)
  {
  }

  /** A recorded packet reads the same for the rest of the file, whatever the later lines
      do to the trees above, at and below its nodes. */
  lemma {:induction false} ReplayKeeps(st: State, n: nat, lines: seq<Line>)
    requires Good(st)
    ensures KeepsAll(st, Replay(st, n, lines).state)
    decreases |lines|
  {
    hide Step, Good;
    if lines != [] {
      StepGood(st, n, lines[0]);
      StepKeeps(st, n, lines[0]);
      if Step(st, n, lines[0]).ok {
        ReplayKeeps(Step(st, n, lines[0]).state, n, lines[1..]);
      }
    }
  }

  /** A stream that did not end strictly inside an edge of the tree as it was then. */
  ghost predicate EndsWell(P: set<Path>, t: Path) {
    !Covered(P, t) || t in P
  }

  /** When a recorded packet reads back as its own bytes: exactly when its streams ended
      well. Otherwise what is read continues past the end of the stream. */
  lemma ReadBack(h: Path, r: Record, es: seq<Exchange>, i: nat)
    requires i < |es| && Recorded(h, r, es, i)
    ensures h + es[i].tx <= r.tx
    ensures r.tx == h + es[i].tx <==> EndsWell(RunPaths(h, Txs(es[..i])), h + es[i].tx)
    ensures r.rx.None? <==> es[i].rx == []
    ensures es[i].rx != [] ==> ReadsBack(h, r.rx.value, Rxs(es[..i]) + es[i].rx)
  {
    hide RunPaths, LocusOf, EndsWell, ReadsBack;
    assert es[..i + 1] == es[..i] + [es[i]];
    TxsSnoc(es[..i], es[i]);
    EndOfRun(h, Txs(es[..i]), es[i].tx);
    if es[i].rx != [] {
      var init, d := es[i].rx[..|es[i].rx| - 1], es[i].rx[|es[i].rx| - 1];
      assert Rxs(es[..i]) + es[i].rx == (Rxs(es[..i]) + init) + [d];
      EndOfRun(h, Rxs(es[..i]) + init, d);
      LastReads(h, r.rx.value, Rxs(es[..i]) + init, d);
    }
  }

  /** `p` begins with the header and the last of the streams, and is just that exactly when
      the last stream ended well. */
  ghost predicate ReadsBack(h: Path, p: Path, streams: seq<Path>)
    requires streams != []
  {
    var init, d := streams[..|streams| - 1], streams[|streams| - 1];
    h + d <= p && (p == h + d <==> EndsWell(RunPaths(h, init), h + d))
  }

  lemma LastReads(h: Path, p: Path, init: seq<Path>, d: Path)
    requires h + d <= p && (p == h + d <==> EndsWell(RunPaths(h, init), h + d))
    ensures ReadsBack(h, p, init + [d])
  {
    hide EndsWell, RunPaths;
    assert (init + [d])[..|init|] == init;
  }

  lemma EndOfRun(h: Path, init: seq<Path>, d: Path)
    ensures var p := LocusOf(RunPaths(h, init + [d]), h + d);
      h + d <= p && (p == h + d <==> EndsWell(RunPaths(h, init), h + d))
  {
    hide RunPaths, MergePaths, LocusOf;
    RunSnoc(h, init, d);
    RunForked(h, init);
    MergeLocus(RunPaths(h, init), h + d);
  }
}
