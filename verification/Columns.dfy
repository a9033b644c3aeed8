/** The bytes between the constant ends, column by column, after `analyzeMessages` of
    `OutputTree.java`. */
module Columns {
  import opened Messages
  import opened CommonPrefix
  import opened Sums

  /** How a column is shown. The bytes of a column stay a set: their order in the output
      is that of a hash set. */
  datatype Shown = Random | Values(values: set<string>)

  datatype Style = Style(emptyByteIncluded: bool, emptyByteValue: string)

  ghost predicate AllMessages(msgs: seq<string>) {
    forall m :: m in msgs ==> IsMessage(m)
  }

  /** The bytes in column `i` after the first `a`, of the messages that reach beyond the
      last `b` there. */
  ghost function Column(msgs: seq<string>, a: nat, b: nat, i: nat): (bytes: set<string>)
    requires AllMessages(msgs)
  {
    set m | m in msgs && Cells(m) > a + i + b :: Cell(m, a + i)
  }

  /** Some message ends before column `i`. */
  ghost predicate Short(msgs: seq<string>, a: nat, b: nat, i: nat) {
    exists m :: m in msgs && Cells(m) <= a + i + b
  }

  function Occurrences(counts: seq<Count>): (t: nat)
    ensures t >= |counts|
  {
    if counts == [] then 0 else Occurrences(counts[..|counts| - 1]) + counts[|counts| - 1]
  }

  /** The bytes of a column with the mark for messages that end before it. */
  function Marked(bytes: set<string>, short: bool, style: Style): (shown: set<string>) {
    if short && style.emptyByteIncluded then bytes + {style.emptyByteValue} else bytes
  }

  /** The decision on one column. The quotient is one of integers. */
  function Show(bytes: set<string>, short: bool, total: int, style: Style): (s: Shown)
    requires total > 0
  {
    var shown := Marked(bytes, short, style);
    if |shown| == 1 then Values(shown)
    else if |shown| > 20 || (|shown| / total) as real > 0.33 then Random
    else Values(shown)
  }

  /** The share of different bytes that makes a column random is meant to be a third, but
      because of the integer quotient it is the whole: the two agree exactly outside the
      range between them. */
  lemma RandomIsAllDifferent(bytes: set<string>, short: bool, total: int, style: Style)
    requires total > 0 && 1 < |Marked(bytes, short, style)| <= 20
    ensures var n := |Marked(bytes, short, style)|;
      && (Show(bytes, short, total, style) == Random <==> n >= total)
      && ((Show(bytes, short, total, style) == Random <==> n as real / total as real > 0.33)
        <==> (n >= total || 100 * n <= 33 * total))
  {
    var n := |Marked(bytes, short, style)|;
    if n >= total {
      assert n / total >= 1;
    } else {
      assert n / total == 0;
    }
    QuotientAbove(n, total);
  }

  /** Three different bytes in four messages are three quarters, but not random. */
  lemma ThreeOfFourShown(msgs: seq<string>, style: Style)
    requires msgs == ["AA", "BB", "CC", "AA"]
    ensures AllMessages(msgs) && !Short(msgs, 0, 0, 0) && |Column(msgs, 0, 0, 0)| == 3 && 3.0 / 4.0 > 0.33
    ensures Show(Column(msgs, 0, 0, 0), false, 4, style) == Values({"AA", "BB", "CC"})
  {
    assert forall m :: m in msgs ==> m == msgs[0] || m == msgs[1] || m == msgs[2] || m == msgs[3];
    assert msgs[0] in msgs && msgs[1] in msgs && msgs[2] in msgs;
    assert Cell("AA", 0) == "AA" && Cell("BB", 0) == "BB" && Cell("CC", 0) == "CC";
    assert Column(msgs, 0, 0, 0) == {"AA", "BB", "CC"};
  }

  lemma QuotientAbove(n: nat, total: int)
    requires total > 0
    ensures n as real / total as real > 0.33 <==> 100 * n > 33 * total
  {
    Quotient(n as real, total as real);
    assert n as real > 0.33 * total as real <==> 100 * n > 33 * total;
  }

  lemma Quotient(x: real, t: real)
    requires t > 0.0
    ensures x / t > 0.33 <==> x > 0.33 * t
  {
    var q := x / t;
    assert q * t == x;
    if q > 0.33 {
      ScaleUp(q, 0.33, t);
    } else if q < 0.33 {
      ScaleUp(0.33, q, t);
    }
  }

  lemma ScaleUp(x: real, y: real, t: real)
    requires x > y && t > 0.0
    ensures x * t > y * t
  {
    Positive(x - y, t);
    assert (x - y) * t == x * t - y * t;
  }

  /** One pass over the messages for the column at `leftIndex`. */
  method Collect(msgs: seq<string>, counts: seq<Count>, leftIndex: int, rightIndex: int,
                 ghost a: nat, ghost b: nat, ghost i: nat)
    returns (bytes: set<string>, msgsCount: int, addEmptyByte: bool)
    requires AllMessages(msgs) && |counts| == |msgs|
    requires leftIndex == 3 * (a + i) && rightIndex == 3 * b
    ensures bytes == Column(msgs, a, b, i) && msgsCount == Occurrences(counts)
    ensures addEmptyByte <==> Short(msgs, a, b, i)
  {
    bytes, msgsCount, addEmptyByte := {}, 0, false;
    for k := 0 to |msgs|
      invariant AllMessages(msgs[..k]) && bytes == Column(msgs[..k], a, b, i)
      invariant msgsCount == Occurrences(counts[..k])
      invariant addEmptyByte <==> Short(msgs[..k], a, b, i)
    {
      var msg := msgs[k];
      ColumnMore(msgs[..k], msg, a, b, i);
      assert msgs[..k + 1] == msgs[..k] + [msg];
      assert counts[..k + 1][..k] == counts[..k];
      if |msg| > leftIndex + rightIndex {
        var curByte := msg[leftIndex..leftIndex + 2];
        assert curByte == Cell(msg, a + i);
        bytes := bytes + {curByte};
      } else if !addEmptyByte {
        addEmptyByte := true;
      }
      msgsCount := msgsCount + counts[k];
    }
    assert msgs[..|msgs|] == msgs && counts[..|counts|] == counts;
  }

  lemma ColumnMore(msgs: seq<string>, msg: string, a: nat, b: nat, i: nat)
    requires AllMessages(msgs) && IsMessage(msg)
    ensures AllMessages(msgs + [msg])
    ensures Column(msgs + [msg], a, b, i) ==
      Column(msgs, a, b, i) + (if Cells(msg) > a + i + b then {Cell(msg, a + i)} else {})
    ensures Short(msgs + [msg], a, b, i) <==> Short(msgs, a, b, i) || Cells(msg) <= a + i + b
  {
    assert forall m :: m in msgs + [msg] <==> m in msgs || m == msg;
  }

  /** The first `|columns|` columns, and how they are shown. */
  ghost predicate Analyzed(msgs: seq<string>, total: int, a: nat, b: nat, style: Style,
                           columns: seq<set<string>>, shown: seq<Shown>)
    requires AllMessages(msgs)
  {
    && |shown| == |columns| && (columns != [] ==> total > 0)
    && forall i {:trigger columns[i]} :: 0 <= i < |columns| ==>
      columns[i] == Column(msgs, a, b, i) && shown[i] == Show(columns[i], Short(msgs, a, b, i), total, style)
  }

  /** The columns between a constant part of `a` bytes in front and one of `b` bytes behind,
      given by their lengths in characters. */
  method AnalyzeMessages(msgs: seq<string>, counts: seq<Count>, left: int, right: int, style: Style,
                         ghost a: nat, ghost b: nat)
    returns (columns: seq<set<string>>, shown: seq<Shown>)
    requires AllMessages(msgs) && |counts| == |msgs|
    requires left == (if a == 0 then 0 else 3 * a - 1) && right == (if b == 0 then 0 else 3 * b - 1)
    ensures Analyzed(msgs, Occurrences(counts), a, b, style, columns, shown)
    ensures forall m :: m in msgs ==> Cells(m) <= a + b + |columns|
    ensures columns != [] ==> exists m :: m in msgs && Cells(m) == a + b + |columns|
  {
    hide Column, Show, Short, Occurrences;
    var leftIndex := if left > 0 then left + 1 else left;
    var rightIndex := if right > 0 then right + 1 else right;
    columns, shown := [], [];
    var going := true;
    while going
      invariant Analyzed(msgs, Occurrences(counts), a, b, style, columns, shown)
      invariant leftIndex == 3 * (a + |columns| + if going then 0 else 1) && rightIndex == 3 * b
      invariant columns != [] ==> columns[|columns| - 1] != {}
      invariant !going ==> Column(msgs, a, b, |columns|) == {}
      decreases going, Longest(msgs) - |columns|
    {
      var bytes, msgsCount, addEmptyByte := Collect(msgs, counts, leftIndex, rightIndex, a, b, |columns|);
      leftIndex := leftIndex + 3;
      if bytes == {} {
        going := false;
      } else {
        ColumnBelowLongest(msgs, a, b, |columns|);
        shown := shown + [Show(bytes, addEmptyByte, msgsCount, style)];
        columns := columns + [bytes];
      }
    }
    ColumnsEnd(msgs, a, b, |columns|);
  }

  // ---------------------------------------------------------------- columns on the messages

  function Times(c: Count): int {
    c
  }

  lemma {:induction false} OccurrencesAre(counts: seq<Count>)
    ensures Occurrences(counts) == Sum(counts, Times)
  {
    if counts != [] {
      OccurrencesAre(counts[..|counts| - 1]);
    }
  }

  /** What is to be shown in column `i`: the bytes that messages have there, and the mark if
      the style has one and some message ends before. */
  ghost predicate ToShow(what: set<string>, msgs: seq<string>, a: nat, b: nat, i: nat, style: Style)
    requires AllMessages(msgs)
  {
    forall v :: v in what <==>
      || (exists m :: m in msgs && Cells(m) > a + i + b && Cell(m, a + i) == v)
      || (v == style.emptyByteValue && style.emptyByteIncluded && exists m :: m in msgs && Cells(m) <= a + i + b)
  }

  /** A column is random exactly when it has more than 20 members to be shown, or at least
      two and no fewer than messages occurred; otherwise it shows just them. */
  lemma ColumnShown(msgs: seq<string>, counts: seq<Count>, a: nat, b: nat, style: Style,
                    columns: seq<set<string>>, shown: seq<Shown>, i: nat, what: set<string>)
    requires AllMessages(msgs) && Analyzed(msgs, Occurrences(counts), a, b, style, columns, shown)
    requires i < |columns| && ToShow(what, msgs, a, b, i, style)
    ensures |shown| == |columns|
    ensures shown[i] ==
      if |what| > 20 || (|what| >= 2 && |what| >= Sum(counts, Times)) then Random else Values(what)
  {
    hide IsMessage;
    OccurrencesAre(counts);
    var column, short := Column(msgs, a, b, i), Short(msgs, a, b, i);
    assert columns[i] == column;
    MarkedIs(msgs, a, b, i, style, what);
    ShowIs(column, short, Occurrences(counts), style);
  }

  lemma MarkedIs(msgs: seq<string>, a: nat, b: nat, i: nat, style: Style, what: set<string>)
    requires AllMessages(msgs) && ToShow(what, msgs, a, b, i, style)
    ensures what == Marked(Column(msgs, a, b, i), Short(msgs, a, b, i), style)
  {
    hide IsMessage;
  }

  lemma ShowIs(bytes: set<string>, short: bool, total: int, style: Style)
    requires total > 0
    ensures var shown := Marked(bytes, short, style);
      Show(bytes, short, total, style) ==
      if |shown| > 20 || (|shown| >= 2 && |shown| >= total) then Random else Values(shown)
  {
    var n := |Marked(bytes, short, style)|;
    if 1 < n <= 20 {
      RandomIsAllDifferent(bytes, short, total, style);
    }
    if n == 0 {
      assert 0 / total == 0;
    }
  }

  /** A column in which one of two messages has a byte and the other one has ended, with the
      mark "--": both are shown. */
  lemma EndedMessageMarked(msgs: seq<string>, counts: seq<Count>, style: Style,
                           columns: seq<set<string>>, shown: seq<Shown>)
    requires msgs == ["AA BB", "AA"] && counts == [3, 3] && style == Style(true, "--")
    requires AllMessages(msgs) && Analyzed(msgs, Occurrences(counts), 1, 0, style, columns, shown)
    requires |columns| == 1
    ensures columns == [{"BB"}] && shown == [Values({"BB", "--"})]
  {
    hide Analyzed, Marked, Show, Occurrences;
    assert msgs[0] in msgs && msgs[1] in msgs && forall m :: m in msgs ==> m == msgs[0] || m == msgs[1];
    assert Cells(msgs[0]) == 2 && Cells(msgs[1]) == 1 && Cell(msgs[0], 1) == "BB";
    assert Column(msgs, 1, 0, 0) == {"BB"};
    assert ToShow({"BB", "--"}, msgs, 1, 0, 0, style);
    ColumnShown(msgs, counts, 1, 0, style, columns, shown, 0, {"BB", "--"});
    AnalyzedColumns(msgs, Occurrences(counts), 1, 0, style, columns, shown);
    SumOfTwo(counts);
  }

  lemma SumOfTwo(counts: seq<Count>)
    requires |counts| == 2
    ensures Sum(counts, Times) == counts[0] + counts[1]
  {
    SumNext(counts, Times, 0);
    SumNext(counts, Times, 1);
    assert counts[..0] == [] && counts[..2] == counts;
  }

  function Longest(msgs: seq<string>): (n: nat)
    ensures forall m :: m in msgs ==> Cells(m) <= n
  {
    if msgs == [] then 0 else
      var n := Longest(msgs[1..]);
      assert forall m :: m in msgs ==> m == msgs[0] || m in msgs[1..];
      if Cells(msgs[0]) > n then Cells(msgs[0]) else n
  }

  lemma ColumnBelowLongest(msgs: seq<string>, a: nat, b: nat, i: nat)
    requires AllMessages(msgs) && Column(msgs, a, b, i) != {}
    ensures i < Longest(msgs)
  {
    var c :| c in Column(msgs, a, b, i);
  }

  lemma InColumn(msgs: seq<string>, a: nat, b: nat, i: nat, m: string)
    requires AllMessages(msgs) && m in msgs && Cells(m) > a + b + i
    ensures Column(msgs, a, b, i) != {}
  {
    assert Cell(m, a + i) in Column(msgs, a, b, i);
  }

  lemma ColumnsEnd(msgs: seq<string>, a: nat, b: nat, n: nat)
    requires AllMessages(msgs) && Column(msgs, a, b, n) == {}
    requires n > 0 ==> Column(msgs, a, b, n - 1) != {}
    ensures forall m :: m in msgs ==> Cells(m) <= a + b + n
    ensures n > 0 ==> exists m :: m in msgs && Cells(m) == a + b + n
  {
    forall m | m in msgs ensures Cells(m) <= a + b + n {
      if Cells(m) > a + b + n {
        InColumn(msgs, a, b, n, m);
      }
    }
    if n > 0 {
      var c :| c in Column(msgs, a, b, n - 1);
      var m :| m in msgs && Cells(m) > a + (n - 1) + b && c == Cell(m, a + (n - 1));
    }
  }

  /** Where each byte of a message is found again. */
  ghost predicate Rebuilt(msgs: seq<string>, columns: seq<set<string>>, a: nat, b: nat, m: string, first: string)
    requires AllMessages(msgs) && m in msgs && first in msgs
  {
    forall c :: 0 <= c < Cells(m) ==>
      if c < a then a <= Cells(first) && Cell(m, c) == Cell(first, c)
      else if c < Cells(m) - b then c - a < |columns| && Cell(m, c) in columns[c - a]
      else b <= Cells(first) && Cell(m, c) == CellBack(first, Cells(m) - 1 - c)
  }

  /** Every message that is at least as long as both constant parts together is the common
      prefix, then one byte of each column in turn, then the common suffix. */
  lemma MessageRebuilt(msgs: seq<string>, columns: seq<set<string>>, a: nat, b: nat, m: string, first: string)
    requires AllMessages(msgs) && m in msgs && first in msgs && a + b <= Cells(m)
    requires IsCommon(msgs, a) && IsCommonSuffix(msgs, b)
    requires forall i :: 0 <= i < |columns| ==> columns[i] == Column(msgs, a, b, i)
    requires forall m :: m in msgs ==> Cells(m) <= a + b + |columns|
    ensures Rebuilt(msgs, columns, a, b, m, first)
  {
    forall c | 0 <= c < Cells(m)
      ensures if c < a then a <= Cells(first) && Cell(m, c) == Cell(first, c)
        else if c < Cells(m) - b then c - a < |columns| && Cell(m, c) in columns[c - a]
        else b <= Cells(first) && Cell(m, c) == CellBack(first, Cells(m) - 1 - c)
    {
      if c >= Cells(m) - b {
        assert CellBack(m, Cells(m) - 1 - c) == Cell(m, c);
      } else if c >= a {
        assert columns[c - a] == Column(msgs, a, b, c - a);
      }
    }
  }

  /** From a list of messages to its description: the constant ends and the columns between
      them. Every message that is not shorter than both ends together is made up of them. */
  method DescribeMessages(msgs: seq<string>, counts: seq<Count>, minimalConstantLength: int,
                          checkMinimalLength: bool, style: Style)
    returns (left: int, right: int, columns: seq<set<string>>, shown: seq<Shown>)
    requires AllMessages(msgs) && |counts| == |msgs|
    ensures msgs == [] ==> left == right == 0 && columns == [] && shown == []
    ensures msgs != [] ==>
      && IsPrefixLength(msgs, left, minimalConstantLength, checkMinimalLength)
      && IsSuffixLength(msgs, right, minimalConstantLength, checkMinimalLength)
    ensures var a, b := BytesIn(left), BytesIn(right);
      && Analyzed(msgs, Occurrences(counts), a, b, style, columns, shown)
      && (columns != [] ==> exists m :: m in msgs && Cells(m) == a + b + |columns|)
      && forall m, first :: m in msgs && first in msgs && a + b <= Cells(m) ==> Rebuilt(msgs, columns, a, b, m, first)
  {
    hide Rebuilt, IsPrefixLength, IsSuffixLength, Analyzed, Column, Show, Short;
    left, right := LongestCommonPrefixes(msgs, minimalConstantLength, checkMinimalLength);
    if msgs != [] {
      EndsCommon(msgs, left, right, minimalConstantLength, checkMinimalLength);
    }
    ghost var a, b := BytesIn(left), BytesIn(right);
    columns, shown := AnalyzeMessages(msgs, counts, left, right, style, a, b);
    AnalyzedColumns(msgs, Occurrences(counts), a, b, style, columns, shown);
    forall m, first | m in msgs && first in msgs && a + b <= Cells(m)
      ensures Rebuilt(msgs, columns, a, b, m, first)
    {
      MessageRebuilt(msgs, columns, a, b, m, first);
    }
  }

  /** The number of bytes in a constant part of so many characters. */
  function BytesIn(length: int): (k: nat) {
    if length <= 0 then 0 else (length + 1) / 3
  }

  lemma EndsCommon(msgs: seq<string>, left: int, right: int, minimal: int, checkShort: bool)
    requires msgs != [] && AllMessages(msgs)
    requires IsPrefixLength(msgs, left, minimal, checkShort) && IsSuffixLength(msgs, right, minimal, checkShort)
    ensures left == (if BytesIn(left) == 0 then 0 else 3 * BytesIn(left) - 1) && IsCommon(msgs, BytesIn(left))
    ensures right == (if BytesIn(right) == 0 then 0 else 3 * BytesIn(right) - 1) && IsCommonSuffix(msgs, BytesIn(right))
  {
    hide IsMessage, Reported, IsCommon, IsCommonSuffix, IsShortest;
    NothingCommon(msgs);
    BytesBack(MaxCommon(msgs));
    BytesBack(MaxSuffix(msgs));
  }

  lemma NothingCommon(msgs: seq<string>)
    requires AllMessages(msgs)
    ensures IsCommon(msgs, 0) && IsCommonSuffix(msgs, 0)
  {
  }

  lemma BytesBack(k: nat)
    ensures BytesIn(3 * k - 1) == k && BytesIn(0) == 0
  {
  }

  lemma AnalyzedColumns(msgs: seq<string>, total: int, a: nat, b: nat, style: Style,
                        columns: seq<set<string>>, shown: seq<Shown>)
    requires AllMessages(msgs) && Analyzed(msgs, total, a, b, style, columns, shown)
    ensures |shown| == |columns| && forall i :: 0 <= i < |columns| ==> columns[i] == Column(msgs, a, b, i)
  {
  }
}
