/** How alike two byte streams are, after `SimilarityTool.java` and `getColorForMidStream` of
    `OutputTree.java`. Floating point is read as real arithmetic. */
module Similarity {
  import opened Bytes
  import opened Messages
  import opened Sums

  // ---------------------------------------------------------------- tokens

  function TrimLeft(s: string): (t: string) {
    if s != "" && s[0] <= ' ' then TrimLeft(s[1..]) else s
  }

  function TrimRight(s: string): (t: string) {
    if s != "" && s[|s| - 1] <= ' ' then TrimRight(s[..|s| - 1]) else s
  }

  /** The pieces between single spaces. */
  function Pieces(s: string): (ps: seq<string>)
    ensures |ps| > 0
  {
    if s == "" then [""]
    else
      var ps := Pieces(s[1..]);
      if s[0] == ' ' then [""] + ps else [[s[0]] + ps[0]] + ps[1..]
  }

  function DropTrailingEmpty(ps: seq<string>): (qs: seq<string>) {
    if ps != [] && ps[|ps| - 1] == "" then DropTrailingEmpty(ps[..|ps| - 1]) else ps
  }

  /** `trim` and `split`: trailing empty pieces are dropped, unless there is no space at all. */
  function Tokens(s: string): (ts: seq<string>) {
    var ps := Pieces(TrimRight(TrimLeft(s)));
    if |ps| == 1 then ps else DropTrailingEmpty(ps)
  }

  lemma {:induction false} LastPiece(s: string)
    requires s != "" && s[|s| - 1] != ' '
    ensures Pieces(s)[|Pieces(s)| - 1] != ""
  {
    if |s| > 1 {
      LastPiece(s[1..]);
    }
  }

  lemma {:induction false} TrimmedEnd(s: string)
    ensures TrimRight(s) != "" ==> TrimRight(s)[|TrimRight(s)| - 1] > ' '
    decreases |s|
  {
    if s != "" && s[|s| - 1] <= ' ' {
      TrimmedEnd(s[..|s| - 1]);
    }
  }

  /** There is always a token, so the score is never a division by zero. */
  lemma SomeToken(s: string)
    ensures Tokens(s) != []
  {
    var t := TrimRight(TrimLeft(s));
    TrimmedEnd(TrimLeft(s));
    if t != "" {
      LastPiece(t);
    }
  }

  lemma {:induction false} OnePiece(w: string)
    requires ' ' !in w
    ensures Pieces(w) == [w]
  {
    if w != "" {
      OnePiece(w[1..]);
      assert [w[0]] + w[1..] == w;
    }
  }

  lemma {:induction false} NextPiece(w: string, rest: string)
    requires ' ' !in w
    ensures Pieces(w + " " + rest) == [w] + Pieces(rest)
  {
    var s := w + " " + rest;
    if w == "" {
      assert s[1..] == rest;
    } else {
      NextPiece(w[1..], rest);
      assert s[1..] == w[1..] + " " + rest && [s[0]] + w[1..] == w;
    }
  }

  // ---------------------------------------------------------------- tokens of messages

  /** The part between the constant ends. */
  function Middle(text: string, left: nat, right: nat): (mid: string) {
    if |text| > left + right + 1 then text[left..|text| - right] else ""
  }

  /** The length of a constant end of `k` bytes. */
  function End(k: nat): (length: nat) {
    if k == 0 then 0 else 3 * k - 1
  }

  /** The cells from `i` up to and without `j`. */
  function CellsOf(s: string, i: nat, j: nat): (cells: seq<string>)
    requires IsMessage(s) && i <= j <= Cells(s)
    ensures |cells| == j - i && forall k :: 0 <= k < j - i ==> cells[k] == Cell(s, i + k)
  {
    seq(j - i, k requires 0 <= k < j - i => Cell(s, i + k))
  }

  lemma {:induction false} CellPieces(s: string, i: nat, j: nat)
    requires IsClear(s) && i < j <= Cells(s)
    ensures Pieces(s[3 * i..3 * j - 1]) == CellsOf(s, i, j)
    decreases j - i
  {
    hide Pieces;
    var c := Cell(s, i);
    CellIsClear(s, i);
    if j == i + 1 {
      OnePiece(c);
      assert CellsOf(s, i, j) == [c];
    } else {
      var rest := s[3 * (i + 1)..3 * j - 1];
      CellPieces(s, i + 1, j);
      NextPiece(c, rest);
      assert s[3 * i + 2] == ' ';
      assert s[3 * i..3 * j - 1] == c + " " + rest;
      assert CellsOf(s, i, j) == [c] + CellsOf(s, i + 1, j);
    }
  }

  /** Trimming takes one space off at each end, if there is one. */
  lemma Trimmed(before: string, core: string, after: string)
    requires core != "" && core[0] > ' ' && core[|core| - 1] > ' '
    requires (before == "" || before == " ") && (after == "" || after == " ")
    ensures TrimRight(TrimLeft(before + core + after)) == core
  {
    var s := before + core + after;
    assert TrimLeft(s) == core + after by {
      if before == " " {
        assert s[1..] == core + after;
        assert TrimLeft(core + after) == core + after;
      } else {
        assert s == core + after;
      }
    }
    if after == " " {
      assert (core + after)[..|core|] == core;
      assert TrimRight(core) == core;
    } else {
      assert core + after == core;
    }
  }

  /** The middle of a message with ends of `a` and `b` bytes is the cells between them, with
      a space on the side of each end that is not empty. */
  lemma MiddleOf(s: string, a: nat, b: nat)
    requires IsMessage(s)
    ensures var n, mid := Cells(s), Middle(s, End(a), End(b));
      if n <= a + b then mid == ""
      else mid == (if a == 0 then "" else " ") + s[3 * a..3 * (n - b) - 1] + (if b == 0 then "" else " ")
  {
    var n, mid := Cells(s), Middle(s, End(a), End(b));
    if n > a + b {
      var core := s[3 * a..3 * (n - b) - 1];
      assert a > 0 ==> s[3 * a - 1] == ' ';
      assert b > 0 ==> s[3 * (n - b) - 1] == ' ';
      var whole := (if a == 0 then "" else " ") + core + (if b == 0 then "" else " ");
      assert |whole| == |mid|;
      assert mid == whole;
    }
  }

  /** The tokens that are compared are the bytes between the constant ends, in order, and a
      single empty one for a message without any. */
  lemma MiddleTokens(s: string, a: nat, b: nat)
    requires IsClear(s)
    ensures Tokens(Middle(s, End(a), End(b))) ==
      if Cells(s) > a + b then CellsOf(s, a, Cells(s) - b) else [""]
  {
    hide TrimLeft, TrimRight, Middle, End, Pieces, IsMessage;
    var n := Cells(s);
    MiddleOf(s, a, b);
    if n > a + b {
      var core := s[3 * a..3 * (n - b) - 1];
      CoreIsClear(s, a, n - b);
      Trimmed(if a == 0 then "" else " ", core, if b == 0 then "" else " ");
      CellPieces(s, a, n - b);
    } else {
      NoTokens();
    }
  }

  /** For a stream as it is written out: the bytes between the ends. */
  lemma TokensOfBytes(bytes: seq<Byte>, a: nat, b: nat)
    ensures var ts := Tokens(Middle(Render(bytes, " "), End(a), End(b)));
      if |bytes| > a + b then
        |ts| == |bytes| - a - b && forall k :: 0 <= k < |ts| ==> ts[k] == Hex(bytes[a + k])
      else ts == [""]
  {
    hide Tokens, Middle, End, Render, Hex;
    RenderCells(bytes);
    RenderIsClear(bytes);
    MiddleTokens(Render(bytes, " "), a, b);
  }

  lemma CoreIsClear(s: string, i: nat, j: nat)
    requires IsClear(s) && i < j <= Cells(s)
    ensures var core := s[3 * i..3 * j - 1]; core[0] > ' ' && core[|core| - 1] > ' '
  {
  }

  lemma NoTokens()
    ensures Tokens("") == [""]
  {
  }

  // ---------------------------------------------------------------- the score

  /** Twice the common tokens, as a multiset, over all tokens. */
  function Score(a: seq<string>, b: seq<string>): (r: real)
    requires a != []
  {
    2.0 * |multiset(a) * multiset(b)| as real / (|a| + |b|) as real
  }

  lemma MeetMore<T>(a: multiset<T>, b: multiset<T>, x: T)
    ensures |(a + multiset{x}) * b| == |a * b| + (if x in b - a then 1 else 0)
    ensures (b - a) - multiset{x} == b - (a + multiset{x})
  {
    assert (a + multiset{x}) * b == a * b + (if x in b - a then multiset{x} else multiset{});
  }

  /** Counts the common tokens by striking out matches in the second list. */
  method CountCommon(pairs1: seq<string>, second: seq<string>) returns (intersection: int)
    ensures intersection == |multiset(pairs1) * multiset(second)|
  {
    var pairs2 := second;
    intersection := 0;
    ghost var seen: multiset<string> := multiset{};
    var i := 0;
    while i < |pairs1|
      invariant 0 <= i <= |pairs1| && seen == multiset(pairs1[..i])
      invariant intersection == |seen * multiset(second)|
      invariant multiset(pairs2) == multiset(second) - seen
    {
      assert pairs1[..i + 1] == pairs1[..i] + [pairs1[i]];
      MeetMore(seen, multiset(second), pairs1[i]);
      var found;
      pairs2, found := Strike(pairs2, pairs1[i]);
      if found {
        intersection := intersection + 1;
      }
      seen := seen + multiset{pairs1[i]};
      i := i + 1;
    }
    assert pairs1[..|pairs1|] == pairs1;
  }

  method CompareStrings(str1: string, str2: string) returns (r: real)
    ensures Tokens(str1) != [] && r == Score(Tokens(str1), Tokens(str2))
  {
    hide Tokens;
    SomeToken(str1);
    var pairs1, pairs2 := Tokens(str1), Tokens(str2);
    var union := |pairs1| + |pairs2|;
    var intersection := CountCommon(pairs1, pairs2);
    r := 2.0 * intersection as real / union as real;
  }

  /** Removes the first occurrence of `x`. */
  method Strike(s: seq<string>, x: string) returns (t: seq<string>, found: bool)
    ensures found <==> x in multiset(s)
    ensures multiset(t) == multiset(s) - multiset{x}
  {
    t, found := s, false;
    var j := 0;
    while j < |s|
      invariant 0 <= j <= |s| && x !in s[..j]
    {
      if s[j] == x {
        assert s == s[..j] + [x] + s[j + 1..];
        return s[..j] + s[j + 1..], true;
      }
      j := j + 1;
    }
  }

  lemma MeetSize<T>(a: multiset<T>, b: multiset<T>)
    ensures |a * b| <= |a| && (|a * b| == |a| ==> a * b == a)
  {
    assert a == a * b + (a - b);
    if |a * b| == |a| {
      assert |a - b| == 0;
    }
  }

  lemma MeetCommutes<T>(a: multiset<T>, b: multiset<T>)
    ensures a * b == b * a
  {
  }

  /** The score does not depend on the order of the two streams, lies between 0 and 1, and
      is 1 exactly for the same tokens in any order. */
  lemma ScoreLaws(a: seq<string>, b: seq<string>)
    requires a != [] && b != []
    ensures Score(a, b) == Score(b, a)
    ensures 0.0 <= Score(a, b) <= 1.0
    ensures Score(a, b) == 1.0 <==> multiset(a) == multiset(b)
  {
    var m, n := multiset(a), multiset(b);
    var c, u := |m * n|, |a| + |b|;
    MeetCommutes(m, n);
    MeetSize(m, n);
    MeetSize(n, m);
    assert |m| == |a| && |n| == |b|;
    Fraction(2 * c, u);
    assert m == n ==> m * n == m;
  }

  lemma Fraction(x: nat, y: int)
    requires 0 <= x <= y && y > 0
    ensures 0.0 <= x as real / y as real <= 1.0
    ensures x as real / y as real == 1.0 <==> x == y
  {
    var q := x as real / y as real;
    assert q * y as real == x as real;
  }

  // ---------------------------------------------------------------- the colour

  function Alike(m1: Message, m2: Message, left: nat, right: nat): (r: real) {
    SomeToken(Middle(m1.text, left, right));
    Score(Tokens(Middle(m1.text, left, right)), Tokens(Middle(m2.text, left, right)))
  }

  /** The number of pairs of an occurrence of one message with one of another. */
  function Weight(m1: Message, m2: Message): (w: nat) {
    ProductPositive(m1.count, m2.count);
    m1.count * m2.count
  }

  function Term(m1: Message, m2: Message, left: nat, right: nat): (r: real) {
    Alike(m1, m2, left, right) * Weight(m1, m2) as real
  }

  /** The pairs of message `i` with the messages 1 to `n - 1`: their number and their
      similarity. */
  function RowCount(msgs: seq<Message>, i: nat, n: nat): (c: nat)
    requires i < |msgs| && n <= |msgs|
  {
    if n <= 1 then 0
    else RowCount(msgs, i, n - 1) + if i == n - 1 then 0 else Weight(msgs[i], msgs[n - 1])
  }

  function RowRank(msgs: seq<Message>, left: nat, right: nat, i: nat, n: nat): (r: real)
    requires i < |msgs| && n <= |msgs|
  {
    if n <= 1 then 0.0
    else RowRank(msgs, left, right, i, n - 1) + if i == n - 1 then 0.0 else Term(msgs[i], msgs[n - 1], left, right)
  }

  /** The pairs among the occurrences of one message. */
  function OwnPairs(c: Count): (p: nat) {
    c * (c - 1) / 2
  }

  function ComparedPairs(msgs: seq<Message>, k: nat): (c: nat)
    requires k <= |msgs|
  {
    if k == 0 then 0 else ComparedPairs(msgs, k - 1) + RowCount(msgs, k - 1, |msgs|) + OwnPairs(msgs[k - 1].count)
  }

  function ComparedRank(msgs: seq<Message>, left: nat, right: nat, k: nat): (r: real)
    requires k <= |msgs|
  {
    if k == 0 then 0.0
    else
      ComparedRank(msgs, left, right, k - 1) + RowRank(msgs, left, right, k - 1, |msgs|)
      + OwnPairs(msgs[k - 1].count) as real
  }

  lemma AlikeBounds(m1: Message, m2: Message, left: nat, right: nat)
    ensures 0.0 <= Alike(m1, m2, left, right) <= 1.0
  {
    var a, b := Tokens(Middle(m1.text, left, right)), Tokens(Middle(m2.text, left, right));
    SomeToken(Middle(m1.text, left, right));
    SomeToken(Middle(m2.text, left, right));
    hide Tokens, Score;
    ScoreLaws(a, b);
  }

  /** The bytes of a message between ends of `a` and `b` bytes, or an empty one. */
  function Between(s: string, a: nat, b: nat): (cells: seq<string>)
    requires IsMessage(s)
    ensures cells != []
  {
    if Cells(s) > a + b then CellsOf(s, a, Cells(s) - b) else [""]
  }

  lemma AlikeAsScore(m1: Message, m2: Message, a: nat, b: nat)
    requires IsClear(m1.text) && IsClear(m2.text)
    ensures Alike(m1, m2, End(a), End(b)) == Score(Between(m1.text, a, b), Between(m2.text, a, b))
  {
    hide Tokens, Middle, Score, End;
    MiddleTokens(m1.text, a, b);
    MiddleTokens(m2.text, a, b);
  }

  lemma ScoreIs(a: seq<string>, b: seq<string>)
    requires a != []
    ensures Score(a, b) == (2 * |multiset(a) * multiset(b)|) as real / (|a| + |b|) as real
  {
  }

  /** The likeness of two messages between ends of `a` and `b` bytes: twice the number of
      common bytes, as multisets, over the number of all. */
  lemma AlikeCells(m1: Message, m2: Message, a: nat, b: nat)
    requires IsClear(m1.text) && IsClear(m2.text)
    ensures var c1, c2 := Between(m1.text, a, b), Between(m2.text, a, b);
      Alike(m1, m2, End(a), End(b)) == (2 * |multiset(c1) * multiset(c2)|) as real / (|c1| + |c2|) as real
  {
    hide Alike, Score, Between, End;
    AlikeAsScore(m1, m2, a, b);
    ScoreIs(Between(m1.text, a, b), Between(m2.text, a, b));
  }

  /** A pair of messages adds its likeness for every pair of their occurrences. */
  lemma TermIs(m1: Message, m2: Message, left: nat, right: nat)
    ensures Term(m1, m2, left, right) == Alike(m1, m2, left, right) * (m1.count * m2.count) as real
  {
    hide Alike;
  }

  lemma ScaledBounds(x: real, c: nat)
    requires 0.0 <= x <= 1.0
    ensures 0.0 <= x * c as real <= c as real
  {
    var y := c as real;
    assert y - x * y == (1.0 - x) * y;
  }

  lemma TermBounds(m1: Message, m2: Message, left: nat, right: nat)
    ensures 0.0 <= Term(m1, m2, left, right) <= Weight(m1, m2) as real
  {
    hide Alike, Weight;
    AlikeBounds(m1, m2, left, right);
    var x, w := Alike(m1, m2, left, right), Weight(m1, m2);
    assert Term(m1, m2, left, right) == x * w as real;
    ScaledBounds(x, w);
  }

  lemma {:induction false} RowBounds(msgs: seq<Message>, left: nat, right: nat, i: nat, n: nat)
    requires i < |msgs| && n <= |msgs|
    ensures 0.0 <= RowRank(msgs, left, right, i, n) <= RowCount(msgs, i, n) as real
  {
    hide Term, Weight;
    if n > 1 {
      RowBounds(msgs, left, right, i, n - 1);
      if i != n - 1 {
        var w := Weight(msgs[i], msgs[n - 1]);
        TermBounds(msgs[i], msgs[n - 1], left, right);
        assert RowCount(msgs, i, n) as real == RowCount(msgs, i, n - 1) as real + w as real;
      }
    }
  }

  /** The rank lies between 0 and the number of pairs it was summed over. */
  lemma {:induction false} RankBounds(msgs: seq<Message>, left: nat, right: nat, k: nat)
    requires k <= |msgs|
    ensures 0.0 <= ComparedRank(msgs, left, right, k) <= ComparedPairs(msgs, k) as real
  {
    hide RowRank, RowCount, OwnPairs;
    if k > 0 {
      RankBounds(msgs, left, right, k - 1);
      RowBounds(msgs, left, right, k - 1, |msgs|);
      var own := OwnPairs(msgs[k - 1].count);
      assert ComparedPairs(msgs, k) as real
        == ComparedPairs(msgs, k - 1) as real + RowCount(msgs, k - 1, |msgs|) as real + own as real;
    }
  }

  lemma {:induction false} RowPositive(msgs: seq<Message>, i: nat, n: nat)
    requires i < |msgs| && n <= |msgs|
    ensures RowCount(msgs, i, n) > 0 <==> n > 2 || (n == 2 && i != 1)
  {
    if n > 1 {
      RowPositive(msgs, i, n - 1);
      if i != n - 1 {
        ProductPositive(msgs[i].count, msgs[n - 1].count);
      }
    }
  }

  lemma ProductPositive(a: int, b: int)
    requires a > 0 && b > 0
    ensures a * b > 0
  {
  }

  lemma OwnPairsPositive(c: Count)
    ensures OwnPairs(c) > 0 <==> c > 1
  {
    if c > 1 {
      assert c * (c - 1) >= 2 by { ProductPositive(c - 1, c - 1); assert c * (c - 1) == (c - 1) * (c - 1) + (c - 1); }
    }
  }

  lemma {:induction false} CountGrows(msgs: seq<Message>, k: nat, n: nat)
    requires k <= n <= |msgs|
    ensures ComparedPairs(msgs, k) <= ComparedPairs(msgs, n)
  {
    if k < n {
      CountGrows(msgs, k, n - 1);
    }
  }

  /** The average is undefined exactly when there is no pair: no message, or one message
      that occurred once. */
  lemma NoPairs(msgs: seq<Message>)
    ensures ComparedPairs(msgs, |msgs|) == 0 <==> msgs == [] || (|msgs| == 1 && msgs[0].count == 1)
  {
    if |msgs| == 1 {
      assert ComparedPairs(msgs, 0) == 0;
      OwnPairsPositive(msgs[0].count);
    } else if |msgs| > 1 {
      RowPositive(msgs, 0, |msgs|);
      assert ComparedPairs(msgs, 0) == 0;
      CountGrows(msgs, 1, |msgs|);
    }
  }

  /** Two messages with one common byte of two between their ends are alike by one half,
      which is not enough. */
  lemma HalfAlike(x: Message, y: Message)
    requires x == Message("00 AA CC 01", 1) && y == Message("00 CC BB 01", 1)
    ensures Alike(x, y, 2, 2) == 0.5
    ensures ComparedRank([x, y], 2, 2, 2) == 0.5 && ComparedPairs([x, y], 2) == 1
    ensures !Similar([x, y], 2, 2)
  {
    AlikeByHalf(x, y);
    hide Alike;
    var msgs := [x, y];
    assert Term(x, y, 2, 2) == 0.5;
    assert RowRank(msgs, 2, 2, 0, 1) == 0.0 && RowCount(msgs, 0, 1) == 0;
    assert RowRank(msgs, 2, 2, 1, 1) == 0.0 && RowCount(msgs, 1, 1) == 0;
    assert RowRank(msgs, 2, 2, 0, 2) == 0.5 && RowRank(msgs, 2, 2, 1, 2) == 0.0;
    assert RowCount(msgs, 0, 2) == 1 && RowCount(msgs, 1, 2) == 0;
    assert OwnPairs(1) == 0;
    assert ComparedRank(msgs, 2, 2, 0) == 0.0 && ComparedPairs(msgs, 0) == 0;
    assert ComparedRank(msgs, 2, 2, 1) == 0.5 && ComparedPairs(msgs, 1) == 1;
  }

  lemma AlikeByHalf(x: Message, y: Message)
    requires x == Message("00 AA CC 01", 1) && y == Message("00 CC BB 01", 1)
    ensures Alike(x, y, 2, 2) == 0.5
  {
    hide Alike;
    var v, w, u := "AA", "CC", "BB";
    assert x.text == "00 " + v + " " + w + " 01" && y.text == "00 " + w + " " + u + " 01";
    OneOfTwoCommon(x, y, v, w, u);
  }

  lemma OneOfTwoCommon(x: Message, y: Message, v: string, w: string, u: string)
    requires x.text == "00 " + v + " " + w + " 01" && y.text == "00 " + w + " " + u + " 01"
    requires |v| == |w| == |u| == 2 && v != w && w != u && v != u
    requires v[0] > ' ' && v[1] > ' ' && w[0] > ' ' && w[1] > ' ' && u[0] > ' ' && u[1] > ' '
    ensures Alike(x, y, 2, 2) == 0.5
  {
    hide Alike, Between, IsClear, IsMessage;
    FourCells(x.text, v, w);
    FourCells(y.text, w, u);
    AlikeInOne(x, y, v, w, u);
  }

  lemma AlikeInOne(x: Message, y: Message, v: string, w: string, u: string)
    requires IsClear(x.text) && Between(x.text, 1, 1) == [v, w]
    requires IsClear(y.text) && Between(y.text, 1, 1) == [w, u]
    requires v != w && w != u && v != u
    ensures Alike(x, y, 2, 2) == 0.5
  {
    hide Alike, Between, IsClear, IsMessage;
    OneCommon(v, w, u);
    AlikeCells(x, y, 1, 1);
  }

  lemma OneCommon<T>(v: T, w: T, u: T)
    requires v != w && w != u && v != u
    ensures |multiset([v, w]) * multiset([w, u])| == 1
  {
    assert multiset([v, w]) * multiset([w, u]) == multiset{w};
  }

  lemma FourCells(s: string, v: string, w: string)
    requires s == "00 " + v + " " + w + " 01" && |v| == |w| == 2
    requires v[0] > ' ' && v[1] > ' ' && w[0] > ' ' && w[1] > ' '
    ensures IsClear(s) && Between(s, 1, 1) == [v, w]
  {
    assert |s| == 11;
    assert s[3..5] == v && s[6..8] == w;
    assert CellsOf(s, 1, 3)[0] == v && CellsOf(s, 1, 3)[1] == w;
  }

  /** The average over the pairs is above one half. */
  predicate Similar(msgs: seq<Message>, left: nat, right: nat) {
    2.0 * ComparedRank(msgs, left, right, |msgs|) > ComparedPairs(msgs, |msgs|) as real
  }

  /** The pairs of one message with all others but the first one. */
  method CompareWithOthers(msgs: seq<Message>, i: nat, leftIndex: nat, rightIndex: nat, rank: real, pairs: int)
    returns (similarityRank: real, count: int)
    requires i < |msgs|
    ensures similarityRank == rank + RowRank(msgs, leftIndex, rightIndex, i, |msgs|)
    ensures count == pairs + RowCount(msgs, i, |msgs|)
  {
    hide Tokens, Score, Middle, Term;
    similarityRank, count := rank, pairs;
    var j := 1;
    while j < |msgs|
      invariant 1 <= j <= |msgs|
      invariant similarityRank == rank + RowRank(msgs, leftIndex, rightIndex, i, j)
      invariant count == pairs + RowCount(msgs, i, j)
    {
      if i != j {
        var msg1, msg2 := Middle(msgs[i].text, leftIndex, rightIndex), Middle(msgs[j].text, leftIndex, rightIndex);
        var currentRank := CompareStrings(msg1, msg2);
        TermIs(msgs[i], msgs[j], leftIndex, rightIndex);
        var msgCount := msgs[i].count * msgs[j].count;
        similarityRank := similarityRank + currentRank * msgCount as real;
        count := count + msgCount;
      }
      j := j + 1;
    }
  }

  /** Sums up the pairs and decides on the colour; without any pair the stream is not similar. */
  method GetColorForMidStream(msgs: seq<Message>, leftIndex: nat, rightIndex: nat)
    returns (similarityRank: real, count: int, similar: bool)
    ensures similarityRank == ComparedRank(msgs, leftIndex, rightIndex, |msgs|) && count == ComparedPairs(msgs, |msgs|)
    ensures 0.0 <= similarityRank <= count as real
    ensures similar <==> Similar(msgs, leftIndex, rightIndex)
    ensures similar <==> 2.0 * similarityRank > count as real
  {
    hide RowRank, RowCount;
    similarityRank, count := 0.0, 0;
    for i := 0 to |msgs|
      invariant similarityRank == ComparedRank(msgs, leftIndex, rightIndex, i) && count == ComparedPairs(msgs, i)
    {
      similarityRank, count := CompareWithOthers(msgs, i, leftIndex, rightIndex, similarityRank, count);
      var msgCount := msgs[i].count;
      assert msgCount == 1 ==> OwnPairs(msgCount) == 0;
      if msgCount > 1 {
        var pairs := msgCount * (msgCount - 1) / 2;
        similarityRank := similarityRank + pairs as real;
        count := count + pairs;
      }
    }
    RankBounds(msgs, leftIndex, rightIndex, |msgs|);
    similar := count != 0 && similarityRank / count as real > 0.5;
    Half(similarityRank, count);
  }

  lemma Half(r: real, c: int)
    requires 0.0 <= r <= c as real
    ensures (c != 0 && r / c as real > 0.5) <==> 2.0 * r > c as real
  {
    if c != 0 {
      var q := r / c as real;
      assert q * c as real == r;
      if q > 0.5 {
        Positive(q - 0.5, c as real);
        assert (q - 0.5) * c as real == r - 0.5 * c as real;
      } else if q < 0.5 {
        Positive(0.5 - q, c as real);
        assert (0.5 - q) * c as real == 0.5 * c as real - r;
      }
    }
  }
}
