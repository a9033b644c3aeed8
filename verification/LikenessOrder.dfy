/** What the order of the messages does to their likeness, which `getColorForMidStream` of
    `OutputTree.java` averages over pairs: with the first message a pair counts once, among
    the others twice. */
module LikenessOrder {
  import opened Messages
  import opened Similarity
  import opened Sums

  // ---------------------------------------------------------------- the number of pairs

  function SquareOf(m: Message): int {
    m.count * m.count
  }

  lemma SumFirst(msgs: seq<Message>, f: Message -> int)
    requires msgs != []
    ensures Sum(msgs[..1], f) == f(msgs[0])
  {
    assert msgs[..1][..0] == [];
  }

  /** A message is paired with all others except the first one. */
  lemma {:induction false} RowClosed(msgs: seq<Message>, i: nat, n: nat)
    requires i < |msgs| && 1 <= n <= |msgs|
    ensures RowCount(msgs, i, n) ==
      msgs[i].count * (Sum(msgs[..n], CountOf) - msgs[0].count - if 1 <= i < n then msgs[i].count else 0)
  {
    var c := msgs[i].count;
    if n == 1 {
      SumFirst(msgs, CountOf);
    } else {
      RowClosed(msgs, i, n - 1);
      SumNext(msgs, CountOf, n - 1);
      var before := Sum(msgs[..n - 1], CountOf) - msgs[0].count - if 1 <= i < n - 1 then c else 0;
      Distribute(c, before, msgs[n - 1].count);
    }
  }

  lemma TwiceOwnPairs(c: Count)
    ensures 2 * OwnPairs(c) == c * c - c
  {
    EvenProduct(c);
    Distribute(c, c, -1);
  }

  lemma {:induction false} EvenProduct(c: Count)
    ensures c * (c - 1) % 2 == 0
  {
    if c > 1 {
      EvenProduct(c - 1);
      assert c * (c - 1) == (c - 1) * (c - 1 - 1) + 2 * (c - 1);
    }
  }

  lemma {:induction false} PairsClosed(msgs: seq<Message>, k: nat)
    requires 1 <= k <= |msgs|
    ensures var all, first := Sum(msgs, CountOf), msgs[0].count;
      2 * ComparedPairs(msgs, k) == 2 * ((all - first) * Sum(msgs[..k], CountOf)) - Sum(msgs[..k], SquareOf)
        + 2 * (first * first) - Sum(msgs[..k], CountOf)
  {
    hide RowCount, OwnPairs, Sum;
    var all, first, c := Sum(msgs, CountOf), msgs[0].count, msgs[k - 1].count;
    assert msgs[..|msgs|] == msgs;
    RowClosed(msgs, k - 1, |msgs|);
    TwiceOwnPairs(c);
    if k == 1 {
      SumFirst(msgs, CountOf);
      SumFirst(msgs, SquareOf);
      assert ComparedPairs(msgs, 1) == ComparedPairs(msgs, 0) + RowCount(msgs, 0, |msgs|) + OwnPairs(first);
      Commute(first, all - first);
    } else {
      PairsClosed(msgs, k - 1);
      SumNext(msgs, CountOf, k - 1);
      SumNext(msgs, SquareOf, k - 1);
      PairsStep(all - first, c, Sum(msgs[..k - 1], CountOf));
    }
  }

  lemma Commute(x: int, y: int)
    ensures x * y == y * x
  {
  }

  lemma PairsStep(x: int, c: int, s: int)
    ensures x * (s + c) - c * (x - c) == x * s + c * c
  {
    Distribute(x, s, c);
    Distribute(c, x, -c);
  }

  /** How many pairs are compared: with the first message each pair counts once, among the
      others twice, and within one message once. */
  lemma PairsCompared(msgs: seq<Message>)
    requires msgs != []
    ensures var all, first := Sum(msgs, CountOf), msgs[0].count;
      2 * ComparedPairs(msgs, |msgs|) ==
      2 * (all * all) - 2 * (all * first) + 2 * (first * first) - Sum(msgs, SquareOf) - all
  {
    hide ComparedPairs, Sum;
    var all, first := Sum(msgs, CountOf), msgs[0].count;
    assert msgs[..|msgs|] == msgs;
    PairsClosed(msgs, |msgs|);
    Multiply(all, first);
  }

  lemma Multiply(x: int, y: int)
    ensures (x - y) * x == x * x - x * y
  {
  }

  /** For two orders of the same messages, as many pairs are compared if and only if the
      messages that come first occurred equally often, or together make up all. */
  lemma OrderOfPairs(a: seq<Message>, b: seq<Message>)
    requires multiset(a) == multiset(b) && a != [] && b != []
    ensures ComparedPairs(a, |a|) == ComparedPairs(b, |b|) <==>
      a[0].count == b[0].count || a[0].count + b[0].count == Sum(a, CountOf)
  {
    hide ComparedPairs;
    PairsCompared(a);
    PairsCompared(b);
    SumSame(a, b, CountOf);
    SumSame(a, b, SquareOf);
    Factor(Sum(a, CountOf), a[0].count, b[0].count);
  }

  lemma Factor(all: int, x: int, y: int)
    ensures x * x - all * x == y * y - all * y <==> x == y || x + y == all
  {
    assert (x - y) * (x + y - all) == (x * x - all * x) - (y * y - all * y);
    NoZeroProduct(x - y, x + y - all);
  }

  lemma NoZeroProduct(x: int, y: int)
    ensures x * y == 0 <==> x == 0 || y == 0
  {
  }

  // ---------------------------------------------------------------- the rank

  function Beside(m: Message, left: nat, right: nat): Message -> real {
    x => Term(x, m, left, right)
  }

  function From(m: Message, left: nat, right: nat): Message -> real {
    x => Term(m, x, left, right)
  }

  lemma TermCommutes(x: Message, y: Message, left: nat, right: nat)
    ensures Term(x, y, left, right) == Term(y, x, left, right)
  {
    hide Tokens, Score;
    SomeToken(Middle(x.text, left, right));
    SomeToken(Middle(y.text, left, right));
    ScoreLaws(Tokens(Middle(x.text, left, right)), Tokens(Middle(y.text, left, right)));
  }

  /** The likeness of the message `m` and all others. */
  function WithOthers(msgs: seq<Message>, m: Message, left: nat, right: nat): (r: real) {
    RealSum(msgs, Beside(m, left, right)) - Term(m, m, left, right)
  }

  /** What every message adds to the rank, if pairs with the first one counted twice, too. */
  function Share(msgs: seq<Message>, left: nat, right: nat): Message -> real {
    m => RealSum(msgs, From(m, left, right)) - Term(m, m, left, right) + OwnPairs(m.count) as real
  }

  function FullRank(msgs: seq<Message>, left: nat, right: nat): (r: real) {
    RealSum(msgs, Share(msgs, left, right))
  }

  lemma {:induction false} RowRankClosed(msgs: seq<Message>, left: nat, right: nat, i: nat, n: nat)
    requires i < |msgs| && 1 <= n <= |msgs|
    ensures RowRank(msgs, left, right, i, n) ==
      RealSum(msgs[..n], From(msgs[i], left, right)) - Term(msgs[i], msgs[0], left, right)
      - if 1 <= i < n then Term(msgs[i], msgs[i], left, right) else 0.0
  {
    hide Term;
    if n == 1 {
      assert msgs[..1][..0] == [];
    } else {
      RowRankClosed(msgs, left, right, i, n - 1);
      RealSumNext(msgs, From(msgs[i], left, right), n - 1);
    }
  }

  lemma {:induction false} RankClosed(msgs: seq<Message>, left: nat, right: nat, k: nat)
    requires 1 <= k <= |msgs|
    ensures ComparedRank(msgs, left, right, k) ==
      RealSum(msgs[..k], Share(msgs, left, right)) - RealSum(msgs[..k], Beside(msgs[0], left, right))
      + Term(msgs[0], msgs[0], left, right)
  {
    hide Term, RowRank, OwnPairs;
    RowRankClosed(msgs, left, right, k - 1, |msgs|);
    assert msgs[..|msgs|] == msgs;
    RealSumNext(msgs, Share(msgs, left, right), k - 1);
    RealSumNext(msgs, Beside(msgs[0], left, right), k - 1);
    if k == 1 {
      assert msgs[..0] == [];
      assert ComparedRank(msgs, left, right, 0) == 0.0;
    } else {
      RankClosed(msgs, left, right, k - 1);
    }
  }

  /** The rank falls short of the full one by the likeness of the first message and the
      others, which is counted only once. */
  lemma RankByFirst(msgs: seq<Message>, left: nat, right: nat)
    requires msgs != []
    ensures ComparedRank(msgs, left, right, |msgs|) ==
      FullRank(msgs, left, right) - WithOthers(msgs, msgs[0], left, right)
  {
    hide Term, ComparedRank;
    RankClosed(msgs, left, right, |msgs|);
    assert msgs[..|msgs|] == msgs;
  }

  lemma SameWithOthers(a: seq<Message>, b: seq<Message>, m: Message, left: nat, right: nat)
    requires multiset(a) == multiset(b)
    ensures WithOthers(a, m, left, right) == WithOthers(b, m, left, right)
  {
    RealSumSame(a, b, Beside(m, left, right));
  }

  lemma SameFullRank(a: seq<Message>, b: seq<Message>, left: nat, right: nat)
    requires multiset(a) == multiset(b)
    ensures FullRank(a, left, right) == FullRank(b, left, right)
  {
    hide Term, OwnPairs;
    forall i | 0 <= i < |a|
      ensures Share(a, left, right)(a[i]) == Share(b, left, right)(a[i])
    {
      RealSumSame(a, b, From(a[i], left, right));
    }
    RealSumEqual(a, Share(a, left, right), Share(b, left, right));
    RealSumSame(a, b, Share(b, left, right));
  }

  /** Two orders of the same messages have ranks that differ by the likeness of their first
      messages and the others. */
  lemma OrderOfRank(a: seq<Message>, b: seq<Message>, left: nat, right: nat)
    requires multiset(a) == multiset(b) && a != [] && b != []
    ensures ComparedRank(a, left, right, |a|) + WithOthers(a, a[0], left, right) ==
      ComparedRank(b, left, right, |b|) + WithOthers(a, b[0], left, right)
  {
    hide ComparedRank, FullRank, WithOthers;
    RankByFirst(a, left, right);
    RankByFirst(b, left, right);
    SameFullRank(a, b, left, right);
    SameWithOthers(a, b, b[0], left, right);
  }

  // ---------------------------------------------------------------- the colour

  /** How far all messages are above one half on the average, if all pairs counted twice. */
  function Margin(msgs: seq<Message>, left: nat, right: nat): (r: real) {
    var all := Sum(msgs, CountOf);
    4.0 * FullRank(msgs, left, right) - (2 * (all * all) - Sum(msgs, SquareOf) - all) as real
  }

  /** The same for the pairs of the message `m` with the others, once. */
  function Lead(msgs: seq<Message>, m: Message, left: nat, right: nat): (r: real) {
    4.0 * WithOthers(msgs, m, left, right) - (2 * (Sum(msgs, CountOf) * m.count) - 2 * (m.count * m.count)) as real
  }

  /** With the message `m` first, the stream is similar. */
  predicate Above(msgs: seq<Message>, m: Message, left: nat, right: nat) {
    Margin(msgs, left, right) > Lead(msgs, m, left, right)
  }

  /** The colour depends on the messages and on which of them comes first. */
  lemma ColourByFirst(msgs: seq<Message>, left: nat, right: nat)
    requires msgs != []
    ensures Similar(msgs, left, right) <==> Above(msgs, msgs[0], left, right)
  {
    hide ComparedRank, ComparedPairs, FullRank, WithOthers;
    RankByFirst(msgs, left, right);
    PairsCompared(msgs);
  }

  lemma SameMargin(a: seq<Message>, b: seq<Message>, m: Message, left: nat, right: nat)
    requires multiset(a) == multiset(b)
    ensures Margin(a, left, right) == Margin(b, left, right)
    ensures Lead(a, m, left, right) == Lead(b, m, left, right)
    ensures Above(a, m, left, right) <==> Above(b, m, left, right)
  {
    hide FullRank, WithOthers, Sum;
    SameFullRank(a, b, left, right);
    SameWithOthers(a, b, m, left, right);
    SumSame(a, b, CountOf);
    SumSame(a, b, SquareOf);
  }

  /** Two orders of the same messages get the same colour if and only if the margin is above
      the lead of both their first messages, or of none. */
  lemma OrderOfColour(a: seq<Message>, b: seq<Message>, left: nat, right: nat)
    requires multiset(a) == multiset(b) && a != [] && b != []
    ensures (Similar(a, left, right) <==> Similar(b, left, right)) <==>
      (Above(a, a[0], left, right) <==> Above(a, b[0], left, right))
    ensures a[0] == b[0] ==>
      && ComparedRank(a, left, right, |a|) == ComparedRank(b, left, right, |b|)
      && ComparedPairs(a, |a|) == ComparedPairs(b, |b|)
      && (Similar(a, left, right) <==> Similar(b, left, right))
  {
    hide ComparedRank, ComparedPairs, WithOthers, Above, Similar;
    ColourByFirst(a, left, right);
    ColourByFirst(b, left, right);
    SameMargin(a, b, b[0], left, right);
    OrderOfRank(a, b, left, right);
    OrderOfPairs(a, b);
  }

  /** The message at `k` first, and the others in order. */
  function First(msgs: seq<Message>, k: nat): (ms: seq<Message>)
    requires k < |msgs|
    ensures multiset(ms) == multiset(msgs) && ms != [] && ms[0] == msgs[k]
  {
    assert msgs == msgs[..k] + [msgs[k]] + msgs[k + 1..];
    [msgs[k]] + msgs[..k] + msgs[k + 1..]
  }

  ghost predicate OneColour(msgs: seq<Message>, left: nat, right: nat) {
    forall ms {:trigger Similar(ms, left, right)} :: multiset(ms) == multiset(msgs) ==>
      (Similar(ms, left, right) <==> Similar(msgs, left, right))
  }

  /** All orders get one colour if and only if the margin is above the lead of all
      messages, or of none. */
  lemma ColourOfAllOrders(msgs: seq<Message>, left: nat, right: nat)
    requires msgs != []
    ensures OneColour(msgs, left, right) <==>
      forall m, m' :: m in msgs && m' in msgs ==> (Above(msgs, m, left, right) <==> Above(msgs, m', left, right))
  {
    hide Above, Similar;
    if OneColour(msgs, left, right) {
      forall m | m in msgs
        ensures Above(msgs, m, left, right) <==> Above(msgs, msgs[0], left, right)
      {
        var k :| 0 <= k < |msgs| && msgs[k] == m;
        OrderOfColour(msgs, First(msgs, k), left, right);
      }
    }
    if forall m, m' :: m in msgs && m' in msgs ==> (Above(msgs, m, left, right) <==> Above(msgs, m', left, right)) {
      forall ms {:trigger Similar(ms, left, right)} | multiset(ms) == multiset(msgs)
        ensures Similar(ms, left, right) <==> Similar(msgs, left, right)
      {
        SomeFirst(msgs, ms);
        OrderOfColour(msgs, ms, left, right);
      }
    }
  }

  lemma SomeFirst(msgs: seq<Message>, ms: seq<Message>)
    requires msgs != [] && multiset(ms) == multiset(msgs)
    ensures ms != [] && ms[0] in msgs
  {
    assert |multiset(ms)| == |multiset(msgs)|;
    assert ms[0] in multiset(ms);
  }

  // ---------------------------------------------------------------- an input

  lemma TwoTokens(v: string, w: string)
    requires v != "" && w != "" && (forall c :: c in v || c in w ==> c > ' ')
    ensures Tokens(v + " " + w) == [v, w]
  {
    var s := v + " " + w;
    assert s[0] == v[0] && v[0] in v && s[|s| - 1] == w[|w| - 1] && w[|w| - 1] in w;
    assert TrimRight(TrimLeft(s)) == s;
    NextPiece(v, w);
    OnePiece(w);
    assert Pieces(s) == [v, w];
  }

  lemma FiveTokens(s: string)
    requires s == "AA CC CC CC CC"
    ensures Tokens(s) == ["AA", "CC", "CC", "CC", "CC"]
  {
    var c := "CC";
    OnePiece(c);
    NextPiece(c, c);
    NextPiece(c, c + " " + c);
    NextPiece(c, c + " " + (c + " " + c));
    NextPiece("AA", c + " " + (c + " " + (c + " " + c)));
    assert s == "AA" + " " + (c + " " + (c + " " + (c + " " + c)));
    assert Pieces(s) == ["AA", c, c, c, c];
    assert s[0] == 'A' && s[|s| - 1] == 'C';
  }

  lemma RankOfThree(x: Message, y: Message, z: Message, left: nat, right: nat)
    requires x.count == y.count == z.count == 1
    ensures var msgs := [x, y, z];
      && ComparedRank(msgs, left, right, 3) ==
        Term(x, y, left, right) + Term(x, z, left, right) + Term(y, z, left, right) + Term(z, y, left, right)
      && ComparedPairs(msgs, 3) == 4
  {
    hide Term;
    var msgs := [x, y, z];
    forall i | 0 <= i < 3
      ensures RowRank(msgs, left, right, i, 3) == (if i == 1 then 0.0 else Term(msgs[i], y, left, right))
        + (if i == 2 then 0.0 else Term(msgs[i], z, left, right))
      ensures RowCount(msgs, i, 3) == if i == 0 then 2 else 1
    {
      assert RowRank(msgs, left, right, i, 1) == 0.0 && RowCount(msgs, i, 1) == 0;
      assert RowRank(msgs, left, right, i, 2) == if i == 1 then 0.0 else Term(msgs[i], y, left, right);
      assert RowCount(msgs, i, 2) == if i == 1 then 0 else 1;
    }
    assert RowRank(msgs, left, right, 0, 3) == Term(x, y, left, right) + Term(x, z, left, right);
    assert RowRank(msgs, left, right, 1, 3) == Term(y, z, left, right);
    assert RowRank(msgs, left, right, 2, 3) == Term(z, y, left, right);
    assert OwnPairs(1) == 0;
    assert ComparedRank(msgs, left, right, 0) == 0.0 && ComparedPairs(msgs, 0) == 0;
    assert ComparedRank(msgs, left, right, 1) == RowRank(msgs, left, right, 0, 3) && ComparedPairs(msgs, 1) == 2;
    assert ComparedRank(msgs, left, right, 2) ==
      RowRank(msgs, left, right, 0, 3) + RowRank(msgs, left, right, 1, 3) && ComparedPairs(msgs, 2) == 3;
    assert ComparedRank(msgs, left, right, 3) ==
      ComparedRank(msgs, left, right, 2) + RowRank(msgs, left, right, 2, 3) && ComparedPairs(msgs, 3) == 4;
  }

  /** Three messages, each of which occurred once: the colour depends on which one comes
      first, although four pairs are compared either way. */
  lemma OrderChangesColour(x: Message, y: Message, z: Message)
    requires x == Message("AA BB", 1) && y == Message("BB AA", 1) && z == Message("AA CC CC CC CC", 1)
    ensures multiset([x, y, z]) == multiset([z, x, y])
    ensures ComparedPairs([x, y, z], 3) == ComparedPairs([z, x, y], 3) == 4
    ensures !Similar([x, y, z], 0, 0) && Similar([z, x, y], 0, 0)
  {
    hide ComparedRank, ComparedPairs, Tokens, Term;
    var a, b := [x, y, z], [z, x, y];
    assert multiset(a) == multiset(b);
    RankOfThree(x, y, z, 0, 0);
    RankOfThree(z, x, y, 0, 0);
    TermsOfThree(x, y, z);
    TermCommutes(x, y, 0, 0);
    TermCommutes(x, z, 0, 0);
    TermCommutes(y, z, 0, 0);
  }

  lemma TermsOfThree(x: Message, y: Message, z: Message)
    requires x == Message("AA BB", 1) && y == Message("BB AA", 1) && z == Message("AA CC CC CC CC", 1)
    ensures Term(x, y, 0, 0) == 1.0 && Term(x, z, 0, 0) == Term(y, z, 0, 0) == 2.0 / 7.0
  {
    hide Tokens;
    var a, b, c := "AA", "BB", "CC";
    assert x.text == a + " " + b && y.text == b + " " + a;
    TwoTokens(a, b);
    TwoTokens(b, a);
    FiveTokens(z.text);
    assert Middle(x.text, 0, 0) == x.text && Middle(y.text, 0, 0) == y.text && Middle(z.text, 0, 0) == z.text;
    var p, q, r := multiset([a, b]), multiset([b, a]), multiset([a, c, c, c, c]);
    assert p * q == multiset{a, b} && p * r == multiset{a} && q * r == multiset{a};
    assert |[a, b]| == 2 && |[a, c, c, c, c]| == 5;
  }
}
