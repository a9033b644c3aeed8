/** The constant bytes at both ends of a list of messages, after `longestCommonPrefix` and
    `longestCommonPrefixes` of `OutputTree.java`. */
module CommonPrefix {
  import opened Messages

  /** All messages have at least `k` bytes and share the first `k`. */
  ghost predicate IsCommon(strs: seq<string>, k: int)
    requires forall s :: s in strs ==> IsMessage(s)
  {
    && 0 <= k
    && (forall s :: s in strs ==> k <= Cells(s))
    && (forall s, t, c :: s in strs && t in strs && 0 <= c < k ==> Cell(s, c) == Cell(t, c))
  }

  lemma CommonExists(strs: seq<string>, k: nat)
    requires strs != [] && forall s :: s in strs ==> IsMessage(s)
    requires IsCommon(strs, k)
    ensures exists m :: IsCommon(strs, m) && !IsCommon(strs, m + 1)
    decreases Cells(strs[0]) - k
  {
    if IsCommon(strs, k + 1) {
      CommonExists(strs, k + 1);
    }
  }

  /** The number of leading bytes common to all messages. */
  ghost function MaxCommon(strs: seq<string>): (k: nat)
    requires strs != [] && forall s :: s in strs ==> IsMessage(s)
    ensures IsCommon(strs, k) && !IsCommon(strs, k + 1)
  {
    CommonExists(strs, 0);
    var m :| IsCommon(strs, m) && !IsCommon(strs, m + 1);
    m
  }

  lemma MaxCommonIs(strs: seq<string>, k: int)
    requires strs != [] && forall s :: s in strs ==> IsMessage(s)
    requires IsCommon(strs, k) && !IsCommon(strs, k + 1)
    ensures MaxCommon(strs) == k
  {
  }

  /** Is a common part of `k` bytes reported, when the shortest message has `n`? A message
      that is common as a whole must be longer than the minimum, or the check be off. */
  predicate Reported(k: nat, n: nat, minimal: int, checkShort: bool) {
    if k == n then 3 * n - 1 >= 3 * minimal || !checkShort else k >= minimal
  }

  /** The messages `strs` agree with `minStr` up to `end`. */
  ghost predicate AgreeTo(strs: seq<string>, minStr: string, end: int)
    requires IsMessage(minStr) && forall s :: s in strs ==> IsMessage(s) && |minStr| <= |s|
  {
    && (end == |minStr| || (0 <= end < |minStr| && end % 3 == 0))
    && (forall s, c :: s in strs && 0 <= c < (end + 1) / 3 ==> Cell(s, c) == Cell(minStr, c))
    && (end < |minStr| ==> exists s :: s in strs && Cell(s, end / 3) != Cell(minStr, end / 3))
  }

  /** The loop over one message. */
  method Compare(minStr: string, str: string, end: int) returns (end': int)
    requires IsMessage(minStr) && IsMessage(str) && |minStr| <= |str|
    requires end == |minStr| || (0 <= end < |minStr| && end % 3 == 0)
    ensures end' == end || (0 <= end' < end && end' % 3 == 0 && Cell(str, end' / 3) != Cell(minStr, end' / 3))
    ensures forall c :: 0 <= c < (end' + 1) / 3 ==> Cell(str, c) == Cell(minStr, c)
  {
    end' := end;
    var j := 0;
    while end != 0 && j < end + 1
      invariant 0 <= j <= end + 3 && j % 3 == 0
      invariant forall c :: 0 <= c < j / 3 && c < Cells(minStr) ==> Cell(str, c) == Cell(minStr, c)
      decreases end + 1 - j
    {
      assert Cell(str, j / 3) == str[j..j + 2] && Cell(minStr, j / 3) == minStr[j..j + 2];
      if minStr[j] != str[j] || minStr[j + 1] != str[j + 1] {
        assert Cell(str, j / 3)[0] == str[j] && Cell(str, j / 3)[1] == str[j + 1];
        break;
      }
      assert str[j..j + 2] == minStr[j..j + 2];
      j := j + 3;
    }
    if j < end {
      end' := j;
    }
  }

  ghost predicate IsShortest(m: string, strs: seq<string>) {
    m in strs && forall s :: s in strs ==> |m| <= |s|
  }

  method Shortest(strs: seq<string>) returns (minStr: string)
    requires strs != []
    ensures IsShortest(minStr, strs)
  {
    minStr := strs[0];
    for i := 1 to |strs|
      invariant minStr in strs
      invariant forall j :: 0 <= j < i ==> |minStr| <= |strs[j]|
    {
      if |strs[i]| < |minStr| {
        minStr := strs[i];
      }
    }
  }

  /** The loop over all messages. */
  method CommonEnd(strs: seq<string>, minStr: string) returns (end: int)
    requires IsMessage(minStr) && forall s :: s in strs ==> IsMessage(s) && |minStr| <= |s|
    ensures AgreeTo(strs, minStr, end)
  {
    end := |minStr|;
    for i := 0 to |strs|
      invariant AgreeTo(strs[..i], minStr, end)
    {
      ghost var before := end;
      if strs[i] != minStr {
        end := Compare(minStr, strs[i], end);
      }
      AgreeMore(strs[..i], strs[i], minStr, before, end);
      assert strs[..i + 1] == strs[..i] + [strs[i]];
    }
    assert strs[..|strs|] == strs;
  }

  lemma AgreeMore(strs: seq<string>, s: string, minStr: string, before: int, end: int)
    requires IsMessage(minStr) && IsMessage(s) && |minStr| <= |s|
    requires forall s :: s in strs ==> IsMessage(s) && |minStr| <= |s|
    requires AgreeTo(strs, minStr, before)
    requires end == before || (0 <= end < before && end % 3 == 0 && Cell(s, end / 3) != Cell(minStr, end / 3))
    requires forall c :: 0 <= c < (end + 1) / 3 ==> Cell(s, c) == Cell(minStr, c)
    ensures AgreeTo(strs + [s], minStr, end)
  {
    if end < before {
      assert s in strs + [s];
    } else if end < |minStr| {
      var u :| u in strs && Cell(u, end / 3) != Cell(minStr, end / 3);
      assert u in strs + [s];
    }
  }

  /** The length that `longestCommonPrefix` is to give: `3k - 1` for `k > 0` common bytes,
      unless they are too few to be reported. */
  ghost predicate IsPrefixLength(strs: seq<string>, length: int, minimal: int, checkShort: bool)
    requires strs != [] && forall s :: s in strs ==> IsMessage(s)
  {
    var k := MaxCommon(strs);
    exists m {:trigger IsShortest(m, strs)} :: IsShortest(m, strs)
      && length == (if k > 0 && Reported(k, Cells(m), minimal, checkShort) then 3 * k - 1 else 0)
  }

  /** Returns the length in characters of the common part, without a trailing space: with
      `k` common bytes this is `3k - 1`, or 0 when there are none or the part is not reported. */
  method LongestCommonPrefix(strs: seq<string>, minimalConstantLength: int, checkMinimalLength: bool)
    returns (length: int)
    requires forall s :: s in strs ==> IsMessage(s)
    ensures strs == [] ==> length == 0
    ensures strs != [] ==> IsPrefixLength(strs, length, minimalConstantLength, checkMinimalLength)
  {
    hide AgreeTo, IsCommon;
    if |strs| == 0 {
      return 0;
    }
    var minStr := Shortest(strs);
    var end := CommonEnd(strs, minStr);
    AgreedIsMax(strs, minStr, end);
    var returnIndex := end >= minimalConstantLength * 3;
    if !returnIndex && !checkMinimalLength {
      returnIndex := end >= |minStr|;
    }
    if !returnIndex {
      length := 0;
    } else if end >= |minStr| {
      length := |minStr|;
    } else {
      length := if end > 1 then end - 1 else 0;
    }
  }

  /** When the common part of `k` bytes is lost: one of at least `minimal` bytes is not
      reported exactly if it is a whole message of just `minimal` bytes and the check is on,
      as such a message has no trailing space to count. A shorter one is reported exactly
      if it is a whole message and the check is off. */
  lemma ReportedWhenLongEnough(strs: seq<string>, minimal: int, checkShort: bool, m: string, length: int)
    requires strs != [] && (forall s :: s in strs ==> IsMessage(s)) && IsShortest(m, strs)
    requires IsPrefixLength(strs, length, minimal, checkShort)
    ensures var k := MaxCommon(strs);
      && (length == 0 || length == 3 * k - 1)
      && (k > 0 && k >= minimal ==> (length == 0 <==> checkShort && k == Cells(m) == minimal))
      && (k > 0 && k < minimal ==> (length != 0 <==> !checkShort && k == Cells(m)))
  {
    hide IsCommon;
    var m' :| IsShortest(m', strs)
      && length == (if MaxCommon(strs) > 0 && Reported(MaxCommon(strs), Cells(m'), minimal, checkShort)
                    then 3 * MaxCommon(strs) - 1 else 0);
    assert |m'| == |m|;
  }

  /** Two equal messages of one byte have it in common, and one byte is enough, but it is
      not reported. */
  lemma EqualBytesUnreported(length: int)
    requires var strs := ["AA", "AA"]; (forall s :: s in strs ==> IsMessage(s)) && IsPrefixLength(strs, length, 1, true)
    ensures MaxCommon(["AA", "AA"]) == 1 && length == 0
  {
    var strs := ["AA", "AA"];
    assert IsShortest("AA", strs);
    assert IsCommon(strs, 1) && !IsCommon(strs, 2) by { assert strs[0] == "AA"; }
    MaxCommonIs(strs, 1);
    ReportedWhenLongEnough(strs, 1, true, "AA", length);
  }

  lemma AgreedIsMax(strs: seq<string>, minStr: string, end: int)
    requires minStr in strs && forall s :: s in strs ==> IsMessage(s) && |minStr| <= |s|
    requires AgreeTo(strs, minStr, end)
    ensures MaxCommon(strs) == (end + 1) / 3 && 0 <= end <= |minStr|
    ensures end == |minStr| || end % 3 == 0
    ensures end == |minStr| <==> MaxCommon(strs) == Cells(minStr)
  {
    var k := (end + 1) / 3;
    assert IsCommon(strs, k);
    if end < |minStr| {
      var s :| s in strs && Cell(s, end / 3) != Cell(minStr, end / 3);
      assert !IsCommon(strs, k + 1);
    } else {
      assert !IsCommon(strs, k + 1);
    }
    MaxCommonIs(strs, k);
  }

  // ---------------------------------------------------------------- from the end

  function Reverse(s: string): (r: string)
    ensures |r| == |s| && forall i :: 0 <= i < |s| ==> r[i] == s[|s| - 1 - i]
  {
    if s == "" then "" else Reverse(s[1..]) + [s[0]]
  }

  lemma ReverseIsMessage(s: string)
    requires IsMessage(s)
    ensures IsMessage(Reverse(s)) && Cells(Reverse(s)) == Cells(s)
  {
    forall k | 0 <= k < |s| && k % 3 == 2
      ensures Reverse(s)[k] == ' '
    {
      assert (|s| - 1 - k) % 3 == 2;
    }
  }

  lemma ReverseMessage(s: string)
    requires IsMessage(s)
    ensures IsMessage(Reverse(s)) && Cells(Reverse(s)) == Cells(s)
    ensures forall c :: 0 <= c < Cells(s) ==> Cell(Reverse(s), c) == Reverse(CellBack(s, c))
  {
    ReverseIsMessage(s);
    forall c | 0 <= c < Cells(s)
      ensures Cell(Reverse(s), c) == Reverse(CellBack(s, c))
    {
      hide IsMessage;
      var a, b := Cell(Reverse(s), c), CellBack(s, c);
      assert a[0] == Reverse(s)[3 * c] == s[|s| - 1 - 3 * c] == b[1];
      assert a[1] == Reverse(s)[3 * c + 1] == s[|s| - 2 - 3 * c] == b[0];
    }
  }

  /** All messages have at least `k` bytes and share the last `k`. */
  ghost predicate IsCommonSuffix(strs: seq<string>, k: int)
    requires forall s :: s in strs ==> IsMessage(s)
  {
    && 0 <= k
    && (forall s :: s in strs ==> k <= Cells(s))
    && (forall s, t, c :: s in strs && t in strs && 0 <= c < k ==>
      CellBack(s, c) == CellBack(t, c))
  }

  /** The `c`th byte from the end. */
  function CellBack(s: string, c: int): (b: string)
    requires IsMessage(s) && 0 <= c < Cells(s)
  {
    Cell(s, Cells(s) - 1 - c)
  }

  function ReverseAll(strs: seq<string>): (rs: seq<string>)
    ensures |rs| == |strs| && forall i :: 0 <= i < |strs| ==> rs[i] == Reverse(strs[i])
  {
    seq(|strs|, i requires 0 <= i < |strs| => Reverse(strs[i]))
  }

  lemma ReverseTwice(s: string)
    ensures Reverse(Reverse(s)) == s
  {
  }

  lemma ReversedMessages(strs: seq<string>)
    requires forall s :: s in strs ==> IsMessage(s)
    ensures forall s :: s in strs ==> Reverse(s) in ReverseAll(strs)
    ensures forall r :: r in ReverseAll(strs) ==> IsMessage(r) && exists s :: s in strs && r == Reverse(s)
  {
    hide IsMessage;
    var rs := ReverseAll(strs);
    forall s | s in strs
      ensures Reverse(s) in rs
    {
      var i :| 0 <= i < |strs| && strs[i] == s;
      assert rs[i] == Reverse(s);
    }
    forall r | r in rs
      ensures IsMessage(r) && exists s :: s in strs && r == Reverse(s)
    {
      var i :| 0 <= i < |rs| && rs[i] == r;
      assert strs[i] in strs && r == Reverse(strs[i]);
      ReverseMessage(strs[i]);
    }
  }

  /** A common prefix of the reversed messages is a common suffix of the messages. */
  lemma SuffixByReversal(strs: seq<string>, k: int)
    requires forall s :: s in strs ==> IsMessage(s)
    ensures forall s :: s in ReverseAll(strs) ==> IsMessage(s)
    ensures IsCommon(ReverseAll(strs), k) <==> IsCommonSuffix(strs, k)
  {
    hide IsMessage, IsCommon, IsCommonSuffix;
    ReversedMessages(strs);
    if IsCommon(ReverseAll(strs), k) {
      PrefixOfReversed(strs, k);
    }
    if IsCommonSuffix(strs, k) {
      SuffixReversed(strs, k);
    }
  }

  lemma PrefixOfReversed(strs: seq<string>, k: int)
    requires forall s :: s in strs ==> IsMessage(s) && Reverse(s) in ReverseAll(strs)
    requires (forall r :: r in ReverseAll(strs) ==> IsMessage(r)) && IsCommon(ReverseAll(strs), k)
    ensures IsCommonSuffix(strs, k)
  {
    hide IsMessage;
    forall s | s in strs
      ensures k <= Cells(s)
    {
      ReverseMessage(s);
    }
    forall s, t, c {:trigger CellBack(s, c), CellBack(t, c)} | s in strs && t in strs && 0 <= c < k
      ensures CellBack(s, c) == CellBack(t, c)
    {
      ReverseMessage(s);
      ReverseMessage(t);
      assert Cell(Reverse(s), c) == Cell(Reverse(t), c);
      ReverseTwice(CellBack(s, c));
      ReverseTwice(CellBack(t, c));
    }
  }

  lemma SuffixReversed(strs: seq<string>, k: int)
    requires forall s :: s in strs ==> IsMessage(s)
    requires forall r :: r in ReverseAll(strs) ==> IsMessage(r) && exists s :: s in strs && r == Reverse(s)
    requires IsCommonSuffix(strs, k)
    ensures IsCommon(ReverseAll(strs), k)
  {
    hide IsMessage;
    var rs := ReverseAll(strs);
    forall r | r in rs
      ensures k <= Cells(r)
    {
      var s :| s in strs && r == Reverse(s);
      ReverseMessage(s);
    }
    forall r, q, c | r in rs && q in rs && 0 <= c < k
      ensures Cell(r, c) == Cell(q, c)
    {
      var s :| s in strs && r == Reverse(s);
      var t :| t in strs && q == Reverse(t);
      ReverseMessage(s);
      ReverseMessage(t);
    }
  }

  /** The number of trailing bytes common to all messages. */
  ghost function MaxSuffix(strs: seq<string>): (k: nat)
    requires strs != [] && forall s :: s in strs ==> IsMessage(s)
    ensures IsCommonSuffix(strs, k) && !IsCommonSuffix(strs, k + 1)
  {
    SuffixByReversal(strs, 0);
    var k := MaxCommon(ReverseAll(strs));
    SuffixByReversal(strs, k);
    SuffixByReversal(strs, k + 1);
    k
  }

  lemma ShortestReversed(strs: seq<string>, r: string) returns (m: string)
    requires IsShortest(r, ReverseAll(strs))
    ensures IsShortest(m, strs) && Cells(m) == Cells(r)
  {
    var rs := ReverseAll(strs);
    var i :| 0 <= i < |rs| && rs[i] == r;
    m := strs[i];
    forall s | s in strs
      ensures |m| <= |s|
    {
      var j :| 0 <= j < |strs| && strs[j] == s;
      assert rs[j] in rs;
    }
  }

  lemma ReverseShortest(strs: seq<string>, length: int, minimal: int, checkShort: bool)
    requires strs != [] && forall s :: s in strs ==> IsMessage(s)
    requires forall s :: s in ReverseAll(strs) ==> IsMessage(s)
    requires IsPrefixLength(ReverseAll(strs), length, minimal, checkShort)
    ensures IsSuffixLength(strs, length, minimal, checkShort)
  {
    hide Reported, IsMessage, IsShortest, Cells, IsCommon;
    var rs := ReverseAll(strs);
    var r :| IsShortest(r, rs)
      && length == (if MaxCommon(rs) > 0 && Reported(MaxCommon(rs), Cells(r), minimal, checkShort)
                    then 3 * MaxCommon(rs) - 1 else 0);
    var m := ShortestReversed(strs, r);
    assert MaxSuffix(strs) == MaxCommon(rs);
  }

  ghost predicate IsSuffixLength(strs: seq<string>, length: int, minimal: int, checkShort: bool)
    requires strs != [] && forall s :: s in strs ==> IsMessage(s)
  {
    var k := MaxSuffix(strs);
    exists m {:trigger IsShortest(m, strs)} :: IsShortest(m, strs)
      && length == (if k > 0 && Reported(k, Cells(m), minimal, checkShort) then 3 * k - 1 else 0)
  }

  /** The common parts at both ends, the second one found on the reversed strings. */
  method LongestCommonPrefixes(msgs: seq<string>, minimalConstantLength: int, checkMinimalLength: bool)
    returns (left: int, right: int)
    requires forall s :: s in msgs ==> IsMessage(s)
    ensures msgs == [] ==> left == right == 0
    ensures msgs != [] ==>
      && IsPrefixLength(msgs, left, minimalConstantLength, checkMinimalLength)
      && IsSuffixLength(msgs, right, minimalConstantLength, checkMinimalLength)
  {
    var invertedStrings: seq<string> := [];
    for i := 0 to |msgs|
      invariant |invertedStrings| == i
      invariant forall j :: 0 <= j < i ==> invertedStrings[j] == Reverse(msgs[j])
    {
      invertedStrings := invertedStrings + [Reverse(msgs[i])];
    }
    assert invertedStrings == ReverseAll(msgs);
    SuffixByReversal(msgs, 0);
    left := LongestCommonPrefix(msgs, minimalConstantLength, checkMinimalLength);
    right := LongestCommonPrefix(invertedStrings, minimalConstantLength, checkMinimalLength);
    if msgs != [] {
      ReverseShortest(msgs, right, minimalConstantLength, checkMinimalLength);
    }
  }
}
