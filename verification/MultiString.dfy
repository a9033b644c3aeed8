/** Lists of strings in one buffer, each followed by a separator, after
    `String_ParseSeparatedArray` and `String_SerializeAsSeparatedArray` of `CommonFnc.cpp`. */
module MultiString {
  import opened StatusCodes

  /** Items that a buffer can hold: not empty and without the separator. */
  ghost predicate Items(ns: seq<string>, sep: char) {
    forall i :: 0 <= i < |ns| ==> ns[i] != "" && sep !in ns[i]
  }

  function Joined(ns: seq<string>, sep: char): (s: string) {
    if ns == [] then "" else ns[0] + [sep] + Joined(ns[1..], sep)
  }

  /** The items that are written. */
  function NonEmpty(ns: seq<string>): (ms: seq<string>)
    ensures forall m :: m in ms ==> m in ns && m != ""
  {
    if ns == [] then []
    else if ns[0] == "" then NonEmpty(ns[1..])
    else [ns[0]] + NonEmpty(ns[1..])
  }

  lemma {:induction false} JoinedMore(a: seq<string>, b: seq<string>, sep: char)
    ensures Joined(a + b, sep) == Joined(a, sep) + Joined(b, sep)
  {
    if a == [] {
      assert a + b == b;
    } else {
      assert (a + b)[1..] == a[1..] + b;
      JoinedMore(a[1..], b, sep);
      assert a[0] + [sep] + (Joined(a[1..], sep) + Joined(b, sep)) ==
        (a[0] + [sep] + Joined(a[1..], sep)) + Joined(b, sep);
    }
  }

  lemma {:induction false} NonEmptyNext(ns: seq<string>, i: nat)
    requires i < |ns|
    ensures NonEmpty(ns[..i + 1]) == NonEmpty(ns[..i]) + if ns[i] == "" then [] else [ns[i]]
  {
    if i > 0 {
      assert ns[..i + 1][1..] == ns[1..][..i] && ns[..i][1..] == ns[1..][..i - 1];
      NonEmptyNext(ns[1..], i - 1);
    }
  }

  lemma JoinedNext(ns: seq<string>, i: nat, sep: char)
    requires i < |ns|
    ensures Joined(NonEmpty(ns[..i + 1]), sep) ==
      Joined(NonEmpty(ns[..i]), sep) + if ns[i] == "" then "" else ns[i] + [sep]
  {
    NonEmptyNext(ns, i);
    if ns[i] == "" {
      assert NonEmpty(ns[..i]) + [] == NonEmpty(ns[..i]);
    } else {
      JoinedMore(NonEmpty(ns[..i]), [ns[i]], sep);
      assert Joined([ns[i]], sep) == ns[i] + [sep];
    }
  }

  // ---------------------------------------------------------------- parsing

  predicate Double(a: seq<char>, pos: nat, sep: char) {
    pos + 1 < |a| && a[pos] == sep && a[pos + 1] == sep
  }

  /** The array can be scanned up to `n`: before the position is compared with `n`, the
      characters at it are read, so that two separators or something behind `n` must be
      there. */
  predicate Scannable(a: seq<char>, n: nat, sep: char) {
    n == 0 || (n < |a| && (a[n] == sep ==> n + 1 < |a|)) || (n <= |a| && exists p :: 0 <= p < n && Double(a, p, sep))
  }

  /** The items from `pos` on, when `item` has been read of the current one: up to the end
      or two separators in a row. */
  function ParseFrom(a: seq<char>, n: nat, sep: char, pos: nat, item: string): (items: seq<string>)
    requires pos <= n <= |a|
    decreases n - pos
  {
    var last := if item == "" then [] else [item];
    if pos == n || Double(a, pos, sep) then last
    else if a[pos] == sep then last + ParseFrom(a, n, sep, pos + 1, "")
    else ParseFrom(a, n, sep, pos + 1, item + [a[pos]])
  }

  method ParseSeparatedArray(a: seq<char>, n: nat, sep: char) returns (items: seq<string>)
    requires n <= |a| && Scannable(a, n, sep)
    ensures items == ParseFrom(a, n, sep, 0, "")
  {
    items := [];
    var pos, item := 0, "";
    if n > 0 {
      while (a[pos] != sep || a[pos + 1] != sep) && pos <= n - 1
        invariant 0 <= pos <= n && forall p :: 0 <= p < pos ==> !Double(a, p, sep)
        invariant ParseFrom(a, n, sep, 0, "") == items + ParseFrom(a, n, sep, pos, item)
        decreases n - pos
      {
        if a[pos] == sep {
          if item != "" {
            items := items + [item];
          }
          item := "";
        } else {
          item := item + [a[pos]];
        }
        pos := pos + 1;
      }
    }
    if item != "" {
      items := items + [item];
    }
  }

  lemma {:induction false} ParseName(a: seq<char>, n: nat, sep: char, pos: nat, item: string, s: string)
    requires pos + |s| <= n <= |a| && sep !in s && a[pos..pos + |s|] == s
    ensures ParseFrom(a, n, sep, pos, item) == ParseFrom(a, n, sep, pos + |s|, item + s)
    decreases |s|
  {
    if s == "" {
      assert item + s == item;
    } else {
      assert a[pos] == s[0] && a[pos + 1..pos + 1 + |s[1..]|] == s[1..];
      ParseName(a, n, sep, pos + 1, item + [s[0]], s[1..]);
      assert (item + [s[0]]) + s[1..] == item + s;
    }
  }

  /** What has been written is read back, from anywhere in an array. */
  lemma {:induction false} ParseJoined(a: seq<char>, n: nat, sep: char, pos: nat, ns: seq<string>)
    requires Items(ns, sep) && pos + |Joined(ns, sep)| == n < |a| && a[n] == sep
    requires a[pos..n] == Joined(ns, sep)
    ensures ParseFrom(a, n, sep, pos, "") == ns
    decreases |ns|
  {
    if ns != [] {
      var s, rest := ns[0], Joined(ns[1..], sep);
      var end := pos + |s|;
      assert Joined(ns, sep) == s + [sep] + rest;
      JoinedParts(a, pos, n, s, sep, rest);
      ParseName(a, n, sep, pos, "", s);
      assert "" + s == s;
      if |ns| == 1 {
        assert ns == [s];
      } else {
        assert ns[1..][0] == ns[1] && rest[0] == ns[1][0] && a[end + 1] == rest[0];
        assert ns[1][0] in ns[1];
        ParseJoined(a, n, sep, end + 1, ns[1..]);
        assert ns == [s] + ns[1..];
      }
    }
  }

  lemma JoinedParts(a: seq<char>, pos: nat, n: nat, s: string, sep: char, rest: string)
    requires pos <= n <= |a| && a[pos..n] == s + [sep] + rest
    ensures n == pos + |s| + 1 + |rest|
    ensures a[pos..pos + |s|] == s && a[pos + |s|] == sep && a[pos + |s| + 1..n] == rest
  {
    var t := a[pos..n];
    assert a[pos..pos + |s|] == t[..|s|];
    assert a[pos + |s|] == t[|s|];
    assert a[pos + |s| + 1..n] == t[|s| + 1..];
  }

  /** The text with a separator at its end. */
  function Closed(s: string, sep: char): (t: string) {
    if s == "" || s[|s| - 1] == sep then s else s + [sep]
  }

  /** The array has two separators in a row from `p` on, or ends there, and nowhere before. */
  ghost predicate EndsAt(a: seq<char>, n: nat, sep: char, p: nat) {
    && p <= n <= |a|
    && (p == n || (p + 1 < |a| && a[p] == sep && a[p + 1] == sep))
    && forall q :: 0 <= q < p && q + 1 < |a| ==> a[q] != sep || a[q + 1] != sep
  }

  lemma {:induction false} ParseRest(a: seq<char>, n: nat, sep: char, pos: nat, item: string, p: nat)
    requires EndsAt(a, n, sep, p) && pos <= p && sep !in item
    requires item == "" && pos < p ==> a[pos] != sep
    ensures Items(ParseFrom(a, n, sep, pos, item), sep)
    ensures Joined(ParseFrom(a, n, sep, pos, item), sep) == Closed(item + a[pos..p], sep)
    decreases p - pos
  {
    hide Joined, Closed, Items;
    if pos == p {
      assert item + a[pos..p] == item;
      LastJoined(item, sep);
    } else if a[pos] == sep {
      ParseRest(a, n, sep, pos + 1, "", p);
      var rest := a[pos + 1..p];
      assert "" + rest == rest;
      assert item + a[pos..p] == (item + [sep]) + rest;
      FirstItem(item, ParseFrom(a, n, sep, pos + 1, ""), sep);
      ClosedMore(item + [sep], rest, sep);
    } else {
      ParseRest(a, n, sep, pos + 1, item + [a[pos]], p);
      assert (item + [a[pos]]) + a[pos + 1..p] == item + a[pos..p];
    }
  }

  lemma FirstItem(item: string, items: seq<string>, sep: char)
    requires Items(items, sep) && item != "" && sep !in item
    ensures Items([item] + items, sep) && Joined([item] + items, sep) == item + [sep] + Joined(items, sep)
  {
    assert ([item] + items)[1..] == items;
  }

  lemma LastJoined(item: string, sep: char)
    requires sep !in item
    ensures var last := if item == "" then [] else [item];
      Items(last, sep) && Joined(last, sep) == Closed(item, sep)
  {
    if item != "" {
      assert [item][1..] == [];
      assert item[|item| - 1] in item;
    }
  }

  lemma ClosedMore(s: string, t: string, sep: char)
    requires s != "" && s[|s| - 1] == sep
    ensures Closed(s + t, sep) == s + Closed(t, sep)
  {
    if t == "" {
      assert s + t == s;
    } else {
      assert (s + t)[|s + t| - 1] == t[|t| - 1];
    }
  }

  /** What is read from any array: items without separators, which written one by one give
      the array up to its end or the first two separators in a row, without a separator in
      front and with one at the end. */
  lemma ParseRejoined(a: seq<char>, n: nat, sep: char, p: nat)
    requires EndsAt(a, n, sep, p)
    ensures Items(ParseFrom(a, n, sep, 0, ""), sep)
    ensures Joined(ParseFrom(a, n, sep, 0, ""), sep) ==
      Closed(if p > 0 && a[0] == sep then a[1..p] else a[..p], sep)
  {
    if p > 0 && a[0] == sep {
      ParseRest(a, n, sep, 1, "", p);
      assert "" + a[1..p] == a[1..p];
      assert [] + ParseFrom(a, n, sep, 1, "") == ParseFrom(a, n, sep, 1, "");
    } else {
      ParseRest(a, n, sep, 0, "", p);
      assert "" + a[0..p] == a[..p];
    }
  }

  /** What is written are the items that are not empty, in order. */
  lemma {:induction false} NonEmptyMore(a: seq<string>, b: seq<string>, s: string)
    ensures NonEmpty(a + b) == NonEmpty(a) + NonEmpty(b)
    ensures NonEmpty([s]) == if s == "" then [] else [s]
  {
    assert [s][1..] == [];
    if a == [] {
      assert a + b == b;
    } else {
      assert (a + b)[1..] == a[1..] + b;
      NonEmptyMore(a[1..], b, s);
    }
  }

  lemma {:induction false} NonEmptyItems(ns: seq<string>, sep: char)
    requires forall i :: 0 <= i < |ns| ==> sep !in ns[i]
    ensures Items(NonEmpty(ns), sep)
  {
    if ns != [] {
      NonEmptyItems(ns[1..], sep);
    }
  }

  /** A double-terminated list determines its items. */
  lemma JoinedInjective(ns: seq<string>, ms: seq<string>, sep: char)
    requires Items(ns, sep) && Items(ms, sep) && Joined(ns, sep) == Joined(ms, sep)
    ensures ns == ms
  {
    var a := Joined(ns, sep) + [sep];
    ParseJoined(a, |a| - 1, sep, 0, ns);
    ParseJoined(a, |a| - 1, sep, 0, ms);
  }

  // ---------------------------------------------------------------- serializing

  /** The length that is needed for the items. */
  method RequiredLength(ns: seq<string>, sep: char) returns (n: nat)
    ensures n == |Joined(NonEmpty(ns), sep)|
  {
    n := 0;
    for i := 0 to |ns|
      invariant n == |Joined(NonEmpty(ns[..i]), sep)|
    {
      JoinedNext(ns, i, sep);
      if |ns[i]| > 0 {
        n := n + |ns[i]| + 1;
      }
    }
    assert ns[..|ns|] == ns;
  }

  /** Writes the items at `at`, when the declared size is not larger than what is needed.
      The room for them is up to the caller; the comparison is the wrong way round to
      look after it. */
  method Serialize(ns: seq<string>, sep: char, out: array?<char>, at: nat, size: nat)
    returns (status: Status, size': nat)
    requires out != null && size <= |Joined(NonEmpty(ns), sep)| ==> at + |Joined(NonEmpty(ns), sep)| <= out.Length
    modifies out
    ensures status == if out == null || size <= |Joined(NonEmpty(ns), sep)| then Ok else NotEnoughMemory
    ensures size' == if status == Ok then |Joined(NonEmpty(ns), sep)| else size
    ensures out != null ==>
      out[..] == if status == Ok then Written(old(out[..]), at, Joined(NonEmpty(ns), sep)) else old(out[..])
  {
    hide Joined, NonEmpty, Written;
    var required := RequiredLength(ns, sep);
    if out == null {
      return Ok, required;
    }
    if size > required {
      return NotEnoughMemory, size;
    }
    var position := 0;
    ghost var was := out[..];
    NothingWritten(ns, sep, was, at);
    for i := 0 to |ns|
      invariant position == |Joined(NonEmpty(ns[..i]), sep)| && at + position <= out.Length
      invariant out[..] == Written(was, at, Joined(NonEmpty(ns[..i]), sep))
    {
      ghost var done := Joined(NonEmpty(ns[..i]), sep);
      assert done + "" == done;
      JoinedNext(ns, i, sep);
      JoinedWithin(ns, i + 1, sep);
      if |ns[i]| > 0 {
        position := AppendItem(out, at, position, ns[i], sep, was, done);
      }
    }
    assert ns[..|ns|] == ns;
    return Ok, position;
  }

  /** One item and its separator, behind what has been written. */
  method AppendItem(out: array<char>, at: nat, position: nat, item: string, sep: char,
                    ghost was: seq<char>, ghost done: string) returns (position': nat)
    requires at + position + |item| + 1 <= out.Length == |was| && position == |done|
    requires out[..] == Written(was, at, done)
    modifies out
    ensures position' == |done + (item + [sep])|
    ensures out[..] == Written(was, at, done + (item + [sep]))
  {
    hide Written;
    Copy(out, at + position, item);
    position' := position + |item|;
    out[at + position'] := sep;
    position' := position' + 1;
    WrittenMore(was, at, done, item, sep);
  }

  lemma NothingWritten(ns: seq<string>, sep: char, was: seq<char>, at: nat)
    requires at <= |was|
    ensures Joined(NonEmpty(ns[..0]), sep) == "" && Written(was, at, "") == was
  {
  }

  function Written(s: seq<char>, at: nat, t: string): (r: seq<char>)
    requires at + |t| <= |s|
    ensures |r| == |s|
  {
    s[..at] + t + s[at + |t|..]
  }

  lemma WrittenMore(s: seq<char>, at: nat, t: string, u: string, sep: char)
    requires at + |t| + |u| + 1 <= |s|
    ensures Written(Written(s, at, t), at + |t|, u)[at + |t| + |u| := sep] == Written(s, at, t + (u + [sep]))
  {
  }

  lemma {:induction false} JoinedWithin(ns: seq<string>, i: nat, sep: char)
    requires i <= |ns|
    ensures |Joined(NonEmpty(ns[..i]), sep)| <= |Joined(NonEmpty(ns), sep)|
    decreases |ns| - i
  {
    if i == |ns| {
      assert ns[..i] == ns;
    } else {
      JoinedNext(ns, i, sep);
      JoinedWithin(ns, i + 1, sep);
    }
  }

  /** `memcpy` of a string into the buffer. */
  method Copy(out: array<char>, at: nat, s: string)
    requires at + |s| <= out.Length
    modifies out
    ensures out[..] == Written(old(out[..]), at, s)
  {
    forall i | 0 <= i < |s| {
      out[at + i] := s[i];
    }
  }
}
