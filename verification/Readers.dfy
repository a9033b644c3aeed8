/** The list of reader names, after `SCardListReaders` of `Winscard.cpp` with a buffer from
    the caller: virtual readers behind the real ones, and a preferred reader first. */
module Readers {
  import opened MultiString
  import opened Sums

  const ZERO := '\0'

  /** What the card subsystem answers when it is asked for its readers. */
  datatype Real = Names(names: seq<string>) | NoReaders | Failed(code: int)

  datatype CallStatus = Success | NoReadersAvailable | InsufficientBuffer | Failure(code: int)

  /** The names, each with its zero, and one more zero. */
  function Multi(ns: seq<string>): (s: string) {
    Joined(ns, ZERO) + [ZERO]
  }

  function RealBuffer(cards: Real): (s: string) {
    if cards.Names? then Multi(cards.names) else ""
  }

  function Virtual(virtuals: seq<string>): (s: string) {
    Joined(NonEmpty(virtuals), ZERO)
  }

  /** The names of one list after the other. */
  function Merged(cards: Real, virtuals: seq<string>): (s: string) {
    Multi((if cards.Names? then cards.names else []) + NonEmpty(virtuals))
  }

  ghost predicate WellNamed(cards: Real, virtuals: seq<string>) {
    (cards.Names? ==> Items(cards.names, ZERO)) && forall i :: 0 <= i < |virtuals| ==> ZERO !in virtuals[i]
  }

  lemma MergedParts(cards: Real, virtuals: seq<string>)
    requires !cards.Failed?
    ensures var r := RealBuffer(cards);
      Merged(cards, virtuals) == (if r == "" then "" else r[..|r| - 1]) + Virtual(virtuals) + [ZERO]
  {
    var names := if cards.Names? then cards.names else [];
    JoinedMore(names, NonEmpty(virtuals), ZERO);
    if cards.Names? {
      assert RealBuffer(cards)[..|RealBuffer(cards)| - 1] == Joined(names, ZERO);
    }
  }

  /** CallStatus and reported size, by the capacity that the caller declares. */
  function Answer(cards: Real, virtuals: seq<string>, supplied: bool, pcch: nat): (answer: (CallStatus, nat)) {
    var needed := |RealBuffer(cards)| + |Virtual(virtuals)|;
    if cards.Failed? then (Failure(cards.code), pcch)
    else if cards.NoReaders? && virtuals == [] then (NoReadersAvailable, pcch)
    else if !supplied then (Success, needed)
    else if needed + 2 > pcch then (InsufficientBuffer, needed)
    else (Success, |Merged(cards, virtuals)|)
  }

  /** Asking for the size first and then supplying that much never works: it takes at least
      two characters more than reported, although at most one more is used. */
  lemma ReportedSizeIsShort(cards: Real, virtuals: seq<string>, p: nat, room: nat)
    requires Answer(cards, virtuals, false, p).0 == Success
    ensures var reported := Answer(cards, virtuals, false, p).1;
      && (Answer(cards, virtuals, true, room).0 == Success <==> room >= reported + 2)
      && Answer(cards, virtuals, true, reported) == (InsufficientBuffer, reported)
      && |Merged(cards, virtuals)| == reported + if cards.Names? then 0 else 1
  {
    hide Joined, NonEmpty;
    MergedParts(cards, virtuals);
    RealEnd(cards);
  }

  /** A name takes its characters and one more. */
  function Room(name: string): int {
    |name| + 1
  }

  lemma {:induction false} JoinedLength(ns: seq<string>)
    ensures |Joined(ns, ZERO)| == Sum(ns, Room)
  {
    if ns != [] {
      var init, l := ns[..|ns| - 1], ns[|ns| - 1];
      assert ns == init + [l];
      JoinedLength(init);
      JoinedMore(init, [l], ZERO);
      assert [l][1..] == [];
    }
  }

  /** The answer in terms of the names: every one takes its length and a zero, the real ones
      together one more zero; two characters have to be left, and the size that comes back
      with the list is what the list has. */
  lemma AnswerByNames(cards: Real, virtuals: seq<string>, supplied: bool, pcch: nat)
    ensures var realLen := if cards.Names? then Sum(cards.names, Room) + 1 else 0;
      var virtLen := Sum(NonEmpty(virtuals), Room);
      Answer(cards, virtuals, supplied, pcch) ==
      if cards.Failed? then (Failure(cards.code), pcch)
      else if cards.NoReaders? && virtuals == [] then (NoReadersAvailable, pcch)
      else if !supplied then (Success, realLen + virtLen)
      else if pcch < realLen + virtLen + 2 then (InsufficientBuffer, realLen + virtLen)
      else (Success, if cards.Names? then realLen + virtLen else virtLen + 1)
  {
    hide Joined, NonEmpty, Merged, Sum;
    JoinedLength(NonEmpty(virtuals));
    if cards.Names? {
      JoinedLength(cards.names);
    }
    if !cards.Failed? {
      MergedParts(cards, virtuals);
      RealEnd(cards);
    }
  }

  /** `memset` of the first `n` characters. */
  method Clear(buffer: array<char>, n: nat)
    requires n <= buffer.Length
    modifies buffer
    ensures forall i :: 0 <= i < n ==> buffer[i] == ZERO
    ensures buffer[n..] == old(buffer[n..])
  {
    forall i | 0 <= i < n {
      buffer[i] := ZERO;
    }
  }

  /** The two calls of the card subsystem are taken to find the same readers. With a buffer
      that is large enough it fills in their names. */
  method SupplyReaders(cards: Real, virtuals: seq<string>, buffer: array?<char>, pcch: nat)
    returns (status: CallStatus, pcch': nat, found: seq<string>)
    requires WellNamed(cards, virtuals) && (buffer != null ==> pcch <= buffer.Length)
    modifies buffer
    ensures (status, pcch') == Answer(cards, virtuals, buffer != null, pcch)
    ensures buffer != null && status != Success ==> buffer[..] == old(buffer[..])
    ensures buffer != null && status == Success ==>
      && pcch' < pcch && buffer[..pcch'] == Merged(cards, virtuals)
      && (forall i :: pcch' <= i < pcch ==> buffer[i] == ZERO) && buffer[pcch..] == old(buffer[pcch..])
      && found == (if cards.Names? then cards.names else []) + NonEmpty(virtuals)
  {
    pcch', found := pcch, [];
    if cards.Failed? {
      return Failure(cards.code), pcch, [];
    }
    if cards.NoReaders? && |virtuals| == 0 {
      return NoReadersAvailable, pcch, [];
    }
    status := Success;
    var realLen := |RealBuffer(cards)|;
    var _, virtLen := Serialize(virtuals, ZERO, null, 0, 0);
    if realLen + virtLen + 2 > pcch || buffer == null {
      pcch' := realLen + virtLen;
      if buffer != null {
        status := InsufficientBuffer;
      }
      return;
    }
    pcch' := FillBuffer(cards, virtuals, buffer, pcch, virtLen);
    found := ReadBack(cards, virtuals, buffer, pcch');
  }

  method FillBuffer(cards: Real, virtuals: seq<string>, buffer: array<char>, pcch: nat, virtLen: nat)
    returns (pcch': nat)
    requires WellNamed(cards, virtuals) && !cards.Failed? && (cards.NoReaders? ==> virtuals != [])
    requires virtLen == |Virtual(virtuals)| && |RealBuffer(cards)| + virtLen + 2 <= pcch <= buffer.Length
    modifies buffer
    ensures pcch' == |Merged(cards, virtuals)| < pcch && buffer[..pcch'] == Merged(cards, virtuals)
    ensures (forall i :: pcch' <= i < pcch ==> buffer[i] == ZERO) && buffer[pcch..] == old(buffer[pcch..])
  {
    hide Joined, NonEmpty, Written, Multi, Merged;
    MergedParts(cards, virtuals);
    RealEnd(cards);
    Clear(buffer, pcch);
    ghost var rest := buffer[pcch..];
    var realLen := |RealBuffer(cards)|;
    PutReal(buffer[..], RealBuffer(cards), pcch);
    Copy(buffer, 0, RealBuffer(cards));
    pcch' := realLen;
    if |virtuals| > 0 {
      var at := if realLen > 0 then realLen - 1 else 0;
      PutVirtual(buffer[..], RealBuffer(cards), Virtual(virtuals), at, pcch);
      var status, size := Serialize(virtuals, ZERO, buffer, at, virtLen);
      pcch' := if realLen == 0 then size + 1 else realLen + size;
      buffer[pcch' - 1] := ZERO;
    } else {
      NoVirtual();
    }
  }

  lemma RealEnd(cards: Real)
    ensures RealBuffer(cards) != "" ==> RealBuffer(cards)[|RealBuffer(cards)| - 1] == ZERO
    ensures RealBuffer(cards) == "" <==> !cards.Names?
  {
  }

  /** The buffer holds `t`, and zeros from there up to `n`. */
  ghost predicate Starts(s: seq<char>, t: string, n: nat) {
    |t| <= n <= |s| && s[..|t|] == t && forall i :: |t| <= i < n ==> s[i] == ZERO
  }

  lemma PutReal(s: seq<char>, r: string, n: nat)
    requires |r| <= n <= |s| && forall i :: 0 <= i < n ==> s[i] == ZERO
    ensures Starts(Written(s, 0, r), r, n) && Written(s, 0, r)[n..] == s[n..]
  {
  }

  lemma PutVirtual(s: seq<char>, r: string, v: string, at: nat, n: nat)
    requires Starts(s, r, n) && |r| + |v| + 2 <= n && at == if r == "" then 0 else |r| - 1
    ensures var s' := Written(s, at, v)[at + |v| := ZERO];
      Starts(s', r[..at] + v + [ZERO], n) && s'[n..] == s[n..]
  {
    var s' := Written(s, at, v)[at + |v| := ZERO];
    assert forall i :: 0 <= i < at ==> s'[i] == s[i] == s[..|r|][i];
    assert s'[at..at + |v|] == v;
  }

  lemma NoVirtual()
    ensures Virtual([]) == ""
  {
  }

  /** The list for the log is what the buffer says. */
  method ReadBack(cards: Real, virtuals: seq<string>, buffer: array<char>, pcch: nat) returns (found: seq<string>)
    requires WellNamed(cards, virtuals) && pcch == |Merged(cards, virtuals)| < buffer.Length
    requires buffer[..pcch] == Merged(cards, virtuals)
    ensures found == (if cards.Names? then cards.names else []) + NonEmpty(virtuals)
  {
    hide Joined, NonEmpty;
    ghost var names := (if cards.Names? then cards.names else []) + NonEmpty(virtuals);
    NonEmptyItems(virtuals, ZERO);
    assert buffer[..][..pcch] == Multi(names);
    assert buffer[..][pcch - 1] == ZERO;
    found := ParseSeparatedArray(buffer[..], pcch - 1, ZERO);
    assert buffer[..][0..pcch - 1] == Joined(names, ZERO) by {
      assert buffer[..][0..pcch - 1] == Multi(names)[..pcch - 1];
    }
    ParseJoined(buffer[..], pcch - 1, ZERO, 0, names);
  }

  // ---------------------------------------------------------------- the preferred reader

  predicate OccursAt(s: string, t: string, i: int) {
    0 <= i && i + |t| < |s| && s[i..i + |t|] == t
  }

  /** The first occurrence that ends before the last character, or -1. */
  ghost predicate IsFirst(s: string, t: string, i: int) {
    && (i == -1 || OccursAt(s, t, i))
    && forall j :: (if i == -1 then 0 <= j else 0 <= j < i) ==> !OccursAt(s, t, j)
  }

  /** The `n` characters at `i` and a zero, then what came before them, and what followed
      the character behind them. */
  function Moved(s: string, i: nat, n: nat): (r: string)
    requires i + n < |s|
    ensures |r| == |s|
  {
    s[i..i + n] + [ZERO] + s[..i] + s[i + n + 1..]
  }

  /** Looks for the preferred name in the buffer and moves it to the front. */
  method Reorder(buffer: array<char>, pcch: nat, preferred: string) returns (ghost at: int)
    requires |preferred| <= pcch <= buffer.Length
    modifies buffer
    ensures preferred == "" ==> buffer[..] == old(buffer[..])
    ensures preferred != "" ==> IsFirst(old(buffer[..pcch]), preferred, at)
    ensures preferred != "" ==>
      buffer[..pcch] == if at == -1 then old(buffer[..pcch]) else Moved(old(buffer[..pcch]), at, |preferred|)
    ensures buffer[pcch..] == old(buffer[pcch..])
  {
    at := -1;
    if preferred == "" {
      return;
    }
    var i := 0;
    while i < pcch - |preferred|
      invariant 0 <= i <= pcch - |preferred| && at == -1 && buffer[..] == old(buffer[..])
      invariant forall j :: 0 <= j < i ==> !OccursAt(buffer[..pcch], preferred, j)
    {
      assert buffer[..pcch][i..i + |preferred|] == buffer[i..i + |preferred|];
      if preferred == buffer[i..i + |preferred|] {
        at := i;
        MoveToFront(buffer, pcch, i, preferred);
        return;
      }
      i := i + 1;
    }
  }

  method MoveToFront(buffer: array<char>, pcch: nat, i: nat, preferred: string)
    requires pcch <= buffer.Length && OccursAt(buffer[..pcch], preferred, i)
    modifies buffer
    ensures buffer[..pcch] == Moved(old(buffer[..pcch]), i, |preferred|)
    ensures buffer[pcch..] == old(buffer[pcch..])
  {
    hide Written;
    ghost var s := buffer[..pcch];
    var readers := new char[pcch](k requires 0 <= k < pcch reads buffer => buffer[k]);
    assert readers[..] == s;
    var n := |preferred|;
    WrittenFront(s, i, n);
    assert buffer[i..i + n] == s[i..i + n] && buffer[..i] == s[..i];
    Copy(readers, 0, buffer[i..i + n]);
    readers[n] := ZERO;
    var offset := n + 1;
    Copy(readers, offset, buffer[..i]);
    assert readers[..] == Moved(s, i, n);
    CopyBack(buffer, readers);
  }

  lemma WrittenFront(s: string, i: nat, n: nat)
    requires i + n < |s|
    ensures Written(Written(s, 0, s[i..i + n])[n := ZERO], n + 1, s[..i]) == Moved(s, i, n)
  {
  }

  method CopyBack(buffer: array<char>, readers: array<char>)
    requires readers.Length <= buffer.Length && buffer != readers
    modifies buffer
    ensures buffer[..readers.Length] == readers[..] && buffer[readers.Length..] == old(buffer[readers.Length..])
  {
    forall k | 0 <= k < readers.Length {
      buffer[k] := readers[k];
    }
  }

  /** Both parts together. A preferred name that is longer than the whole list would make
      the search run past the buffer. */
  method ListReaders(cards: Real, virtuals: seq<string>, preferred: string, buffer: array?<char>, pcch: nat)
    returns (status: CallStatus, pcch': nat, found: seq<string>, ghost at: int)
    requires WellNamed(cards, virtuals) && (buffer != null ==> pcch <= buffer.Length)
    requires buffer != null && Answer(cards, virtuals, true, pcch).0 == Success ==>
      |preferred| <= |Merged(cards, virtuals)|
    modifies buffer
    ensures (status, pcch') == Answer(cards, virtuals, buffer != null, pcch)
    ensures buffer != null && status != Success ==> buffer[..] == old(buffer[..])
    ensures buffer != null && status == Success ==>
      && pcch' == |Merged(cards, virtuals)| <= buffer.Length
      && (preferred == "" ==> buffer[..pcch'] == Merged(cards, virtuals))
      && (preferred != "" ==>
        && IsFirst(Merged(cards, virtuals), preferred, at)
        && buffer[..pcch'] ==
          (if at == -1 then Merged(cards, virtuals) else Moved(Merged(cards, virtuals), at, |preferred|)))
      && found == (if cards.Names? then cards.names else []) + NonEmpty(virtuals)
  {
    hide IsFirst, Moved, WellNamed, Merged;
    at := -1;
    status, pcch', found := SupplyReaders(cards, virtuals, buffer, pcch);
    if status == Success && buffer != null {
      at := Reorder(buffer, pcch', preferred);
    }
  }

  // ---------------------------------------------------------------- what moving does to the list

  lemma MultiAround(ns: seq<string>, k: nat)
    requires k < |ns|
    ensures Multi(ns) == Joined(ns[..k], ZERO) + (ns[k] + [ZERO] + Multi(ns[k + 1..]))
  {
    hide Joined;
    assert ns == ns[..k] + ([ns[k]] + ns[k + 1..]);
    JoinedMore(ns[..k], [ns[k]] + ns[k + 1..], ZERO);
    JoinedFirst(ns[k], ns[k + 1..]);
  }

  lemma JoinedFirst(n: string, ns: seq<string>)
    ensures Joined([n] + ns, ZERO) == n + [ZERO] + Joined(ns, ZERO)
  {
    assert ([n] + ns)[1..] == ns;
  }

  /** A name in the buffer lies within one entry: from the `o`th character of entry `k`. */
  lemma {:induction false} Occurrence(ns: seq<string>, t: string, i: nat) returns (k: nat, o: nat)
    requires Items(ns, ZERO) && t != "" && ZERO !in t && OccursAt(Multi(ns), t, i)
    ensures k < |ns| && i == |Joined(ns[..k], ZERO)| + o && o + |t| <= |ns[k]| && ns[k][o..o + |t|] == t
    decreases |ns|
  {
    hide Joined, Multi, OccursAt;
    OccursInEntries(ns, t, i);
    if i <= |ns[0]| {
      OccursFirst(ns, t, i);
      NoneJoined();
      k, o := 0, i;
    } else {
      OccursLater(ns, t, i);
      k, o := Occurrence(ns[1..], t, i - |ns[0]| - 1);
      assert ns[..k + 1] == [ns[0]] + ns[1..][..k];
      JoinedFirst(ns[0], ns[1..][..k]);
      k := k + 1;
    }
  }

  lemma OccursInEntries(ns: seq<string>, t: string, i: nat)
    requires t != "" && OccursAt(Multi(ns), t, i)
    ensures ns != []
  {
  }

  lemma OccursFirst(ns: seq<string>, t: string, i: nat)
    requires ns != [] && t != "" && ZERO !in t && OccursAt(Multi(ns), t, i) && i <= |ns[0]|
    ensures i + |t| <= |ns[0]| && ns[0][i..i + |t|] == t
  {
    hide Joined, Multi;
    var s, l := Multi(ns), |ns[0]|;
    MultiAround(ns, 0);
    NoneJoined();
    assert s[l] == ZERO;
    var j := if l < i + |t| then l - i else 0;
    assert s[i + j] == s[i..i + |t|][j] == t[j] && t[j] in t;
    assert s[..l] == ns[0];
    assert s[..l][i..i + |t|] == s[i..i + |t|];
  }

  lemma OccursLater(ns: seq<string>, t: string, i: nat)
    requires ns != [] && OccursAt(Multi(ns), t, i) && i > |ns[0]|
    ensures OccursAt(Multi(ns[1..]), t, i - |ns[0]| - 1)
  {
    hide Joined, Multi;
    var s, l := Multi(ns), |ns[0]|;
    MultiAround(ns, 0);
    NoneJoined();
    assert s[l + 1..] == Multi(ns[1..]);
    assert s[l + 1..][i - l - 1..i - l - 1 + |t|] == s[i..i + |t|];
  }

  /** The list with the preferred entry first and the others in order. */
  function Preferred(ns: seq<string>, k: nat): (ms: seq<string>)
    requires k < |ns|
  {
    [ns[k]] + ns[..k] + ns[k + 1..]
  }

  lemma MovedEntry(ns: seq<string>, k: nat)
    requires k < |ns|
    ensures |Joined(ns[..k], ZERO)| + |ns[k]| < |Multi(ns)|
    ensures Moved(Multi(ns), |Joined(ns[..k], ZERO)|, |ns[k]|) == Multi(Preferred(ns, k))
    ensures multiset(Preferred(ns, k)) == multiset(ns)
  {
    hide Joined;
    var before, n, after := Joined(ns[..k], ZERO), ns[k], Multi(ns[k + 1..]);
    MultiAround(ns, k);
    MovedMiddle(before, n, after);
    assert Preferred(ns, k) == [n] + (ns[..k] + ns[k + 1..]);
    JoinedFirst(n, ns[..k] + ns[k + 1..]);
    JoinedMore(ns[..k], ns[k + 1..], ZERO);
    assert ns == ns[..k] + [n] + ns[k + 1..];
  }

  lemma MovedMiddle(before: string, n: string, after: string)
    ensures Moved(before + (n + [ZERO] + after), |before|, |n|) == n + [ZERO] + before + after
  {
    var s := before + (n + [ZERO] + after);
    assert s[|before|..|before| + |n|] == n && s[..|before|] == before && s[|before| + |n| + 1..] == after;
  }

  /** The characters around a name in the buffer say whether it is a whole entry. */
  lemma EntryEnds(ns: seq<string>, k: nat, o: nat, n: nat)
    requires Items(ns, ZERO) && k < |ns| && n > 0 && o + n <= |ns[k]|
    ensures var s, i := Multi(ns), |Joined(ns[..k], ZERO)| + o;
      && i + n < |s|
      && (s[i + n] == ZERO <==> o + n == |ns[k]|)
      && (i == 0 || s[i - 1] == ZERO <==> o == 0)
  {
    hide Joined;
    MultiAround(ns, k);
    var before, after := Joined(ns[..k], ZERO), Multi(ns[k + 1..]);
    var s, i := Multi(ns), |before| + o;
    assert forall j :: 0 <= j < |ns[k]| ==> s[|before| + j] == ns[k][j] && ns[k][j] in ns[k];
    assert s[|before| + |ns[k]|] == ZERO;
    if o > 0 {
      assert s[|before| + (o - 1)] != ZERO;
    } else if k > 0 {
      assert ns[..k] == ns[..k - 1] + [ns[k - 1]];
      JoinedMore(ns[..k - 1], [ns[k - 1]], ZERO);
      JoinedFirst(ns[k - 1], []);
      assert [ns[k - 1]] + [] == [ns[k - 1]];
      NoneJoined();
      assert s[|before| - 1] == before[|before| - 1] == ZERO;
    } else {
      NoneJoined();
    }
    assert o + n < |ns[k]| ==> s[|before| + (o + n)] != ZERO;
  }

  lemma NoneJoined()
    ensures Joined([], ZERO) == ""
  {
  }

  /** The name between `i` and `i + n` is a whole entry of the buffer. */
  predicate WholeEntry(s: string, i: nat, n: nat)
    requires i + n < |s|
  {
    s[i + n] == ZERO && (i == 0 || s[i - 1] == ZERO)
  }

  /** A preferred name that is found as a whole entry comes first, and all other entries
      stay in order. */
  lemma PreferredFirst(ns: seq<string>, t: string, i: nat) returns (k: nat)
    requires Items(ns, ZERO) && t != "" && ZERO !in t && OccursAt(Multi(ns), t, i) && WholeEntry(Multi(ns), i, |t|)
    ensures k < |ns| && ns[k] == t
    ensures Moved(Multi(ns), i, |t|) == Multi(Preferred(ns, k))
    ensures multiset(Preferred(ns, k)) == multiset(ns)
  {
    hide Joined, Multi, Moved;
    var o;
    k, o := Occurrence(ns, t, i);
    EntryEnds(ns, k, o, |t|);
    MovedEntry(ns, k);
    assert ns[k][0..|t|] == ns[k];
  }

  // ---------------------------------------------------------------- names inside other names

  lemma {:induction false} Zeros(ns: seq<string>)
    requires Items(ns, ZERO)
    ensures multiset(Multi(ns))[ZERO] == |ns| + 1
  {
    if ns != [] {
      Zeros(ns[1..]);
      MultiAround(ns, 0);
      NoneJoined();
      assert Multi(ns) == ns[0] + [ZERO] + Multi(ns[1..]);
      assert ZERO !in ns[0];
      assert multiset(ns[0])[ZERO] == 0;
    }
  }

  /** If the name is only the beginning of what is there, moving it makes one entry more. */
  lemma MovedZeros(s: string, i: nat, n: nat)
    requires i + n < |s|
    ensures multiset(Moved(s, i, n)) == multiset(s) - multiset{s[i + n]} + multiset{ZERO}
  {
    assert s == s[..i] + s[i..i + n] + [s[i + n]] + s[i + n + 1..];
  }

  ghost predicate IsPermutation(s: string, ns: seq<string>) {
    exists ms {:trigger Multi(ms)} :: Items(ms, ZERO) && multiset(ms) == multiset(ns) && s == Multi(ms)
  }

  lemma CutNotPermutation(ns: seq<string>, i: nat, n: nat)
    requires Items(ns, ZERO) && i + n < |Multi(ns)| && Multi(ns)[i + n] != ZERO
    ensures !IsPermutation(Moved(Multi(ns), i, n), ns)
  {
    hide Joined, Multi, Moved;
    var s := Multi(ns);
    MovedZeros(s, i, n);
    Zeros(ns);
    forall ms | Items(ms, ZERO) && multiset(ms) == multiset(ns)
      ensures Moved(s, i, n) != Multi(ms)
    {
      Zeros(ms);
      assert |ms| == |multiset(ms)| == |multiset(ns)| == |ns|;
    }
  }

  /** If the name `t` is the end of the entry `x + t`, then what is left of that entry is
      joined with the one that follows. */
  function Rejoined(ns: seq<string>, k: nat, x: string, t: string): (ms: seq<string>)
    requires k + 1 < |ns|
  {
    [t] + ns[..k] + [x + ns[k + 1]] + ns[k + 2..]
  }

  lemma MovedEnd(ns: seq<string>, k: nat, x: string, t: string)
    requires k < |ns| && ns[k] == x + t
    ensures var i := |Joined(ns[..k], ZERO)| + |x|;
      i + |t| < |Multi(ns)| &&
      Moved(Multi(ns), i, |t|) == t + [ZERO] + (Joined(ns[..k], ZERO) + x) + Multi(ns[k + 1..])
  {
    hide Joined, Multi, Moved;
    var before, after := Joined(ns[..k], ZERO), Multi(ns[k + 1..]);
    MultiAround(ns, k);
    assert before + (x + t + [ZERO] + after) == (before + x) + (t + [ZERO] + after);
    MovedMiddle(before + x, t, after);
  }

  lemma MovedEndJoins(ns: seq<string>, k: nat, x: string, t: string)
    requires k + 1 < |ns| && ns[k] == x + t
    ensures var i := |Joined(ns[..k], ZERO)| + |x|;
      i + |t| < |Multi(ns)| && Moved(Multi(ns), i, |t|) == Multi(Rejoined(ns, k, x, t))
  {
    hide Joined, Moved;
    MovedEnd(ns, k, x, t);
    var before, q, rest := Joined(ns[..k], ZERO), ns[k + 1], ns[k + 2..];
    assert ns[k + 1..] == [q] + rest;
    JoinedFirst(q, rest);
    assert Rejoined(ns, k, x, t) == [t] + (ns[..k] + ([x + q] + rest));
    JoinedFirst(t, ns[..k] + ([x + q] + rest));
    JoinedMore(ns[..k], [x + q] + rest, ZERO);
    JoinedFirst(x + q, rest);
  }

  lemma RejoinedItems(ns: seq<string>, k: nat, x: string, t: string)
    requires Items(ns, ZERO) && k + 1 < |ns| && ns[k] == x + t && t != ""
    ensures Items(Rejoined(ns, k, x, t), ZERO)
  {
    assert forall c :: c in x || c in t ==> c in ns[k];
    assert forall c :: c in x + ns[k + 1] ==> c in ns[k] || c in ns[k + 1];
    assert Items(ns[..k], ZERO) && Items(ns[k + 2..], ZERO) && Items([t], ZERO) && Items([x + ns[k + 1]], ZERO);
  }

  lemma RejoinedEntries(ns: seq<string>, k: nat, x: string, t: string)
    requires k + 1 < |ns| && ns[k] == x + t
    ensures multiset(Rejoined(ns, k, x, t)) == multiset(ns) - multiset{x + t, ns[k + 1]} + multiset{t, x + ns[k + 1]}
  {
    assert ns == ns[..k] + [x + t] + [ns[k + 1]] + ns[k + 2..];
  }

  lemma SamePair(m: multiset<string>, x: string, t: string, q: string)
    requires x != "" && multiset{x + t, q} <= m
    ensures m - multiset{x + t, q} + multiset{t, x + q} == m <==> q == t
  {
    var m' := m - multiset{x + t, q} + multiset{t, x + q};
    assert |x + t| != |t|;
    assert m'[t] == m[t] - (if q == t then 1 else 0) + 1 + (if x + q == t then 1 else 0);
  }

  /** A name that is only the end of the last entry leaves the list without its final
      zero. */
  lemma LastEndNotPermutation(ns: seq<string>, x: string, t: string)
    requires Items(ns, ZERO) && ns != [] && ns[|ns| - 1] == x + t && x != "" && t != ""
    ensures var i := |Joined(ns[..|ns| - 1], ZERO)| + |x|;
      i + |t| < |Multi(ns)| && !IsPermutation(Moved(Multi(ns), i, |t|), ns)
  {
    hide Joined, Moved;
    var k := |ns| - 1;
    MovedEnd(ns, k, x, t);
    NoneJoined();
    var s := t + [ZERO] + (Joined(ns[..k], ZERO) + x) + [ZERO];
    assert ns[k + 1..] == [];
    var c := x[|x| - 1];
    assert c in ns[k] && s[|s| - 2] == c;
    forall ms | Items(ms, ZERO) && multiset(ms) == multiset(ns)
      ensures s != Multi(ms)
    {
      assert |ms| == |multiset(ms)| == |multiset(ns)| == |ns|;
      TwoZeros(ms);
    }
  }

  lemma TwoZeros(ms: seq<string>)
    requires ms != []
    ensures var s := Multi(ms); |s| >= 2 && s[|s| - 2] == ZERO
  {
    hide Joined;
    var k := |ms| - 1;
    assert ms == ms[..k] + ([ms[k]] + []);
    JoinedMore(ms[..k], [ms[k]] + [], ZERO);
    JoinedFirst(ms[k], []);
    NoneJoined();
  }

  /** The name at `i` is followed by an entry with just this name. */
  predicate RepeatedNext(s: string, t: string, i: nat)
    requires i + |t| < |s|
  {
    s[i + |t|] == ZERO && OccursAt(s, t, i + |t| + 1) && s[i + 2 * |t| + 1] == ZERO
  }

  lemma RepeatedIs(ns: seq<string>, k: nat, x: string, t: string)
    requires Items(ns, ZERO) && k < |ns| && ns[k] == x + t && t != "" && ZERO !in t
    ensures var i := |Joined(ns[..k], ZERO)| + |x|;
      i + |t| < |Multi(ns)| && (RepeatedNext(Multi(ns), t, i) <==> k + 1 < |ns| && ns[k + 1] == t)
  {
    hide Joined, Multi;
    MultiAround(ns, k);
    var s, i := Multi(ns), |Joined(ns[..k], ZERO)| + |x|;
    assert s[i + |t|] == ZERO;
    var after := Multi(ns[k + 1..]);
    assert s[i + |t| + 1..] == after;
    NextIs(ns[k + 1..], t);
    if OccursAt(s, t, i + |t| + 1) {
      assert s[i + |t| + 1..i + |t| + 1 + |t|] == after[0..|t|];
    }
    if OccursAt(after, t, 0) {
      assert after[0..|t|] == s[i + |t| + 1..i + |t| + 1 + |t|];
    }
  }

  lemma NextIs(ns: seq<string>, t: string)
    requires Items(ns, ZERO) && t != "" && ZERO !in t
    ensures (OccursAt(Multi(ns), t, 0) && Multi(ns)[|t|] == ZERO) <==> (ns != [] && ns[0] == t)
  {
    if OccursAt(Multi(ns), t, 0) && Multi(ns)[|t|] == ZERO {
      var k, o := Occurrence(ns, t, 0);
      NoneJoined();
      EntryEnds(ns, k, o, |t|);
      EmptyFront(ns, k);
      assert ns[0][0..|t|] == ns[0];
    }
    if ns != [] && ns[0] == t {
      MultiAround(ns, 0);
      NoneJoined();
      assert Multi(ns)[0..|t|] == t;
    }
  }

  lemma JoinedGrows(ns: seq<string>)
    ensures |Joined(ns, ZERO)| >= |ns|
  {
    if ns != [] {
      JoinedGrows(ns[1..]);
    }
  }

  lemma EmptyFront(ns: seq<string>, k: nat)
    requires k < |ns| && |Joined(ns[..k], ZERO)| == 0
    ensures k == 0
  {
    JoinedGrows(ns[..k]);
  }

  /** Moving the name that is found at `i` to the front is a permutation of the entries
      exactly when it is a whole entry there, or the end of one before an entry with just
      that name. In all other cases it mixes parts of names. */
  lemma ReorderExact(ns: seq<string>, t: string, i: nat)
    requires Items(ns, ZERO) && t != "" && ZERO !in t && OccursAt(Multi(ns), t, i)
    ensures IsPermutation(Moved(Multi(ns), i, |t|), ns) <==>
      WholeEntry(Multi(ns), i, |t|) || RepeatedNext(Multi(ns), t, i)
  {
    hide Joined, Multi, Moved, RepeatedNext, OccursAt;
    var k, o := Occurrence(ns, t, i);
    EntryEnds(ns, k, o, |t|);
    if o + |t| != |ns[k]| {
      CutNotPermutation(ns, i, |t|);
      CutNotRepeated(Multi(ns), t, i);
    } else if o == 0 {
      var k' := PreferredFirst(ns, t, i);
      PreferredItems(ns, k');
    } else {
      var x := ns[k][..o];
      assert ns[k] == x + t;
      RepeatedIs(ns, k, x, t);
      if k + 1 < |ns| {
        EndExact(ns, k, x, t);
      } else {
        LastEndNotPermutation(ns, x, t);
      }
    }
  }

  lemma CutNotRepeated(s: string, t: string, i: nat)
    requires i + |t| < |s| && s[i + |t|] != ZERO
    ensures !RepeatedNext(s, t, i)
  {
  }

  lemma PreferredItems(ns: seq<string>, k: nat)
    requires Items(ns, ZERO) && k < |ns|
    ensures Items(Preferred(ns, k), ZERO)
  {
  }

  lemma EndExact(ns: seq<string>, k: nat, x: string, t: string)
    requires Items(ns, ZERO) && k + 1 < |ns| && ns[k] == x + t && x != "" && t != ""
    ensures var i := |Joined(ns[..k], ZERO)| + |x|;
      i + |t| < |Multi(ns)| && (IsPermutation(Moved(Multi(ns), i, |t|), ns) <==> ns[k + 1] == t)
  {
    hide Joined, Multi, Moved;
    var ms := Rejoined(ns, k, x, t);
    MovedEndJoins(ns, k, x, t);
    RejoinedItems(ns, k, x, t);
    RejoinedEntries(ns, k, x, t);
    assert ns == ns[..k] + [x + t] + [ns[k + 1]] + ns[k + 2..];
    SamePair(multiset(ns), x, t, ns[k + 1]);
    forall ms' | Items(ms', ZERO) && Multi(ms') == Multi(ms)
      ensures ms' == ms
    {
      MultiInjective(ms', ms);
    }
  }

  lemma MultiInjective(ns: seq<string>, ms: seq<string>)
    requires Items(ns, ZERO) && Items(ms, ZERO) && Multi(ns) == Multi(ms)
    ensures ns == ms
  {
    assert Joined(ns, ZERO) == Multi(ns)[..|Multi(ns)| - 1] == Joined(ms, ZERO);
    JoinedInjective(ns, ms, ZERO);
  }

  /** A reader whose name begins like the preferred one, and stands before it, is cut. */
  lemma NameBeginsAlike()
    ensures var ns := ["AB", "A"];
      && Items(ns, ZERO) && IsFirst(Multi(ns), "A", 0)
      && Moved(Multi(ns), 0, 1) == "A\0\0A\0\0"
      && !IsPermutation(Moved(Multi(ns), 0, 1), ns)
  {
    var ns := ["AB", "A"];
    assert ns[1..] == ["A"] && ns[1..][1..] == [];
    assert Multi(ns) == ['A', 'B', ZERO, 'A', ZERO, ZERO];
    CutNotPermutation(ns, 0, 1);
  }
}
