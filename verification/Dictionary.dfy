/** The dictionary of configuration entries, after `dictionary_*` and `iniparser_get*` of
    `iniparser_all.h`: arrays with holes that stand for a finite map. */
module Dictionary {
  import opened Wrappers

  const MIN_SIZE := 128
  const LINE_SIZE := 1024

  // ---------------------------------------------------------------- keys

  /** A C `char` is signed and widened to 32 bits. */
  function Widen(c: char): bv32 {
    var k := c as int % 256;
    if k < 128 then k as bv32 else (k + 0xFFFFFF00) as bv32
  }

  function Mix(hash: bv32, c: char): bv32 {
    var a := hash + Widen(c);
    var b := a + (a << 10);
    b ^ (b >> 6)
  }

  function Mixed(key: string): bv32 {
    if key == "" then 0 else Mix(Mixed(key[..|key| - 1]), key[|key| - 1])
  }

  function Finish(hash: bv32): bv32 {
    var a := hash + (hash << 3);
    var b := a ^ (a >> 11);
    b + (b << 15)
  }

  function Hash(key: string): bv32 {
    Finish(Mixed(key))
  }

  /** The hashes of the empty key, of "a" and of "ab". */
  lemma HashesOfLetters()
    ensures Hash("") == 0 && Hash("a") == 0xCA2E9442 && Hash("ab") == 0x45E61E58
  {
    hide Mix, Finish, Widen;
    assert "a"[..0] == "";
    assert Mixed("a") == Mix(0, 'a');
    assert "ab"[..1] == "a";
    assert Mixed("ab") == Mix(Mixed("a"), 'b');
    WidenPlain('a', 97);
    WidenPlain('b', 98);
    SameNumber();
    MixOne('a');
    MixNext('b');
    FinishThree();
  }

  lemma WidenPlain(c: char, k: int)
    requires c as int % 256 == k < 128
    ensures Widen(c) == k as bv32
  {
  }

  /** A character from 128 on is negative. */
  lemma WidenNegative(c: char, k: int)
    requires c as int % 256 == k >= 128
    ensures Widen(c) == (0x1_0000_0000 + (k - 256)) as bv32
  {
  }

  lemma SameNumber()
    ensures 97 as bv32 == 0x61 && 98 as bv32 == 0x62
  {
  }

  lemma MixOne(c: char)
    requires Widen(c) == 0x61
    ensures Mix(0, c) == 0x18270
  {
    hide Widen;
  }

  lemma MixNext(c: char)
    requires Widen(c) == 0x62
    ensures Mix(0x18270, c) == 0x614F9F9
  {
    hide Widen;
  }

  lemma FinishThree()
    ensures Finish(0) == 0 && Finish(0x18270) == 0xCA2E9442 && Finish(0x614F9F9) == 0x45E61E58
  {
  }

  method HashOf(key: string) returns (hash: bv32)
    ensures hash == Hash(key)
  {
    hide Mix, Finish;
    hash := 0;
    for i := 0 to |key|
      invariant hash == Mixed(key[..i])
    {
      assert key[..i + 1][..i] == key[..i];
      hash := Mix(hash, key[i]);
    }
    assert key[..|key|] == key;
    hash := Finish(hash);
  }

  // ---------------------------------------------------------------- slots

  type Slots = seq<Option<string>>

  function Occupied(ks: Slots): (n: nat)
    ensures n <= |ks|
  {
    if ks == [] then 0 else Occupied(ks[..|ks| - 1]) + if ks[|ks| - 1].Some? then 1 else 0
  }

  lemma {:induction false} OccupiedUpdate(ks: Slots, i: nat, k: Option<string>)
    requires i < |ks|
    ensures Occupied(ks[i := k]) == Occupied(ks) - (if ks[i].Some? then 1 else 0) + (if k.Some? then 1 else 0)
  {
    if i == |ks| - 1 {
      assert ks[i := k][..i] == ks[..i];
    } else {
      assert ks[i := k][..|ks| - 1] == ks[..|ks| - 1][i := k];
      OccupiedUpdate(ks[..|ks| - 1], i, k);
    }
  }

  lemma {:induction false} OccupiedMore(ks: Slots, more: Slots)
    requires forall i :: 0 <= i < |more| ==> more[i].None?
    ensures Occupied(ks + more) == Occupied(ks)
  {
    if more == [] {
      assert ks + more == ks;
    } else {
      assert (ks + more)[..|ks + more| - 1] == ks + more[..|more| - 1];
      OccupiedMore(ks, more[..|more| - 1]);
    }
  }

  lemma {:induction false} NoneOccupied(ks: Slots)
    ensures Occupied(ks) == 0 <==> forall i :: 0 <= i < |ks| ==> ks[i].None?
  {
    if ks != [] {
      var init := ks[..|ks| - 1];
      NoneOccupied(init);
      assert forall i :: 0 <= i < |init| ==> init[i] == ks[i];
    }
  }

  /** There is a hole as long as not every slot is counted. */
  lemma {:induction false} FindHole(ks: Slots) returns (e: nat)
    requires Occupied(ks) < |ks|
    ensures e < |ks| && ks[e].None?
  {
    e := |ks| - 1;
    if ks[e].Some? {
      e := FindHole(ks[..|ks| - 1]);
    }
  }

  ghost predicate DistinctKeys(ks: Slots) {
    forall i, j :: 0 <= i < j < |ks| && ks[i].Some? && ks[j].Some? ==> ks[i] != ks[j]
  }

  /** The slots hold exactly the entries of `m`. */
  ghost predicate Holds(ks: Slots, vs: Slots, m: map<string, Option<string>>) {
    && |vs| == |ks|
    && (forall i :: 0 <= i < |ks| && ks[i].Some? ==> ks[i].value in m && m[ks[i].value] == vs[i])
    && (forall k {:trigger Some(k) in ks} {:trigger k in m} :: k in m ==> Some(k) in ks)
  }

  ghost predicate Cached(ks: Slots, hs: seq<bv32>) {
    |hs| == |ks| && forall i :: 0 <= i < |ks| && ks[i].Some? ==> hs[i] == Hash(ks[i].value)
  }

  ghost predicate Cleared(ks: Slots, vs: Slots, hs: seq<bv32>) {
    |vs| == |hs| == |ks| && forall i :: 0 <= i < |ks| && ks[i].None? ==> vs[i].None? && hs[i] == 0
  }

  /** The map has as many entries as slots are occupied. */
  lemma {:induction false} EntryCount(ks: Slots, vs: Slots, m: map<string, Option<string>>)
    requires DistinctKeys(ks) && Holds(ks, vs, m)
    ensures |m| == Occupied(ks)
  {
    if ks == [] {
      assert m == map[];
    } else {
      var l := |ks| - 1;
      if ks[l].None? {
        EntryCount(ks[..l], vs[..l], m);
      } else {
        var k := ks[l].value;
        WithoutLast(ks, vs, m);
        OneLess(m, k);
        EntryCount(ks[..l], vs[..l], m - {k});
      }
    }
  }

  lemma OneLess(m: map<string, Option<string>>, k: string)
    requires k in m
    ensures |m| == |m - {k}| + 1
  {
    assert m == (m - {k})[k := m[k]];
  }

  lemma WithoutLast(ks: Slots, vs: Slots, m: map<string, Option<string>>)
    requires DistinctKeys(ks) && Holds(ks, vs, m) && ks != [] && ks[|ks| - 1].Some?
    ensures ks[|ks| - 1].value in m
    ensures Holds(ks[..|ks| - 1], vs[..|ks| - 1], m - {ks[|ks| - 1].value})
  {
    var l, m' := |ks| - 1, m - {ks[|ks| - 1].value};
    forall k | k in m'
      ensures Some(k) in ks[..l]
    {
      var j :| 0 <= j < |ks| && ks[j] == Some(k);
      assert ks[..l][j] == Some(k);
    }
  }

  // ---------------------------------------------------------------- arrays that stand for a map

  ghost predicate Represents(ks: Slots, vs: Slots, hs: seq<bv32>, n: int, m: map<string, Option<string>>) {
    DistinctKeys(ks) && Holds(ks, vs, m) && Cached(ks, hs) && Cleared(ks, vs, hs) && n == Occupied(ks)
  }

  lemma Lookup(ks: Slots, vs: Slots, hs: seq<bv32>, n: int, m: map<string, Option<string>>, i: nat)
    requires Represents(ks, vs, hs, n, m) && i < |ks| && ks[i].Some?
    ensures |vs| == |ks| && ks[i].value in m && m[ks[i].value] == vs[i]
  {
  }

  lemma Missing(ks: Slots, vs: Slots, hs: seq<bv32>, n: int, m: map<string, Option<string>>, key: string)
    requires Represents(ks, vs, hs, n, m) && forall i :: 0 <= i < |ks| ==> ks[i] != Some(key)
    ensures key !in m
  {
  }

  lemma Updated(ks: Slots, vs: Slots, hs: seq<bv32>, n: int, m: map<string, Option<string>>,
                i: nat, val: Option<string>)
    requires Represents(ks, vs, hs, n, m) && i < |ks| && ks[i].Some?
    ensures |vs| == |ks| && Represents(ks, vs[i := val], hs, n, m[ks[i].value := val])
  {
  }

  lemma Inserted(ks: Slots, vs: Slots, hs: seq<bv32>, n: int, m: map<string, Option<string>>,
                 i: nat, key: string, val: Option<string>)
    requires Represents(ks, vs, hs, n, m) && i < |ks| && ks[i].None? && key !in m
    ensures |vs| == |hs| == |ks|
    ensures Represents(ks[i := Some(key)], vs[i := val], hs[i := Hash(key)], n + 1, m[key := val])
  {
    hide Hash;
    OccupiedUpdate(ks, i, Some(key));
    var ks', m' := ks[i := Some(key)], m[key := val];
    forall k | k in m'
      ensures Some(k) in ks'
    {
      if k == key {
        assert ks'[i] == Some(k);
      } else {
        assert k in m;
        var j :| 0 <= j < |ks| && ks[j] == Some(k);
        assert ks'[j] == Some(k);
      }
    }
  }

  lemma Removed(ks: Slots, vs: Slots, hs: seq<bv32>, n: int, m: map<string, Option<string>>, i: nat)
    requires Represents(ks, vs, hs, n, m) && i < |ks| && ks[i].Some?
    ensures |vs| == |hs| == |ks|
    ensures Represents(ks[i := None], vs[i := None], hs[i := 0], n - 1, m - {ks[i].value})
  {
    hide Hash, Holds;
    OccupiedUpdate(ks, i, None);
    assert |vs| == |hs| == |ks|;
    HoldsWithout(ks, vs, m, i);
  }

  lemma HoldsWithout(ks: Slots, vs: Slots, m: map<string, Option<string>>, i: nat)
    requires DistinctKeys(ks) && Holds(ks, vs, m) && i < |ks| && ks[i].Some?
    ensures Holds(ks[i := None], vs[i := None], m - {ks[i].value})
  {
    var ks', m' := ks[i := None], m - {ks[i].value};
    forall k | k in m'
      ensures Some(k) in ks'
    {
      var j :| 0 <= j < |ks| && ks[j] == Some(k);
      assert ks'[j] == Some(k);
    }
  }

  lemma Widened(ks: Slots, vs: Slots, hs: seq<bv32>, n: int, m: map<string, Option<string>>,
                ks': Slots, vs': Slots, hs': seq<bv32>)
    requires Represents(ks, vs, hs, n, m) && |ks'| == |vs'| == |hs'| >= |ks|
    requires ks' == ks + ks'[|ks|..] && vs' == vs + vs'[|ks|..] && hs' == hs + hs'[|ks|..]
    requires forall i :: |ks| <= i < |ks'| ==> ks'[i].None? && vs'[i].None? && hs'[i] == 0
    ensures Represents(ks', vs', hs', n, m)
  {
    hide Holds, Hash;
    OccupiedMore(ks, ks'[|ks|..]);
    assert forall i :: 0 <= i < |ks| ==> ks'[i] == ks[i] && vs'[i] == vs[i] && hs'[i] == hs[i];
    HoldsWidened(ks, vs, m, ks', vs');
  }

  lemma HoldsWidened(ks: Slots, vs: Slots, m: map<string, Option<string>>, ks': Slots, vs': Slots)
    requires Holds(ks, vs, m) && |ks'| == |vs'| >= |ks|
    requires forall i :: 0 <= i < |ks| ==> ks'[i] == ks[i] && vs'[i] == vs[i]
    requires forall i :: |ks| <= i < |ks'| ==> ks'[i].None?
    ensures Holds(ks', vs', m)
  {
    forall k | k in m
      ensures Some(k) in ks'
    {
      var j :| 0 <= j < |ks| && ks[j] == Some(k);
      assert ks'[j] == Some(k);
    }
  }

  lemma Start(ks: Slots, vs: Slots, hs: seq<bv32>)
    requires |vs| == |hs| == |ks|
    requires forall i :: 0 <= i < |ks| ==> ks[i].None? && vs[i].None? && hs[i] == 0
    ensures Represents(ks, vs, hs, 0, map[])
  {
    NoneOccupied(ks);
  }

  // ---------------------------------------------------------------- the dictionary

  /** A zeroed array of twice the size that begins with a copy of `a`. */
  method Doubled<T>(a: array<T>, zero: T) returns (b: array<T>)
    ensures fresh(b) && b.Length == 2 * a.Length
    ensures b[..] == a[..] + b[a.Length..] && forall i :: a.Length <= i < b.Length ==> b[i] == zero
  {
    b := new T[2 * a.Length](_ => zero);
    forall i | 0 <= i < a.Length { b[i] := a[i]; }
  }

  class Dictionary {
    var n: int
    var size: int
    var val: array<Option<string>>
    var key: array<Option<string>>
    var hash: array<bv32>

    /** The entries; a section is an entry without a value. */
    ghost var contents: map<string, Option<string>>

    ghost predicate Valid()
      reads this, key, val, hash
    {
      && key != val && hash as object != key && hash as object != val
      && size == key.Length == val.Length == hash.Length >= MIN_SIZE
      && Represents(key[..], val[..], hash[..], n, contents)
    }

    /** The counter is the number of entries and never more than the slots. */
    lemma Counted()
      requires Valid()
      ensures n == |contents| <= size
    {
      EntryCount(key[..], val[..], contents);
    }

    constructor (size: nat)
      ensures Valid() && fresh(key) && fresh(val) && fresh(hash)
      ensures contents == map[] && this.size == if size < 128 then 128 else size
    {
      var room := if size < MIN_SIZE then MIN_SIZE else size;
      this.size, n := room, 0;
      val := new Option<string>[room](_ => None);
      key := new Option<string>[room](_ => None);
      hash := new bv32[room](_ => 0);
      contents := map[];
      new;
      Start(key[..], val[..], hash[..]);
    }

    /** The slot with this key, or `size`. */
    method Find(k: string) returns (i: int)
      requires Valid()
      ensures 0 <= i <= size && (i < size ==> key[i] == Some(k))
      ensures i < size <==> k in contents
      ensures i < size ==> contents[k] == val[i]
    {
      hide Represents, Hash;
      var h := HashOf(k);
      i := 0;
      while i < size
        invariant 0 <= i <= size && forall j :: 0 <= j < i ==> key[j] != Some(k)
      {
        if key[i].Some? {
          HashAt(key[..], val[..], hash[..], n, contents, i);
          if h == hash[i] && k == key[i].value {
            Lookup(key[..], val[..], hash[..], n, contents, i);
            return;
          }
        }
        i := i + 1;
      }
      Missing(key[..], val[..], hash[..], n, contents, k);
    }

    method Get(k: string, def: Option<string>) returns (r: Option<string>)
      requires Valid()
      ensures r == if k in contents then contents[k] else def
    {
      var i := Find(k);
      r := if i < size then val[i] else def;
    }

    /** Twice as many slots for the same entries. */
    method Grow()
      requires Valid()
      modifies this
      ensures Valid() && fresh(key) && fresh(val) && fresh(hash)
      ensures contents == old(contents) && n == old(n) && size == 2 * old(size)
      ensures key[..old(size)] == old(key[..]) && forall i :: old(size) <= i < size ==> key[i].None?
    {
      hide Represents;
      var newVal := Doubled(val, None);
      var newKey := Doubled(key, None);
      var newHash := Doubled(hash, 0);
      Widened(key[..], val[..], hash[..], n, contents, newKey[..], newVal[..], newHash[..]);
      size := size * 2;
      val, key, hash := newVal, newKey, newHash;
    }

    lemma Hole() returns (e: nat)
      requires Valid() && n < size
      ensures 0 <= n && e < size && key[e].None?
    {
      Counted();
      e := FindHole(key[..]);
    }

    /** The first empty slot from `n` on, around the end. The search ends because not all
        slots are taken. */
    method FindSlot() returns (i: int)
      requires Valid() && n < size
      ensures 0 <= i < size && key[i].None?
      ensures forall j :: n <= j < size && (j < i || i < n) ==> key[j].Some?
      ensures i < n ==> forall j :: 0 <= j < i ==> key[j].Some?
    {
      hide Represents;
      ghost var e := Hole();
      i := n;
      while key[i].Some?
        invariant 0 <= i < size && (i >= n || e < n)
        invariant i < n ==> i <= e < n
        invariant forall j :: n <= j < size && (j < i || i < n) ==> key[j].Some?
        invariant i < n ==> forall j :: 0 <= j < i ==> key[j].Some?
        decreases if i <= e then e - i else size - i + e
      {
        i := i + 1;
        if i == size {
          i := 0;
        }
      }
    }

    /** Returns 0, as memory does not run out here. */
    method Set(k: string, v: Option<string>) returns (r: int)
      requires Valid()
      modifies this, key, val, hash
      ensures Valid() && r == 0 && contents == old(contents)[k := v]
      ensures size == if k !in old(contents) && old(n) == old(size) then 2 * old(size) else old(size)
      ensures (key == old(key) && val == old(val) && hash == old(hash)) || (fresh(key) && fresh(val) && fresh(hash))
    {
      hide Represents, Hash;
      Counted();
      if n > 0 {
        var i := Find(k);
        if i < size {
          Updated(key[..], val[..], hash[..], n, contents, i, v);
          val[i] := v;
          contents := contents[k := v];
          return 0;
        }
      }
      assert k !in contents;
      if n == size {
        Grow();
      }
      var i := FindSlot();
      Insert(i, k, v);
      r := 0;
    }

    method Insert(i: int, k: string, v: Option<string>)
      requires Valid() && 0 <= i < size && key[i].None? && k !in contents
      modifies this`n, this`contents, key, val, hash
      ensures Valid() && contents == old(contents)[k := v]
    {
      hide Represents, Hash;
      Inserted(key[..], val[..], hash[..], n, contents, i, k, v);
      key[i] := Some(k);
      val[i] := v;
      hash[i] := HashOf(k);
      n := n + 1;
      contents := contents[k := v];
    }

    method Unset(k: string)
      requires Valid()
      modifies this, key, val, hash
      ensures Valid() && contents == old(contents) - {k}
      ensures size == old(size) && key == old(key) && val == old(val) && hash == old(hash)
    {
      hide Represents, Hash;
      var i := Find(k);
      if i >= size {
        return;
      }
      Removed(key[..], val[..], hash[..], n, contents, i);
      key[i] := None;
      val[i] := None;
      hash[i] := 0;
      n := n - 1;
      contents := contents - {k};
    }
  }

  lemma HashAt(ks: Slots, vs: Slots, hs: seq<bv32>, n: int, m: map<string, Option<string>>, i: nat)
    requires Represents(ks, vs, hs, n, m) && i < |ks| && ks[i].Some?
    ensures |hs| == |ks| && hs[i] == Hash(ks[i].value)
  {
  }

  // ---------------------------------------------------------------- sections

  /** The keys with the property, in the order of their slots. */
  function Select(ks: Slots, p: string -> bool): (found: seq<string>)
    ensures |found| <= |ks|
  {
    if ks == [] then []
    else
      var l := ks[|ks| - 1];
      Select(ks[..|ks| - 1], p) + if l.Some? && p(l.value) then [l.value] else []
  }

  lemma SelectNext(ks: Slots, p: string -> bool, i: nat)
    requires i < |ks|
    ensures Select(ks[..i + 1], p) == Select(ks[..i], p) + if ks[i].Some? && p(ks[i].value) then [ks[i].value] else []
  {
    assert ks[..i + 1][..i] == ks[..i];
  }

  lemma {:induction false} SelectPrefix(ks: Slots, p: string -> bool, i: nat)
    requires i <= |ks|
    ensures Select(ks[..i], p) <= Select(ks, p)
  {
    if i < |ks| {
      SelectPrefix(ks[..|ks| - 1], p, i);
      assert ks[..|ks| - 1][..i] == ks[..i];
    } else {
      assert ks[..i] == ks;
    }
  }

  lemma {:induction false} SelectFinds(ks: Slots, p: string -> bool, k: string)
    ensures k in Select(ks, p) <==> Some(k) in ks && p(k)
  {
    if ks != [] {
      SelectFinds(ks[..|ks| - 1], p, k);
      assert ks == ks[..|ks| - 1] + [ks[|ks| - 1]];
    }
  }

  lemma {:induction false} SelectOnce(ks: Slots, p: string -> bool)
    requires DistinctKeys(ks)
    ensures forall i, j :: 0 <= i < j < |Select(ks, p)| ==> Select(ks, p)[i] != Select(ks, p)[j]
  {
    if ks != [] {
      var init, l := ks[..|ks| - 1], ks[|ks| - 1];
      SelectOnce(init, p);
      if l.Some? {
        SelectFinds(init, p, l.value);
      }
    }
  }

  /** Every entry with the property is enumerated, exactly once, and nothing else is. */
  lemma SelectEntries(ks: Slots, vs: Slots, m: map<string, Option<string>>, p: string -> bool, k: string)
    requires DistinctKeys(ks) && Holds(ks, vs, m)
    ensures multiset(Select(ks, p))[k] == if k in m && p(k) then 1 else 0
  {
    hide DistinctKeys;
    SelectOnce(ks, p);
    SelectFinds(ks, p, k);
    OnceCounts(Select(ks, p), k);
  }

  lemma {:induction false} OnceCounts(s: seq<string>, k: string)
    requires forall i, j :: 0 <= i < j < |s| ==> s[i] != s[j]
    ensures multiset(s)[k] == if k in s then 1 else 0
  {
    if s != [] {
      var init := s[..|s| - 1];
      OnceCounts(init, k);
      assert s == init + [s[|s| - 1]];
      assert s[|s| - 1] !in init;
    }
  }

  /** The entry in slot `i` comes after just those in the slots before. */
  lemma SelectAt(ks: Slots, p: string -> bool, i: nat)
    requires i < |ks| && ks[i].Some? && p(ks[i].value)
    ensures |Select(ks[..i], p)| < |Select(ks, p)| && Select(ks, p)[|Select(ks[..i], p)|] == ks[i].value
  {
    hide Select;
    SelectNext(ks, p, i);
    SelectPrefix(ks, p, i + 1);
  }

  predicate IsSection(k: string) {
    ':' !in k
  }

  method GetNSec(d: Dictionary) returns (nsec: int)
    requires d.Valid()
    ensures nsec == |Select(d.key[..], IsSection)|
  {
    hide Represents, IsSection;
    nsec := 0;
    var i := 0;
    while i < d.size
      invariant 0 <= i <= d.size && nsec == |Select(d.key[..i], IsSection)|
    {
      SelectNext(d.key[..], IsSection, i);
      assert d.key[..][..i] == d.key[..i] && d.key[..][..i + 1] == d.key[..i + 1];
      if d.key[i].Some? && IsSection(d.key[i].value) {
        nsec := nsec + 1;
      }
      i := i + 1;
    }
    assert d.key[..i] == d.key[..];
  }

  /** The name of the `n`th section, or nothing outside the range. */
  method GetSecName(d: Dictionary, n: int) returns (name: Option<string>)
    requires d.Valid()
    ensures name ==
      var sections := Select(d.key[..], IsSection);
      if 0 <= n < |sections| then Some(sections[n]) else None
  {
    hide Represents, IsSection;
    if n < 0 {
      return None;
    }
    var foundsec := 0;
    var i := 0;
    while i < d.size
      invariant 0 <= i <= d.size && foundsec == |Select(d.key[..i], IsSection)| <= n
    {
      SelectNext(d.key[..], IsSection, i);
      assert d.key[..][..i] == d.key[..i] && d.key[..][..i + 1] == d.key[..i + 1];
      if d.key[i].Some? && IsSection(d.key[i].value) {
        foundsec := foundsec + 1;
        if foundsec > n {
          SelectPrefix(d.key[..], IsSection, i + 1);
          return d.key[i];
        }
      }
      i := i + 1;
    }
    assert d.key[..i] == d.key[..];
    name := None;
  }

  function Lower(c: char): char {
    if 'A' <= c <= 'Z' then c + 32 as char else c
  }

  function LowerAll(s: string): (t: string)
    ensures |t| == |s|
  {
    seq(|s|, i requires 0 <= i < |s| => Lower(s[i]))
  }

  /** The string in lower case, as far as the buffer reaches. */
  method Strlwc(s: string, len: nat) returns (out: string)
    requires len > 0
    ensures out == LowerAll(s)[..if |s| < len - 1 then |s| else len - 1]
    ensures |out| == if |s| < len - 1 then |s| else len - 1
    ensures forall i :: 0 <= i < |out| ==>
      if 'A' <= s[i] <= 'Z' then out[i] as int - 'a' as int == s[i] as int - 'A' as int else out[i] == s[i]
  {
    out := "";
    var i := 0;
    while i < |s| && i < len - 1
      invariant 0 <= i <= |s| && i <= len - 1 && out == LowerAll(s)[..i]
    {
      out := out + [Lower(s[i])];
      i := i + 1;
    }
  }

  /** What is looked up for a name: long names are cut. */
  function EntryOf(s: string): string {
    LowerAll(s)[..if |s| < LINE_SIZE then |s| else LINE_SIZE]
  }

  /** Only the case of a letter may differ. */
  predicate SameLetter(c: char, d: char) {
    || c == d
    || ('A' <= c <= 'Z' && 'a' <= d <= 'z' && d as int - 'a' as int == c as int - 'A' as int)
    || ('a' <= c <= 'z' && 'A' <= d <= 'Z' && c as int - 'a' as int == d as int - 'A' as int)
  }

  /** Two names find the same entry exactly when their first 1024 characters differ in
      nothing but the case of letters. */
  lemma SameEntry(s: string, t: string)
    ensures EntryOf(s) == EntryOf(t) <==>
      var m, n := if |s| < 1024 then |s| else 1024, if |t| < 1024 then |t| else 1024;
      m == n && forall i :: 0 <= i < m ==> SameLetter(s[i], t[i])
  {
    forall i | 0 <= i < |s| && i < |t|
      ensures LowerAll(s)[i] == LowerAll(t)[i] <==> SameLetter(s[i], t[i])
    {
    }
    if EntryOf(s) == EntryOf(t) {
      forall i | 0 <= i < |s| && i < 1024
        ensures i < |t| && SameLetter(s[i], t[i])
      {
        assert EntryOf(s)[i] == LowerAll(s)[i] && EntryOf(t)[i] == LowerAll(t)[i];
      }
    }
  }

  /** The names that are looked up as they are: those short enough and without upper-case
      letters. */
  lemma EntryIsName(s: string)
    ensures EntryOf(s) == s <==> |s| <= 1024 && forall i :: 0 <= i < |s| ==> !('A' <= s[i] <= 'Z')
  {
    if EntryOf(s) == s {
      forall i | 0 <= i < |s|
        ensures !('A' <= s[i] <= 'Z')
      {
        assert EntryOf(s)[i] == Lower(s[i]);
      }
    }
  }

  /** A name in upper case finds the entry that was stored in lower case. */
  lemma UpperCaseName(d: Dictionary)
    requires d.Valid() && d.contents == map["rd:x" := Some("v")]
    ensures EntryOf("RD:X") == EntryOf("rd:x") == "rd:x"
    ensures EntryOf("RD:X") in d.contents && d.contents[EntryOf("RD:X")] == Some("v")
  {
    hide Dictionary.Valid, EntryOf;
    SameEntry("RD:X", "rd:x");
    EntryIsName("rd:x");
  }

  method GetString(d: Dictionary, k: string, def: Option<string>) returns (r: Option<string>)
    requires d.Valid()
    ensures r == if EntryOf(k) in d.contents then d.contents[EntryOf(k)] else def
  {
    var lc := Strlwc(k, LINE_SIZE + 1);
    r := d.Get(lc, def);
  }

  method FindEntry(d: Dictionary, entry: string) returns (found: bool)
    requires d.Valid()
    ensures found <==> EntryOf(entry) in d.contents
  {
    // An entry is there when it is not answered by a default that no entry can have.
    var lc := Strlwc(entry, LINE_SIZE + 1);
    var i := d.Find(lc);
    found := i < d.size;
  }

  /** The keys that begin with the section's name and a colon. */
  function InSection(s: string): string -> bool {
    k => EntryOf(s) + ":" <= k
  }

  /** A section whose name fills the buffer for itself and its colon. */
  predicate Fits(s: string) {
    |s| <= LINE_SIZE
  }

  /** The keys of a section: its name in lower case, a colon, and anything. */
  lemma KeyInSection(s: string, k: string)
    requires Fits(s)
    ensures InSection(s)(k) <==>
      && |k| > |s| && k[|s|] == ':'
      && forall i :: 0 <= i < |s| ==> SameLetter(s[i], k[i]) && !('A' <= k[i] <= 'Z')
  {
    var e := EntryOf(s);
    assert forall i :: 0 <= i < |s| ==> e[i] == Lower(s[i]);
    if InSection(s)(k) {
      assert forall i :: 0 <= i < |s| ==> k[i] == e[i];
    }
    if |k| > |s| && k[|s|] == ':' && forall i :: 0 <= i < |s| ==> SameLetter(s[i], k[i]) && !('A' <= k[i] <= 'Z') {
      assert k[..|s|] == e;
      assert k == e + ":" + k[|s| + 1..];
    }
  }

  /** What the two enumerations have: every key without a colon once, and every key of the
      section once. */
  lemma SectionsAndKeys(ks: Slots, vs: Slots, m: map<string, Option<string>>, s: string, k: string)
    requires DistinctKeys(ks) && Holds(ks, vs, m) && Fits(s)
    ensures multiset(Select(ks, IsSection))[k] ==
      if k in m && forall i :: 0 <= i < |k| ==> k[i] != ':' then 1 else 0
    ensures multiset(Select(ks, InSection(s)))[k] ==
      if k in m && |k| > |s| && k[|s|] == ':'
        && forall i :: 0 <= i < |s| ==> SameLetter(s[i], k[i]) && !('A' <= k[i] <= 'Z')
      then 1 else 0
  {
    hide DistinctKeys, Holds, Select, InSection, SameLetter;
    SelectEntries(ks, vs, m, IsSection, k);
    SelectEntries(ks, vs, m, InSection(s), k);
    KeyInSection(s, k);
  }

  method GetSecNKeys(d: Dictionary, s: string) returns (nkeys: int)
    requires d.Valid() && (EntryOf(s) in d.contents ==> Fits(s))
    ensures nkeys == if EntryOf(s) in d.contents then |Select(d.key[..], InSection(s))| else 0
  {
    hide Represents;
    nkeys := 0;
    var found := FindEntry(d, s);
    if !found {
      return;
    }
    var keym := Strlwc(s, LINE_SIZE + 1);
    keym := keym + ":";
    var j := 0;
    while j < d.size
      invariant 0 <= j <= d.size && nkeys == |Select(d.key[..j], InSection(s))|
    {
      SelectNext(d.key[..], InSection(s), j);
      assert d.key[..][..j] == d.key[..j] && d.key[..][..j + 1] == d.key[..j + 1];
      if d.key[j].Some? && keym <= d.key[j].value {
        nkeys := nkeys + 1;
      }
      j := j + 1;
    }
    assert d.key[..j] == d.key[..];
  }

  /** Writes the keys of an existing section to the front of `keys`, which has to have
      room for them. */
  method GetSecKeys(d: Dictionary, s: string, keys: array<string>) returns (found: bool)
    requires d.Valid() && (EntryOf(s) in d.contents ==> Fits(s) && |Select(d.key[..], InSection(s))| <= keys.Length)
    requires keys as object != d.key && keys as object != d.val && keys as object != d.hash
    modifies keys
    ensures found <==> EntryOf(s) in d.contents
    ensures d.Valid() && d.contents == old(d.contents)
    ensures keys[..] == if found
      then Select(d.key[..], InSection(s)) + old(keys[..])[|Select(d.key[..], InSection(s))|..]
      else old(keys[..])
  {
    hide Represents, Select, InSection;
    found := FindEntry(d, s);
    if !found {
      return;
    }
    var keym := Strlwc(s, LINE_SIZE + 1);
    keym := keym + ":";
    ghost var ks, was, sel := d.key[..], keys[..], Select(d.key[..], InSection(s));
    SectionPrefix(s, keym);
    SelectNone(InSection(s));
    var i, j := 0, 0;
    while j < d.size
      invariant 0 <= j <= d.size && i == |Select(ks[..j], InSection(s))| <= |sel| <= keys.Length
      invariant ks == d.key[..] && Select(ks[..j], InSection(s)) <= sel
      invariant forall t :: 0 <= t < i ==> keys[t] == sel[t]
      invariant forall t :: i <= t < keys.Length ==> keys[t] == was[t]
    {
      SelectNext(ks, InSection(s), j);
      SelectPrefix(ks, InSection(s), j + 1);
      if d.key[j].Some? && keym <= d.key[j].value {
        assert Select(ks[..j + 1], InSection(s))[i] == d.key[j].value;
        keys[i] := d.key[j].value;
        i := i + 1;
      }
      j := j + 1;
    }
    assert ks[..j] == ks;
  }

  lemma SectionPrefix(s: string, keym: string)
    requires keym == EntryOf(s) + ":"
    ensures forall k :: keym <= k <==> InSection(s)(k)
  {
  }

  lemma SelectNone(p: string -> bool)
    ensures Select([], p) == []
  {
  }
}
