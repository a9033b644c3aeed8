/** The base64 codec, after `base64_encode` and `base64_decode` of `CommonFnc.cpp`, with
    section 4 of RFC 4648 as the reference: 24-bit words cut into four sextets. */
module Base64 {
  type Octet = bv8

  const UPPER := "ABCDEFGHIJKLMNOPQRSTUVWXYZ"
  const LOWER := "abcdefghijklmnopqrstuvwxyz"
  const OTHER := "0123456789+/"
  const ALPHABET := UPPER + LOWER + OTHER

  predicate IsLetter(c: char) {
    'A' <= c <= 'Z' || 'a' <= c <= 'z' || '0' <= c <= '9' || c == '+' || c == '/'
  }

  /** The first position of `c`, or -1. */
  function Position(s: string, c: char): (i: int)
    ensures -1 <= i < |s|
    ensures if i < 0 then c !in s else s[i] == c && c !in s[..i]
  {
    if s == "" then -1
    else if s[0] == c then 0
    else
      var i := Position(s[1..], c);
      assert s == [s[0]] + s[1..];
      if i < 0 then -1 else i + 1
  }

  function Letter(d: Octet): (c: char)
    requires d < 64
  {
    LetterCount();
    ALPHABET[d as int]
  }

  /** A missing letter is at position `npos`, which is 255 as a byte. */
  function Find(c: char): (d: Octet) {
    LetterCount();
    var i := Position(ALPHABET, c);
    if i < 0 then 255 else i as bv8
  }

  lemma LetterCount()
    ensures |ALPHABET| == 64
  {
  }

  lemma UpperAt(i: int)
    requires 0 <= i < 26
    ensures UPPER[i] == 'A' + i as char
  {
  }

  lemma LowerAt(i: int)
    requires 0 <= i < 26
    ensures LOWER[i] == 'a' + i as char
  {
  }

  lemma OtherAt(i: int)
    requires 0 <= i < 12
    ensures OTHER[i] == if i < 10 then '0' + i as char else if i == 10 then '+' else '/'
  {
  }

  function Code(i: int): (c: char)
    requires 0 <= i < 64
  {
    if i < 26 then 'A' + i as char else if i < 52 then 'a' + (i - 26) as char
    else if i < 62 then '0' + (i - 52) as char else if i == 62 then '+' else '/'
  }

  /** The alphabet is that of Table 1 of the RFC. */
  lemma AlphabetAt(i: int)
    requires 0 <= i < 64
    ensures |ALPHABET| == 64 && ALPHABET[i] == Code(i)
  {
    if i < 26 {
      UpperAt(i);
    } else if i < 52 {
      LowerAt(i - 26);
    } else {
      OtherAt(i - 52);
    }
  }

  lemma CodeInjective(i: int, j: int)
    requires 0 <= i < j < 64
    ensures Code(i) != Code(j)
  {
  }

  lemma CodeAccepted(i: int)
    requires 0 <= i < 64
    ensures IsLetter(Code(i)) && Code(i) != '='
  {
  }

  lemma CodeOf(c: char) returns (i: int)
    requires IsLetter(c)
    ensures 0 <= i < 64 && Code(i) == c
  {
    i := if 'A' <= c <= 'Z' then c as int - 65 else if 'a' <= c <= 'z' then c as int - 71
      else if '0' <= c <= '9' then c as int + 4 else if c == '+' then 62 else 63;
  }

  lemma PositionOf(i: int)
    requires 0 <= i < 64
    ensures Position(ALPHABET, Code(i)) == i
  {
    hide Code;
    AlphabetAt(i);
    var j := Position(ALPHABET, Code(i));
    AlphabetAt(j);
    if j < i {
      CodeInjective(j, i);
    } else if i < j {
      CodeInjective(i, j);
    }
  }

  lemma FindLetter(d: Octet)
    requires d < 64
    ensures IsLetter(Letter(d)) && Letter(d) != '=' && Find(Letter(d)) == d
  {
    hide Code, Position, IsLetter;
    AlphabetAt(d as int);
    PositionOf(d as int);
    CodeAccepted(d as int);
  }

  lemma AsByte(i: int)
    requires 0 <= i < 64
    ensures (i as bv8) < 64 && (i as bv8) as int == i
  {
    ThereAndBack(i);
    BelowLetters(i as bv8);
  }

  lemma ThereAndBack(i: int)
    requires 0 <= i < 64
    ensures (i as bv8) as int == i
  {
  }

  lemma BelowLetters(d: Octet)
    requires d as int < 64
    ensures d < 64
  {
  }

  lemma FindAt(c: char, i: int)
    requires 0 <= i < 64 && Position(ALPHABET, c) == i
    ensures Find(c) < 64 && Find(c) as int == i && Letter(Find(c)) == c
  {
    hide Position;
    AsByte(i);
  }

  lemma FindNone(c: char)
    requires Position(ALPHABET, c) < 0
    ensures Find(c) == 255
  {
  }

  /** The letters that the decoder accepts are those of the alphabet. */
  lemma FoundInAlphabet(c: char)
    ensures Find(c) < 64 <==> IsLetter(c)
    ensures IsLetter(c) ==> Letter(Find(c)) == c
  {
    hide Code, Position, IsLetter, Find, Letter;
    LetterCount();
    if IsLetter(c) {
      var i := CodeOf(c);
      PositionOf(i);
      FindAt(c, i);
    } else {
      var i := Position(ALPHABET, c);
      if i >= 0 {
        AlphabetAt(i);
        CodeAccepted(i);
      }
      FindNone(c);
    }
  }

  // ---------------------------------------------------------------- the reference

  function Word(a: Octet, b: Octet, c: Octet): bv24 {
    (a as bv24 << 16) | (b as bv24 << 8) | c as bv24
  }

  /** The `i`th six bits of the word. */
  function Sextet(w: bv24, i: int): (d: Octet)
    requires 0 <= i < 4
    ensures d < 64
  {
    var part := if i == 0 then w >> 18 else if i == 1 then w >> 12 else if i == 2 then w >> 6 else w;
    (part & 0x3F) as bv8
  }

  function Letters(w: bv24): (s: string)
    ensures |s| == 4
  {
    [Letter(Sextet(w, 0)), Letter(Sextet(w, 1)), Letter(Sextet(w, 2)), Letter(Sextet(w, 3))]
  }

  function Encode(b: seq<Octet>): (s: string) {
    if b == [] then ""
    else if |b| == 1 then Letters(Word(b[0], 0, 0))[..2] + "=="
    else if |b| == 2 then Letters(Word(b[0], b[1], 0))[..3] + "="
    else Letters(Word(b[0], b[1], b[2])) + Encode(b[3..])
  }

  function WordOf(a: Octet, b: Octet, c: Octet, d: Octet): bv24 {
    (a as bv24 << 18) | (b as bv24 << 12) | (c as bv24 << 6) | d as bv24
  }

  function Octets(w: bv24): (b: seq<Octet>)
    ensures |b| == 3
  {
    [(w >> 16) as bv8, ((w >> 8) & 0xFF) as bv8, (w & 0xFF) as bv8]
  }

  /** The letters that the decoder reads: up to the first character outside the alphabet. */
  function Scan(s: string): (t: string)
    ensures t <= s && forall i :: 0 <= i < |t| ==> IsLetter(t[i])
  {
    if s == "" || !IsLetter(s[0]) then "" else [s[0]] + Scan(s[1..])
  }

  /** Four letters are three bytes; two or three more letters are one or two bytes. */
  function DecodeLetters(t: string): (b: seq<Octet>) {
    if |t| <= 1 then []
    else if |t| == 2 then Octets(WordOf(Find(t[0]), Find(t[1]), 0, 0))[..1]
    else if |t| == 3 then Octets(WordOf(Find(t[0]), Find(t[1]), Find(t[2]), 0))[..2]
    else Octets(WordOf(Find(t[0]), Find(t[1]), Find(t[2]), Find(t[3]))) + DecodeLetters(t[4..])
  }

  function Decode(s: string): (b: seq<Octet>) {
    DecodeLetters(Scan(s))
  }

  // ---------------------------------------------------------------- the round trip

  /** Cutting a word into sextets loses nothing. */
  lemma WordBack(w: bv24)
    ensures WordOf(Sextet(w, 0), Sextet(w, 1), Sextet(w, 2), Sextet(w, 3)) == w
  {
  }

  lemma OctetsBack(a: Octet, b: Octet, c: Octet)
    ensures Octets(Word(a, b, c)) == [a, b, c]
  {
  }

  /** The zeros filled in at the end stay outside the letters that are written. */
  lemma TailZeros(a: Octet, b: Octet)
    ensures Sextet(Word(a, 0, 0), 2) == 0 && Sextet(Word(a, 0, 0), 3) == 0 && Sextet(Word(a, b, 0), 3) == 0
  {
  }

  lemma LettersBack(w: bv24)
    ensures forall i :: 0 <= i < 4 ==> IsLetter(Letters(w)[i]) && Letters(w)[i] != '='
    ensures forall i {:trigger Sextet(w, i)} {:trigger Letters(w)[i]} :: 0 <= i < 4 ==>
      Find(Letters(w)[i]) == Sextet(w, i)
  {
    hide Letter, Find, Sextet, IsLetter;
    FindLetter(Sextet(w, 0));
    FindLetter(Sextet(w, 1));
    FindLetter(Sextet(w, 2));
    FindLetter(Sextet(w, 3));
  }

  lemma {:induction false} ScanOver(t: string, s: string)
    requires forall i :: 0 <= i < |t| ==> IsLetter(t[i])
    ensures Scan(t + s) == t + Scan(s)
  {
    if t == "" {
      assert t + s == s;
    } else {
      assert (t + s)[1..] == t[1..] + s;
      ScanOver(t[1..], s);
    }
  }

  lemma {:induction false} RoundTrip(b: seq<Octet>)
    ensures Decode(Encode(b)) == b
  {
    hide Letters, Find, Sextet, Word, WordOf, Octets, IsLetter;
    if |b| == 1 {
      DecodeOne(b[0]);
    } else if |b| == 2 {
      DecodeTwo(b[0], b[1]);
    } else if |b| > 2 {
      var w := Word(b[0], b[1], b[2]);
      LettersBack(w);
      WordBack(w);
      OctetsBack(b[0], b[1], b[2]);
      ScanOver(Letters(w), Encode(b[3..]));
      RoundTrip(b[3..]);
      assert (Letters(w) + Scan(Encode(b[3..])))[4..] == Scan(Encode(b[3..]));
    }
  }

  lemma DecodeOne(a: Octet)
    ensures Decode(Encode([a])) == [a]
  {
    hide Letters, Find, Sextet, Word, WordOf, Octets;
    var w := Word(a, 0, 0);
    LettersBack(w);
    WordBack(w);
    OctetsBack(a, 0, 0);
    TailZeros(a, 0);
    ScanOver(Letters(w)[..2], "==");
  }

  lemma DecodeTwo(a: Octet, b: Octet)
    ensures Decode(Encode([a, b])) == [a, b]
  {
    hide Letters, Find, Sextet, Word, WordOf, Octets;
    var w := Word(a, b, 0);
    LettersBack(w);
    WordBack(w);
    OctetsBack(a, b, 0);
    TailZeros(a, b);
    ScanOver(Letters(w)[..3], "=");
  }

  /** Nothing behind a character outside the alphabet is decoded. */
  lemma StopsAtForeign(t: string, c: char, rest: string)
    requires (forall i :: 0 <= i < |t| ==> IsLetter(t[i])) && !IsLetter(c)
    ensures Decode(t + [c] + rest) == Decode(t)
  {
    hide DecodeLetters, IsLetter;
    assert t + [c] + rest == t + ([c] + rest);
    ScanOver(t, [c] + rest);
    ScanOver(t, "");
    assert t + "" == t;
  }

  /** Six bits a letter make so many whole bytes. */
  lemma {:induction false} DecodeLength(t: string)
    ensures |DecodeLetters(t)| == 6 * |t| / 8
  {
    hide Find, Octets, WordOf;
    if |t| > 3 {
      DecodeLength(t[4..]);
    }
  }

  /** The length, the alphabet, and the padding: one `=` for each byte that is missing to a
      multiple of three. */
  lemma {:induction false} EncodeShape(b: seq<Octet>)
    ensures |Encode(b)| == 4 * ((|b| + 2) / 3)
    ensures var pad := (3 - |b| % 3) % 3; forall i :: 0 <= i < |Encode(b)| ==>
      if i < |Encode(b)| - pad then IsLetter(Encode(b)[i]) && Encode(b)[i] != '=' else Encode(b)[i] == '='
  {
    hide Letters, IsLetter, Word;
    if |b| == 1 {
      LettersBack(Word(b[0], 0, 0));
    } else if |b| == 2 {
      LettersBack(Word(b[0], b[1], 0));
    } else if |b| > 2 {
      EncodeShape(b[3..]);
      LettersBack(Word(b[0], b[1], b[2]));
      ShapeMore(Letters(Word(b[0], b[1], b[2])), Encode(b[3..]), |b|);
    }
  }

  lemma ShapeMore(head: string, tail: string, n: nat)
    requires |head| == 4 && n > 2 && |tail| == 4 * ((n - 1) / 3)
    requires forall i :: 0 <= i < 4 ==> IsLetter(head[i]) && head[i] != '='
    requires var pad := (3 - (n - 3) % 3) % 3; forall i :: 0 <= i < |tail| ==>
      if i < |tail| - pad then IsLetter(tail[i]) && tail[i] != '=' else tail[i] == '='
    ensures |head + tail| == 4 * ((n + 2) / 3)
    ensures var pad := (3 - n % 3) % 3; forall i :: 0 <= i < |head + tail| ==>
      if i < |head + tail| - pad then IsLetter((head + tail)[i]) && (head + tail)[i] != '=' else (head + tail)[i] == '='
  {
    hide IsLetter;
    assert (n - 3) % 3 == n % 3;
    forall i | 4 <= i < |head + tail|
      ensures (head + tail)[i] == tail[i - 4]
    {
    }
  }

  // ---------------------------------------------------------------- the loops

  /** The four sextets by masks and shifts. */
  method Mask(a: Octet, b: Octet, c: Octet) returns (d0: Octet, d1: Octet, d2: Octet, d3: Octet)
    ensures d0 == Sextet(Word(a, b, c), 0) && d1 == Sextet(Word(a, b, c), 1)
    ensures d2 == Sextet(Word(a, b, c), 2) && d3 == Sextet(Word(a, b, c), 3)
  {
    hide Sextet, Word;
    Masks(a, b, c);
    d0 := (a & 0xFC) >> 2;
    d1 := ((a & 0x03) << 4) + ((b & 0xF0) >> 4);
    d2 := ((b & 0x0F) << 2) + ((c & 0xC0) >> 6);
    d3 := c & 0x3F;
  }

  method Split(a3: array<Octet>, a4: array<Octet>)
    requires a3.Length == 3 && a4.Length == 4 && a3 != a4
    modifies a4
    ensures forall i :: 0 <= i < 4 ==> a4[i] == Sextet(Word(a3[0], a3[1], a3[2]), i)
  {
    hide Sextet, Word;
    a4[0], a4[1], a4[2], a4[3] := Mask(a3[0], a3[1], a3[2]);
  }

  lemma Masks(a: Octet, b: Octet, c: Octet)
    ensures Sextet(Word(a, b, c), 0) == (a & 0xFC) >> 2
    ensures Sextet(Word(a, b, c), 1) == ((a & 0x03) << 4) + ((b & 0xF0) >> 4)
    ensures Sextet(Word(a, b, c), 2) == ((b & 0x0F) << 2) + ((c & 0xC0) >> 6)
    ensures Sextet(Word(a, b, c), 3) == c & 0x3F
  {
  }

  /** Appends the letters of the first `k` sextets. */
  method AppendLetters(s: string, a4: array<Octet>, k: int, ghost w: bv24) returns (r: string)
    requires a4.Length == 4 && 0 <= k <= 4 && forall i :: 0 <= i < 4 ==> a4[i] == Sextet(w, i)
    ensures r == s + Letters(w)[..k]
  {
    hide Letter, Sextet;
    r := s;
    for i := 0 to k
      invariant r == s + Letters(w)[..i]
    {
      r := r + [Letter(a4[i])];
    }
  }

  method ToText(buf: seq<Octet>) returns (ret: string)
    ensures ret == Encode(buf)
  {
    hide Encode;
    ret := "";
    var i, p := 0, 0;
    var a3, a4 := new Octet[3], new Octet[4];
    assert a3[..0] + buf[0..] == buf;
    while p < |buf|
      invariant 0 <= p <= |buf| && 0 <= i < 3
      invariant Encode(buf) == ret + Encode(a3[..i] + buf[p..])
    {
      ghost var waiting := a3[..i];
      assert waiting + buf[p..] == (waiting + [buf[p]]) + buf[p + 1..];
      a3[i] := buf[p];
      i, p := i + 1, p + 1;
      assert a3[..i] == waiting + [buf[p - 1]];
      if i == 3 {
        ret := EncodeThree(ret, a3, a4, buf[p..]);
        i := 0;
        assert a3[..0] + buf[p..] == buf[p..];
      }
    }
    assert a3[..i] + buf[p..] == a3[..i];
    if i != 0 {
      ret := EncodeRest(ret, a3, a4, i);
    } else {
      EncodeNothing();
    }
  }

  lemma EncodeNothing()
    ensures Encode([]) == ""
  {
  }

  method EncodeThree(s: string, a3: array<Octet>, a4: array<Octet>, ghost rest: seq<Octet>) returns (r: string)
    requires a3.Length == 3 && a4.Length == 4 && a3 != a4
    modifies a4
    ensures r + Encode(rest) == s + Encode(a3[..3] + rest)
  {
    hide Letters, Word, Sextet, Encode;
    Split(a3, a4);
    ghost var w := Word(a3[0], a3[1], a3[2]);
    r := AppendLetters(s, a4, 4, w);
    EncodeBlock(a3[0], a3[1], a3[2], rest);
    assert a3[..3] == [a3[0], a3[1], a3[2]];
    assert Letters(w)[..4] == Letters(w);
    assert (s + Letters(w)) + Encode(rest) == s + (Letters(w) + Encode(rest));
  }

  /** One or two last bytes, filled up with zeros and padding. */
  method EncodeRest(s: string, a3: array<Octet>, a4: array<Octet>, n: int) returns (r: string)
    requires a3.Length == 3 && a4.Length == 4 && a3 != a4 && 1 <= n <= 2
    modifies a3, a4
    ensures r == s + Encode(old(a3[..n]))
  {
    hide Letters, Word, Sextet;
    ghost var rest := a3[..n];
    var j := n;
    while j < 3
      invariant n <= j <= 3 && a3[..n] == rest && forall k :: n <= k < j ==> a3[k] == 0
    {
      a3[j] := 0;
      j := j + 1;
    }
    Split(a3, a4);
    r := AppendLetters(s, a4, n + 1, Word(a3[0], a3[1], a3[2]));
    assert rest[0] == a3[0] && (n == 2 ==> rest[1] == a3[1]);
    var i := n;
    ghost var done := r;
    while i < 3
      invariant n <= i <= 3 && r == done + (if i == n then "" else if i == n + 1 then "=" else "==")
    {
      r := r + "=";
      i := i + 1;
    }
  }

  lemma EncodeBlock(a: Octet, b: Octet, c: Octet, rest: seq<Octet>)
    ensures Encode([a, b, c] + rest) == Letters(Word(a, b, c)) + Encode(rest)
  {
    assert ([a, b, c] + rest)[3..] == rest;
  }

  /** The three bytes by masks and shifts. */
  method Join(a4: array<Octet>, a3: array<Octet>)
    requires a3.Length == 3 && a4.Length == 4 && a3 != a4
    modifies a3
    ensures a3[0] == (a4[0] << 2) + ((a4[1] & 0x30) >> 4)
    ensures a3[1] == ((a4[1] & 0xF) << 4) + ((a4[2] & 0x3C) >> 2)
    ensures a3[2] == ((a4[2] & 0x3) << 6) + a4[3]
  {
    a3[0] := (a4[0] << 2) + ((a4[1] & 0x30) >> 4);
    a3[1] := ((a4[1] & 0xF) << 4) + ((a4[2] & 0x3C) >> 2);
    a3[2] := ((a4[2] & 0x3) << 6) + a4[3];
  }

  /** On sextets the masks give the bytes of the word. */
  lemma FirstByte(a: Octet, b: Octet, c: Octet, d: Octet)
    requires a < 64 && b < 64 && c < 64 && d < 64
    ensures (a << 2) + ((b & 0x30) >> 4) == Octets(WordOf(a, b, c, d))[0]
  {
  }

  lemma SecondByte(a: Octet, b: Octet, c: Octet, d: Octet)
    requires a < 64 && b < 64 && c < 64 && d < 64
    ensures ((b & 0xF) << 4) + ((c & 0x3C) >> 2) == Octets(WordOf(a, b, c, d))[1]
  {
  }

  lemma ThirdByte(a: Octet, b: Octet, c: Octet, d: Octet)
    requires a < 64 && b < 64 && c < 64 && d < 64
    ensures ((c & 0x3) << 6) + d == Octets(WordOf(a, b, c, d))[2]
  {
  }

  /** Looks the letters up; they wait in a string of their own here, not in the array. */
  method FindAll(letters: string, a4: array<Octet>)
    requires |letters| == 4 && a4.Length == 4
    modifies a4
    ensures forall i :: 0 <= i < 4 ==> a4[i] == Find(letters[i])
  {
    hide Find;
    for i := 0 to 4
      invariant forall j :: 0 <= j < i ==> a4[j] == Find(letters[j])
    {
      a4[i] := Find(letters[i]);
    }
  }

  method FromText(s: string) returns (ret: seq<Octet>)
    ensures ret == Decode(s)
  {
    hide DecodeLetters, IsLetter, Scan;
    ret := [];
    var p := 0;
    var letters, a4, a3 := "", new Octet[4], new Octet[3];
    assert s[0..] == s && letters + Scan(s) == Scan(s);
    while p < |s| && s[p] != '=' && IsLetter(s[p])
      invariant 0 <= p <= |s| && |letters| < 4 && forall j :: 0 <= j < |letters| ==> IsLetter(letters[j])
      invariant Decode(s) == ret + DecodeLetters(letters + Scan(s[p..]))
    {
      ScanNext(s, p);
      assert letters + ([s[p]] + Scan(s[p + 1..])) == (letters + [s[p]]) + Scan(s[p + 1..]);
      letters, p := letters + [s[p]], p + 1;
      if |letters| == 4 {
        ret := DecodeFour(ret, letters, a4, a3, Scan(s[p..]));
        letters := "";
        assert letters + Scan(s[p..]) == Scan(s[p..]);
      }
    }
    ScanStops(s[p..]);
    assert letters + "" == letters;
    if |letters| != 0 {
      ret := DecodeRest(ret, letters, a4, a3);
    } else {
      DecodeNothing(letters);
    }
  }

  lemma DecodeNothing(t: string)
    requires |t| <= 1
    ensures DecodeLetters(t) == []
  {
  }

  lemma ScanNext(s: string, p: int)
    requires 0 <= p < |s| && IsLetter(s[p])
    ensures Scan(s[p..]) == [s[p]] + Scan(s[p + 1..])
  {
    assert s[p..][1..] == s[p + 1..];
  }

  lemma ScanStops(s: string)
    requires s == "" || s[0] == '=' || !IsLetter(s[0])
    ensures Scan(s) == ""
  {
  }

  lemma DecodeBlock(t: string, rest: string)
    requires |t| == 4
    ensures DecodeLetters(t + rest) ==
      Octets(WordOf(Find(t[0]), Find(t[1]), Find(t[2]), Find(t[3]))) + DecodeLetters(rest)
  {
    hide Find, Octets, WordOf;
    assert (t + rest)[4..] == rest;
  }

  method DecodeFour(b: seq<Octet>, letters: string, a4: array<Octet>, a3: array<Octet>, ghost rest: string)
    returns (r: seq<Octet>)
    requires |letters| == 4 && forall j :: 0 <= j < 4 ==> IsLetter(letters[j])
    requires a4.Length == 4 && a3.Length == 3 && a3 != a4
    modifies a4, a3
    ensures r + DecodeLetters(rest) == b + DecodeLetters(letters + rest)
  {
    hide Find, IsLetter, Octets, WordOf, DecodeLetters;
    FindAll(letters, a4);
    FoundInAlphabet(letters[0]);
    FoundInAlphabet(letters[1]);
    FoundInAlphabet(letters[2]);
    FoundInAlphabet(letters[3]);
    FirstByte(a4[0], a4[1], a4[2], a4[3]);
    SecondByte(a4[0], a4[1], a4[2], a4[3]);
    ThirdByte(a4[0], a4[1], a4[2], a4[3]);
    ghost var bytes := Octets(WordOf(a4[0], a4[1], a4[2], a4[3]));
    Join(a4, a3);
    r := b + a3[..];
    assert a3[..] == bytes;
    DecodeBlock(letters, rest);
    assert (b + bytes) + DecodeLetters(rest) == b + (bytes + DecodeLetters(rest));
  }

  /** Fewer than four letters at the end: the others are looked up as zero characters,
      which are not in the alphabet, but do not reach the bytes that are kept. */
  method DecodeRest(b: seq<Octet>, letters: string, a4: array<Octet>, a3: array<Octet>) returns (r: seq<Octet>)
    requires 1 <= |letters| < 4 && forall j :: 0 <= j < |letters| ==> IsLetter(letters[j])
    requires a4.Length == 4 && a3.Length == 3 && a3 != a4
    modifies a4, a3
    ensures r == b + DecodeLetters(letters)
  {
    hide Find, IsLetter, Octets, WordOf;
    var n := |letters|;
    var four := letters;
    while |four| < 4
      invariant n <= |four| <= 4 && letters <= four
    {
      four := four + ['\0'];
    }
    FindAll(four, a4);
    FoundInAlphabet(letters[0]);
    Join(a4, a3);
    if n >= 2 {
      FoundInAlphabet(letters[1]);
      FirstByte(a4[0], a4[1], 0, 0);
    }
    if n == 3 {
      FoundInAlphabet(letters[2]);
      FirstByte(a4[0], a4[1], a4[2], 0);
      SecondByte(a4[0], a4[1], a4[2], 0);
    }
    r := b;
    var j := 0;
    while j < n - 1
      invariant 0 <= j <= n - 1 && r == b + a3[..j]
    {
      r := r + [a3[j]];
      j := j + 1;
    }
    assert n == 2 ==> a3[..1] == [a3[0]];
    assert n == 3 ==> a3[..2] == [a3[0], a3[1]];
  }

  lemma EncodeInjective(a: seq<Octet>, b: seq<Octet>)
    requires Encode(a) == Encode(b)
    ensures a == b
  {
    RoundTrip(a);
    RoundTrip(b);
  }

  /** Three of the test vectors in section 10 of the RFC: "f", "fo" and "foo". */
  lemma TestVectors()
    ensures Encode([0x66]) == "Zg==" && Encode([0x66, 0x6F]) == "Zm8=" && Encode([0x66, 0x6F, 0x6F]) == "Zm9v"
  {
    hide Letter, Sextet, Word;
    SextetsOfVectors();
    var e := "";
    assert [0x66, 0x6F, 0x6F as Octet][3..] == [];
    LetterAt(25);
    LetterAt(32);
    LetterAt(38);
    LetterAt(47);
    LetterAt(60);
    LetterAt(61);
  }

  lemma SextetsOfVectors()
    ensures var w := Word(0x66, 0, 0); Sextet(w, 0) == 25 && Sextet(w, 1) == 32
    ensures var w := Word(0x66, 0x6F, 0); Sextet(w, 0) == 25 && Sextet(w, 1) == 38 && Sextet(w, 2) == 60
    ensures var w := Word(0x66, 0x6F, 0x6F);
      Sextet(w, 0) == 25 && Sextet(w, 1) == 38 && Sextet(w, 2) == 61 && Sextet(w, 3) == 47
  {
  }

  lemma LetterAt(d: Octet)
    requires d < 64
    ensures Letter(d) == Code(d as int)
  {
    hide Code;
    AlphabetAt(d as int);
  }

  // ---------------------------------------------------------------- remote reader names

  /** How an entry of the remote list is shown: decoded when it ends in padding, and as it
      is otherwise. */
  datatype ReaderName = Decoded(bytes: seq<Octet>) | Plain(text: string)

  method RemoteReaderName(entry: string) returns (name: ReaderName)
    requires entry != ""
    ensures forall b :: b != [] && entry == Encode(b) ==> name == if |b| % 3 != 0 then Decoded(b) else Plain(entry)
    ensures name.Decoded? <==> entry[|entry| - 1] == '='
    ensures name.Decoded? ==> name.bytes == Decode(entry)
    ensures name.Plain? ==> name.text == entry
  {
    hide Encode, Decode;
    forall b {:trigger Encode(b)} | b != [] && entry == Encode(b)
      ensures entry[|entry| - 1] == '=' <==> |b| % 3 != 0
      ensures entry[|entry| - 1] == '=' ==> Decode(entry) == b
    {
      NameRecognised(b);
    }
    if entry[|entry| - 1] == '=' {
      var decoded := FromText(entry);
      name := Decoded(decoded);
    } else {
      name := Plain(entry);
    }
  }

  /** The padding is not always there: an encoded name is recognised, and then shown as the
      name, exactly when its length is not a multiple of three. Otherwise its letters are
      shown, which are more than the name has. */
  lemma NameRecognised(name: seq<Octet>)
    requires name != []
    ensures var entry := Encode(name);
      && entry != ""
      && (entry[|entry| - 1] == '=' <==> |name| % 3 != 0)
      && (entry[|entry| - 1] == '=' ==> Decode(entry) == name)
      && |entry| > |name|
  {
    hide Encode, Decode, IsLetter;
    EncodeShape(name);
    RoundTrip(name);
  }
}
