/** Bytes as hexadecimal text, after `BYTE_ConvertFromArrayToHexString` and
    `BYTE_ConvertFromHexStringToArray` of `CommonFnc.cpp`. */
module HexCodec {
  import opened Bytes
  import opened StatusCodes

  predicate IsHex(c: char) {
    '0' <= c <= '9' || 'a' <= c <= 'f' || 'A' <= c <= 'F'
  }

  function Value(c: char): (d: int)
    requires IsHex(c)
    ensures 0 <= d < 16
  {
    if c <= '9' then c as int - 48 else if c <= 'F' then c as int - 55 else c as int - 87
  }

  function Digit(d: int): (c: char)
    requires 0 <= d < 16
    ensures IsHex(c) && Value(c) == d
  {
    if d < 10 then '0' + d as char else 'a' + (d - 10) as char
  }

  /** The digits are those in lower and in upper case. */
  lemma DigitsAre(c: char)
    ensures IsHex(c) <==> c in "0123456789abcdef" || c in "0123456789ABCDEF"
  {
    var lower, upper := "0123456789abcdef", "0123456789ABCDEF";
    if IsHex(c) {
      var d := Value(c);
      ValueAt(d, c);
      assert c == lower[d] || c == upper[d];
    }
  }

  /** The value of a digit is its place among the digits in lower or in upper case. */
  lemma ValueAt(d: int, c: char)
    requires 0 <= d < 16 && IsHex(c)
    ensures Value(c) == d <==> c == "0123456789abcdef"[d] || c == "0123456789ABCDEF"[d]
  {
  }

  lemma DigitAt(d: int)
    requires 0 <= d < 16
    ensures Digit(d) == "0123456789abcdef"[d]
  {
  }

  /** `%.2x` */
  function Two(b: Byte): (s: string)
    ensures |s| == 2
  {
    [Digit(b / 16), Digit(b % 16)]
  }

  lemma TwoDigits(b: Byte)
    ensures var digits := "0123456789abcdef"; Two(b) == [digits[b / 16], digits[b % 16]]
  {
    DigitAt(b / 16);
    DigitAt(b % 16);
  }

  // ---------------------------------------------------------------- writing

  /** All bytes in hex, with or without a space between them. */
  function Text(bytes: seq<Byte>, addSpace: bool): (s: string) {
    if bytes == [] then ""
    else if |bytes| == 1 then Two(bytes[0])
    else Text(bytes[..|bytes| - 1], addSpace) + (if addSpace then " " else "") + Two(bytes[|bytes| - 1])
  }

  /** Where the digits of each byte stand, and the space between them. */
  lemma {:induction false} TextShape(bytes: seq<Byte>, addSpace: bool)
    ensures var k, s := if addSpace then 3 else 2, Text(bytes, addSpace);
      && |s| == (if bytes == [] then 0 else k * |bytes| - (k - 2))
      && (forall i :: 0 <= i < |bytes| ==> s[k * i] == Two(bytes[i])[0] && s[k * i + 1] == Two(bytes[i])[1])
      && (addSpace ==> forall i :: 0 <= i < |bytes| - 1 ==> s[3 * i + 2] == ' ')
  {
    hide Two;
    if |bytes| > 1 {
      TextShape(bytes[..|bytes| - 1], addSpace);
    }
  }

  /** Cuts the spaces at the end off. */
  method TrimEnd(s: string) returns (t: string)
    ensures t <= s && (t == "" || t[|t| - 1] != ' ')
    ensures forall i :: |t| <= i < |s| ==> s[i] == ' '
  {
    var n := |s|;
    while n > 0 && s[n - 1] == ' '
      invariant 0 <= n <= |s| && forall i :: n <= i < |s| ==> s[i] == ' '
    {
      n := n - 1;
    }
    t := s[..n];
  }

  method ToHexString(bytes: seq<Byte>, addSpace: bool) returns (text: string)
    ensures text == Text(bytes, addSpace)
  {
    hide Two, Digit;
    text := "";
    var i := 0;
    while i < |bytes|
      invariant 0 <= i <= |bytes|
      invariant text == Text(bytes[..i], addSpace) + if addSpace && i > 0 then " " else ""
    {
      assert bytes[..i + 1][..i] == bytes[..i];
      var hexNum := Two(bytes[i]);
      if addSpace {
        hexNum := hexNum + " ";
      }
      text := text + hexNum;
      i := i + 1;
    }
    assert bytes[..i] == bytes;
    TextEnds(bytes, addSpace);
    text := TrimEnd(text);
    Trimmed(Text(bytes, addSpace), if addSpace && i > 0 then " " else "", text);
  }

  lemma Trimmed(s: string, spaces: string, t: string)
    requires s == "" || s[|s| - 1] != ' '
    requires forall i :: 0 <= i < |spaces| ==> spaces[i] == ' '
    requires t <= s + spaces && (t == "" || t[|t| - 1] != ' ')
    requires forall i :: |t| <= i < |s + spaces| ==> (s + spaces)[i] == ' '
    ensures t == s
  {
    var x := s + spaces;
    assert s != "" ==> x[|s| - 1] == s[|s| - 1];
    assert forall i :: |s| <= i < |x| ==> x[i] == spaces[i - |s|];
    assert t != "" ==> t[|t| - 1] == x[|t| - 1];
  }

  lemma TextEnds(bytes: seq<Byte>, addSpace: bool)
    ensures var s := Text(bytes, addSpace); s == "" || s[|s| - 1] != ' '
  {
    if bytes != [] {
      assert IsHex(Two(bytes[|bytes| - 1])[1]);
    }
  }

  // ---------------------------------------------------------------- reading

  /** The text without spaces and line ends. */
  function Squeezed(s: string): (t: string) {
    if s == "" then "" else Squeezed(s[..|s| - 1]) + if s[|s| - 1] in " \n" then "" else [s[|s| - 1]]
  }

  /** `strtol` with base 16 on at most two characters. */
  function ToNumber(s: string): (n: int)
    decreases |s|
  {
    if s == "" then 0
    else if s[0] in "\t\U{0b}\U{0c}\r" then ToNumber(s[1..])
    else if s[0] == '-' then 0 - Leading(s[1..], 0)
    else if s[0] == '+' then Leading(s[1..], 0)
    else Leading(s, 0)
  }

  function Leading(s: string, n: nat): (m: nat)
    decreases |s|
  {
    if s == "" || !IsHex(s[0]) then n else Leading(s[1..], 16 * n + Value(s[0]))
  }

  /** The characters two by two, each pair cut to a byte. */
  function Pairs(s: string): (bytes: seq<Byte>)
    ensures |bytes| == (|s| + 1) / 2
  {
    if s == "" then []
    else if |s| <= 2 then [ToNumber(s) % 256]
    else [ToNumber(s[..2]) % 256] + Pairs(s[2..])
  }

  lemma {:induction false} PairsNext(s: string, pos: nat)
    requires pos < |s| && pos % 2 == 0
    ensures var next := if pos + 2 <= |s| then pos + 2 else |s|;
      Pairs(s[..next]) == Pairs(s[..pos]) + [ToNumber(s[pos..next]) % 256]
  {
    hide ToNumber;
    var next := if pos + 2 <= |s| then pos + 2 else |s|;
    if pos >= 2 {
      PairsNext(s[2..], pos - 2);
      SliceOfRest(s, pos, next);
      assert s[..next][2..] == s[2..][..next - 2] && s[..pos][2..] == s[2..][..pos - 2];
      assert s[..next][..2] == s[..2] && s[..pos][..2] == s[..2];
      if pos == 2 {
        assert s[2..][..0] == "" && s[..2][2..] == "";
      }
    } else {
      assert s[..pos] == "" && s[0..next] == s[..next];
    }
  }

  lemma SliceOfRest(s: string, i: nat, j: nat)
    requires 2 <= i <= j <= |s|
    ensures s[2..][i - 2..j - 2] == s[i..j]
  {
  }

  method Squeeze(s: string) returns (t: string)
    ensures t == Squeezed(s)
  {
    t := "";
    for i := 0 to |s|
      invariant t == Squeezed(s[..i])
    {
      assert s[..i + 1][..i] == s[..i];
      if s[i] != ' ' && s[i] != '\n' {
        t := t + [s[i]];
      }
    }
    assert s[..|s|] == s;
  }

  /** Fills the array, if it is large enough; the number of bytes comes back in any case. */
  method FromHexString(text: string, bytes: array<Byte>, room: nat) returns (status: Status, length: nat)
    requires room <= bytes.Length
    modifies bytes
    ensures length == |Pairs(Squeezed(text))|
    ensures status == if length > room then NotEnoughMemory else Ok
    ensures bytes[..] == if status == Ok then Pairs(Squeezed(text)) + old(bytes[length..]) else old(bytes[..])
  {
    hide Pairs, Squeezed;
    var digits := Squeeze(text);
    var temp;
    temp, length := Collect(digits);
    if length > room {
      return NotEnoughMemory, length;
    }
    status := Ok;
    forall i | 0 <= i < length {
      bytes[i] := temp[i];
    }
    assert bytes[..length] == temp[..length];
  }

  /** The bytes of the digits at the front of an array with one place for each digit. */
  method Collect(digits: string) returns (temp: array<Byte>, length: nat)
    ensures fresh(temp) && length <= temp.Length && temp[..length] == Pairs(digits)
  {
    hide ToNumber, Pairs;
    temp := new Byte[|digits|](_ => 0);
    var pos := 0;
    length := 0;
    PairsNone();
    assert digits[..0] == "";
    while pos < |digits|
      invariant 0 <= pos && pos % 2 == 0 && length == (if pos <= |digits| then pos else |digits| + 1) / 2 <= |digits|
      invariant temp[..length] == Pairs(digits[..if pos <= |digits| then pos else |digits|])
    {
      PairsNext(digits, pos);
      var next := if pos + 2 <= |digits| then pos + 2 else |digits|;
      var hexNum := digits[pos..next];
      temp[length] := ToNumber(hexNum) % 256;
      length := length + 1;
      pos := pos + 2;
    }
    assert digits[..|digits|] == digits;
  }

  // ---------------------------------------------------------------- the round trip

  lemma TwoBack(b: Byte)
    ensures ToNumber(Two(b)) % 256 == b && IsHex(Two(b)[0]) && IsHex(Two(b)[1])
  {
    var s := Two(b);
    var high, low := Value(s[0]), Value(s[1]);
    assert s[1..] == [s[1]] && s[1..][1..] == "";
    assert Leading("", 16 * high + low) == 16 * high + low;
    assert Leading(s[1..], high) == 16 * high + low;
    assert Leading(s, 0) == Leading(s[1..], high);
    assert s[0] != '-' && s[0] != '+' && s[0] !in "\t\U{0b}\U{0c}\r";
  }

  lemma {:induction false} SqueezedMore(s: string, t: string)
    ensures Squeezed(s + t) == Squeezed(s) + Squeezed(t)
  {
    if t == "" {
      assert s + t == s;
    } else {
      assert (s + t)[..|s + t| - 1] == s + t[..|t| - 1];
      SqueezedMore(s, t[..|t| - 1]);
    }
  }

  lemma SqueezedTwo(b: Byte)
    ensures Squeezed(Two(b)) == Two(b) && Squeezed(" " + Two(b)) == Two(b)
  {
    hide Digit;
    TwoBack(b);
    var s := Two(b);
    assert s[..1] == [s[0]] && s[..1][..0] == "";
    SqueezedMore(" ", s);
    assert " "[..0] == "";
  }

  lemma {:induction false} PairsMore(s: string, t: string)
    requires |s| % 2 == 0 && |t| == 2
    ensures Pairs(s + t) == Pairs(s) + [ToNumber(t) % 256]
  {
    PairsNext(s + t, |s|);
    assert (s + t)[..|s|] == s && (s + t)[|s|..|s| + 2] == t && (s + t)[..|s| + 2] == s + t;
  }

  lemma SqueezedNext(init: seq<Byte>, b: Byte, addSpace: bool)
    ensures Squeezed(Text(init + [b], addSpace)) == Squeezed(Text(init, addSpace)) + Two(b)
  {
    hide Two, Squeezed;
    SqueezedTwo(b);
    var bytes := init + [b];
    assert bytes[..|init|] == init;
    if init == [] {
      SqueezedNone();
      assert "" + Two(b) == Two(b);
    } else {
      var gap := if addSpace then " " else "";
      assert Text(bytes, addSpace) == Text(init, addSpace) + (gap + Two(b));
      SqueezedMore(Text(init, addSpace), gap + Two(b));
      assert "" + Two(b) == Two(b);
    }
  }

  lemma SqueezedNone()
    ensures Squeezed("") == ""
  {
  }

  /** Only spaces and line ends are left out of the text, one by one. */
  lemma SqueezedChar(s: string, c: char)
    ensures Squeezed(s + [c]) == if c == ' ' || c == '\n' then Squeezed(s) else Squeezed(s) + [c]
  {
    assert (s + [c])[..|s|] == s;
  }

  lemma OneDigit(c: char)
    requires IsHex(c)
    ensures Leading([c], 0) == ToNumber([c]) == Value(c)
  {
    assert [c][1..] == "";
    assert c != '-' && c != '+' && c !in "\t\U{0b}\U{0c}\r";
    assert Leading("", Value(c)) == Value(c);
  }

  /** What a pair of characters is read as: both digits, or the first one if only this is a
      digit, or the second one behind a sign or a space, or nothing. */
  lemma PairRead(s: string)
    requires 1 <= |s| <= 2
    ensures |s| == 2 && IsHex(s[0]) && IsHex(s[1]) ==> ToNumber(s) == 16 * Value(s[0]) + Value(s[1])
    ensures IsHex(s[0]) && (|s| == 1 || !IsHex(s[1])) ==> ToNumber(s) == Value(s[0])
    ensures !IsHex(s[0]) && s[0] !in "+-\t\U{0b}\U{0c}\r" ==> ToNumber(s) == 0
    ensures |s| == 2 && s[0] in "+\t\U{0b}\U{0c}\r" && IsHex(s[1]) ==> ToNumber(s) == Value(s[1])
    ensures |s| == 2 && s[0] == '-' && IsHex(s[1]) ==> ToNumber(s) == -Value(s[1])
  {
    var rest := s[1..];
    if IsHex(s[0]) {
      assert s[0] != '-' && s[0] != '+' && s[0] !in "\t\U{0b}\U{0c}\r";
      var v := Value(s[0]);
      assert ToNumber(s) == Leading(s, 0) == Leading(rest, v);
      if |s| == 2 && IsHex(s[1]) {
        assert rest[0] == s[1] && rest[1..] == "";
        assert Leading(rest, v) == Leading("", 16 * v + Value(s[1]));
      }
    } else if |s| == 2 && IsHex(s[1]) {
      assert rest == [s[1]];
      OneDigit(s[1]);
    }
  }

  /** The bytes that are read from digits alone. */
  lemma {:induction false} PairsAt(s: string, i: nat)
    requires 2 * i + 1 < |s| && IsHex(s[2 * i]) && IsHex(s[2 * i + 1])
    ensures i < |Pairs(s)| && Pairs(s)[i] == 16 * Value(s[2 * i]) + Value(s[2 * i + 1])
  {
    hide ToNumber, Value, IsHex;
    if i == 0 {
      PairRead(s[..2]);
      assert |s| == 2 ==> s[..2] == s;
    } else {
      var rest := s[2..];
      assert rest[2 * (i - 1)] == s[2 * i] && rest[2 * (i - 1) + 1] == s[2 * i + 1];
      PairsAt(rest, i - 1);
    }
  }

  /** Whatever is written is read back, with spaces and without. */
  lemma {:induction false} RoundTrip(bytes: seq<Byte>, addSpace: bool)
    ensures Pairs(Squeezed(Text(bytes, addSpace))) == bytes
    ensures |Squeezed(Text(bytes, addSpace))| == 2 * |bytes|
  {
    hide ToNumber, Two, Squeezed, Pairs;
    if bytes == [] {
      SqueezedNone();
      PairsNone();
    } else {
      var init, b := bytes[..|bytes| - 1], bytes[|bytes| - 1];
      RoundTrip(init, addSpace);
      TwoBack(b);
      assert bytes == init + [b];
      SqueezedNext(init, b, addSpace);
      PairsMore(Squeezed(Text(init, addSpace)), Two(b));
    }
  }

  lemma PairsNone()
    ensures Pairs("") == []
  {
  }
}
