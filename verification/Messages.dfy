/** Byte streams written out as text, after `toHexBinaryString` of `Writer.java`: two hex
    digits a byte, with a separator between the bytes. */
module Messages {
  import opened Bytes

  /** How often a message occurred: at least once. */
  type Count = c: int | c > 0 witness 1

  datatype Message = Message(text: string, count: Count)

  function CountOf(m: Message): int {
    m.count
  }

  function HexDigit(d: int): (c: char)
    requires 0 <= d < 16
    ensures c != ' ' && c != '<'
  {
    if d < 10 then '0' + d as char else 'A' + (d - 10) as char
  }

  function Hex(b: Byte): (s: string)
    ensures |s| == 2
  {
    [HexDigit(b / 16), HexDigit(b % 16)]
  }

  /** The digits of a byte are in upper case, the higher one first. */
  lemma HexDigits(b: Byte)
    ensures var digits := "0123456789ABCDEF"; Hex(b) == [digits[b / 16], digits[b % 16]]
  {
    DigitAt(b / 16);
    DigitAt(b % 16);
  }

  lemma DigitAt(d: int)
    requires 0 <= d < 16
    ensures HexDigit(d) == "0123456789ABCDEF"[d]
  {
  }

  lemma HexInjective(a: Byte, b: Byte)
    requires Hex(a) == Hex(b)
    ensures a == b
  {
    assert Hex(a)[0] == Hex(b)[0] && Hex(a)[1] == Hex(b)[1];
  }

  /** The bytes in hex, separated. */
  function Render(bytes: seq<Byte>, separator: string): (s: string) {
    if bytes == [] then ""
    else if |bytes| == 1 then Hex(bytes[0])
    else Hex(bytes[0]) + separator + Render(bytes[1..], separator)
  }

  lemma {:induction false} RenderSnoc(bytes: seq<Byte>, b: Byte, separator: string)
    ensures Render(bytes + [b], separator) ==
      if bytes == [] then Hex(b) else Render(bytes, separator) + separator + Hex(b)
  {
    hide Hex;
    if |bytes| > 1 {
      assert (bytes + [b])[1..] == bytes[1..] + [b];
      RenderSnoc(bytes[1..], b, separator);
      var h, t, x := Hex(bytes[0]), Render(bytes[1..], separator), Hex(b);
      assert h + separator + (t + separator + x) == (h + separator + t) + separator + x;
    } else if |bytes| == 1 {
      assert (bytes + [b])[1..] == [b];
    }
  }

  /** Appends each byte and the separator, and takes the last separator off again. */
  method ToHexBinaryString(bytes: seq<Byte>, separator: string) returns (str: string)
    ensures str == Render(bytes, separator)
  {
    str := "";
    var i := 0;
    while i < |bytes|
      invariant 0 <= i <= |bytes|
      invariant str == if i == 0 then "" else Render(bytes[..i], separator) + separator
    {
      assert bytes[..i + 1] == bytes[..i] + [bytes[i]];
      RenderSnoc(bytes[..i], bytes[i], separator);
      str := str + Hex(bytes[i]) + separator;
      i := i + 1;
    }
    assert bytes[..|bytes|] == bytes;
    if |str| > 0 {
      str := str[..|str| - |separator|];
    }
  }

  // ---------------------------------------------------------------- cells

  /** A string of two-character cells, with one space between them. */
  predicate IsMessage(s: string) {
    s == "" || (|s| % 3 == 2 && forall i :: 0 <= i < |s| && i % 3 == 2 ==> s[i] == ' ')
  }

  function Cells(s: string): nat {
    (|s| + 1) / 3
  }

  function Cell(s: string, i: int): (c: string)
    requires IsMessage(s) && 0 <= i < Cells(s)
    ensures |c| == 2
  {
    s[3 * i..3 * i + 2]
  }

  /** No cell holds a space. */
  predicate IsClear(s: string) {
    IsMessage(s) && forall i :: 0 <= i < |s| && i % 3 != 2 ==> s[i] > ' '
  }

  lemma CellIsClear(s: string, i: nat)
    requires IsClear(s) && i < Cells(s)
    ensures forall c :: c in Cell(s, i) ==> c > ' '
  {
    assert s[3 * i] > ' ' && s[3 * i + 1] > ' ';
    assert Cell(s, i) == [s[3 * i], s[3 * i + 1]];
  }

  /** With one space between the bytes, `n >= 1` bytes take `3n - 1` characters, and the
      cells are the bytes in hex. */
  lemma {:induction false} RenderCells(bytes: seq<Byte>)
    ensures IsMessage(Render(bytes, " ")) && Cells(Render(bytes, " ")) == |bytes|
    ensures |Render(bytes, " ")| == if bytes == [] then 0 else 3 * |bytes| - 1
    ensures forall i :: 0 <= i < |bytes| ==> Cell(Render(bytes, " "), i) == Hex(bytes[i])
    ensures '<' !in Render(bytes, " ")
  {
    if |bytes| > 1 {
      RenderCells(bytes[1..]);
      CellsMore(Hex(bytes[0]), Render(bytes[1..], " "));
      forall i | 0 < i < |bytes|
        ensures Cell(Render(bytes, " "), i) == Hex(bytes[i])
      {
        assert Cell(Render(bytes[1..], " "), i - 1) == Hex(bytes[1..][i - 1]);
      }
    }
  }

  lemma {:induction false} RenderIsClear(bytes: seq<Byte>)
    ensures IsClear(Render(bytes, " "))
  {
    hide Render, Hex, IsMessage;
    RenderCells(bytes);
    var s := Render(bytes, " ");
    forall i | 0 <= i < |s| && i % 3 != 2
      ensures s[i] > ' '
    {
      HexIsClear(bytes[i / 3]);
      assert Cell(s, i / 3) == Hex(bytes[i / 3]);
      assert s[i] == Cell(s, i / 3)[i % 3];
    }
  }

  lemma HexIsClear(b: Byte)
    ensures Hex(b)[0] > ' ' && Hex(b)[1] > ' '
  {
  }

  lemma CellsMore(cell: string, rest: string)
    requires |cell| == 2 && rest != "" && IsMessage(rest)
    ensures var s := cell + " " + rest;
      && IsMessage(s) && Cells(s) == Cells(rest) + 1 && Cell(s, 0) == cell
      && forall i {:trigger Cell(s, i)} :: 0 < i < Cells(s) ==> Cell(s, i) == Cell(rest, i - 1)
  {
    var s := cell + " " + rest;
    assert forall k :: 3 <= k < |s| ==> s[k] == rest[k - 3];
    forall i | 0 < i < Cells(s)
      ensures s[3 * i..3 * i + 2] == rest[3 * (i - 1)..3 * (i - 1) + 2]
    {
    }
  }

  /** Different byte streams are written differently. */
  lemma RenderInjective(a: seq<Byte>, b: seq<Byte>)
    requires Render(a, " ") == Render(b, " ")
    ensures a == b
  {
    RenderCells(a);
    RenderCells(b);
    forall i | 0 <= i < |a|
      ensures a[i] == b[i]
    {
      HexInjective(a[i], b[i]);
    }
  }
}
