/** Breaking long labels into lines, after `StringUtil.java` and `prepare` of `OutputTree.java`. */
module WrapText {

  const BR := "<br/>"

  /** Character by character: a break is due when no room is left on the line, but it is
      only written before the next character. */
  function Wrap(s: string, width: int, room: int): (t: string)
    requires width > 0 && room >= 0
    decreases |s|
  {
    if s == "" then ""
    else if room == 0 then BR + [s[0]] + Wrap(s[1..], width, width - 1)
    else [s[0]] + Wrap(s[1..], width, room - 1)
  }

  /** The room left on the last line. */
  function Room(s: string, width: int, room: int): (r: int)
    requires width > 0 && room >= 0
    ensures r >= 0
    decreases |s|
  {
    if s == "" then room
    else Room(s[1..], width, (if room == 0 then width else room) - 1)
  }

  /** Wrapping in pieces, with the room carried over, is wrapping the whole. */
  lemma {:induction false} WrapAppend(a: string, b: string, width: int, room: int)
    requires width > 0 && room >= 0
    ensures Wrap(a + b, width, room) == Wrap(a, width, room) + Wrap(b, width, Room(a, width, room))
    ensures Room(a + b, width, room) == Room(b, width, Room(a, width, room))
    decreases |a|
  {
    if a == "" {
      assert a + b == b;
    } else {
      assert (a + b)[1..] == a[1..] + b;
      WrapAppend(a[1..], b, width, (if room == 0 then width else room) - 1);
    }
  }

  /** A piece that fits on the line stays as it is. */
  lemma {:induction false} WrapFits(s: string, width: int, room: int)
    requires width > 0 && |s| <= room
    ensures Wrap(s, width, room) == s && Room(s, width, room) == room - |s|
    decreases |s|
  {
    if s != "" {
      WrapFits(s[1..], width, room - 1);
    }
  }

  /** A whole line after a full one. */
  lemma WrapLine(s: string, width: int)
    requires width > 0 && 0 < |s| <= width
    ensures Wrap(s, width, 0) == BR + s && Room(s, width, 0) == width - |s|
  {
    WrapFits(s[1..], width, width - 1);
    assert s == [s[0]] + s[1..];
  }

  /** Line by line: the first line takes what there is room for, the next ones the width. */
  lemma LineByLine(s: string, width: int, room: int)
    requires width > 0 && room >= 0
    ensures Wrap(s, width, room) ==
      if |s| <= room then s else s[..room] + "<br/>" + Wrap(s[room..], width, width)
    ensures Room(s, width, room) == if |s| <= room then room - |s| else Room(s[room..], width, width)
  {
    if |s| <= room {
      WrapFits(s, width, room);
    } else {
      var a, b := s[..room], s[room..];
      assert s == a + b;
      WrapFits(a, width, room);
      WrapAppend(a, b, width, room);
    }
  }

  /** The remainder by repeated subtraction. */
  function Rest(n: nat, width: int): (r: nat)
    requires width > 0
    ensures r < width && r <= n
  {
    if n < width then n else Rest(n - width, width)
  }

  lemma {:induction false} RestIsModulo(n: nat, width: int)
    requires width > 0
    ensures Rest(n, width) == n % width
  {
    if n < width {
      QuotientUnique(n, width, 0, n);
    } else {
      RestIsModulo(n - width, width);
      var q, r := (n - width) / width, (n - width) % width;
      assert (q + 1) * width == q * width + width;
      QuotientUnique(n, width, q + 1, r);
    }
  }

  lemma QuotientUnique(n: nat, width: int, q: int, r: int)
    requires width > 0 && 0 <= r < width && n == q * width + r
    ensures n % width == r
  {
    var d := n / width - q;
    assert d * width == n / width * width - q * width;
    if d > 0 {
      MultipleAtLeast(d, width);
    } else if d < 0 {
      assert (-d) * width == -(d * width);
      MultipleAtLeast(-d, width);
    }
  }

  lemma MultipleAtLeast(d: int, width: int)
    requires d >= 1 && width > 0
    ensures d * width >= width
  {
  }

  lemma RestStep(n: nat, width: int)
    requires width > 0
    ensures Rest(n, width) == if n < width then n else Rest(n - width, width)
  {
  }

  /** The text so far, with the break that the next line has already got. */
  function Pending(s: string, width: int, room: int, more: bool): (t: string)
    requires width > 0 && room >= 0
  {
    Wrap(s, width, room) + if more then BR else ""
  }

  lemma PendingLine(str: string, i: int, width: int, room: int)
    requires width > 0 && room >= 0 && 0 <= i && i + width <= |str|
    requires Room(str[..i], width, room) == 0
    ensures Pending(str[..i + width], width, room, i + width < |str|)
      == Pending(str[..i], width, room, true) + str[i..i + width] + (if i + width < |str| then BR else "")
    ensures Room(str[..i + width], width, room) == 0
  {
    var line := str[i..i + width];
    assert str[..i] + line == str[..i + width];
    WrapAppend(str[..i], line, width, room);
    WrapLine(line, width);
  }

  lemma LastLine(str: string, i: int, width: int, room: int)
    requires width > 0 && room >= 0 && 0 <= i < |str| && |str| - i < width && Room(str[..i], width, room) == 0
    ensures Wrap(str, width, room) == Pending(str[..i], width, room, true) + str[i..]
    ensures Room(str, width, room) == width - (|str| - i)
  {
    WrapAppend(str[..i], str[i..], width, room);
    WrapLine(str[i..], width);
    assert str[..i] + str[i..] == str;
  }

  /** Wraps `str` after `wrapAfter` characters a line, the first line after `firstWrap`.
      Returns the text and the room left on its last line. */
  method WrapText(str: string, wrapAfter: int, firstWrap: int) returns (left: string, right: int)
    ensures wrapAfter <= 0 ==> left == str && right == wrapAfter
    ensures wrapAfter > 0 ==>
      var room := if firstWrap < 0 then wrapAfter else firstWrap;
      left == Wrap(str, wrapAfter, room) && right == Room(str, wrapAfter, room)
  {
    hide Wrap, Room, Rest;
    if wrapAfter <= 0 {
      return str, wrapAfter;
    }
    var first := if firstWrap < 0 then wrapAfter else firstWrap;
    if |str| < first {
      WrapFits(str, wrapAfter, first);
      return str, first - |str|;
    }
    var sb := str[..first];
    WrapFits(str[..first], wrapAfter, first);
    if |str| != first {
      sb := sb + BR;
    }
    var i := first;
    while i < |str|
      invariant first <= i <= |str| && Rest(|str| - i, wrapAfter) == Rest(|str| - first, wrapAfter)
      invariant Room(str[..i], wrapAfter, first) == 0
      invariant sb == Pending(str[..i], wrapAfter, first, i < |str|)
    {
      RestStep(|str| - i, wrapAfter);
      if |str| < i + wrapAfter {
        break;
      }
      PendingLine(str, i, wrapAfter, first);
      sb := sb + str[i..i + wrapAfter];
      if |str| != i + wrapAfter {
        sb := sb + BR;
      }
      i := i + wrapAfter;
    }
    RestStep(|str| - i, wrapAfter);
    RestIsModulo(|str| - first, wrapAfter);
    var missingChars := (|str| - first) % wrapAfter;
    assert missingChars == |str| - i;
    if missingChars > 0 {
      LastLine(str, i, wrapAfter, first);
      sb := sb + str[|str| - missingChars..];
      return sb, wrapAfter - missingChars;
    }
    assert str[..i] == str;
    return sb, 0;
  }

  // ---------------------------------------------------------------- labels

  /** The text without its breaks. */
  function StripBreaks(t: string): (s: string)
    decreases |t|
  {
    if |t| >= |BR| && t[..|BR|] == BR then StripBreaks(t[|BR|..])
    else if t == "" then ""
    else [t[0]] + StripBreaks(t[1..])
  }

  lemma StripChar(c: char, rest: string)
    requires c != '<'
    ensures StripBreaks([c] + rest) == [c] + StripBreaks(rest)
  {
    var t := [c] + rest;
    assert t[1..] == rest;
    assert |t| >= |BR| ==> t[..|BR|][0] == c;
  }

  lemma StripBreak(t: string)
    ensures StripBreaks(BR + t) == StripBreaks(t)
  {
    assert (BR + t)[..|BR|] == BR && (BR + t)[|BR|..] == t;
  }

  /** Deleting the breaks gives the text back. */
  lemma {:induction false} WrapStrips(s: string, width: int, room: int)
    requires width > 0 && room >= 0 && '<' !in s
    ensures StripBreaks(Wrap(s, width, room)) == s
    decreases |s|
  {
    hide StripBreaks;
    if s == "" {
      StripNothing();
    } else {
      var rest := Wrap(s[1..], width, (if room == 0 then width else room) - 1);
      WrapStrips(s[1..], width, (if room == 0 then width else room) - 1);
      StripChar(s[0], rest);
      StripBreak([s[0]] + rest);
      assert BR + ([s[0]] + rest) == BR + [s[0]] + rest;
    }
  }

  lemma StripNothing()
    ensures StripBreaks("") == ""
  {
  }

  /** The whole text, wrapped from the beginning of a line. */
  function Wrapped(s: string, width: int): (t: string) {
    if width <= 0 then s else Wrap(s, width, width)
  }

  /** The label of a message in `prepare`: the whole message wrapped, although its three
      pieces are wrapped one by one, with font tags around what belongs to the middle: they
      stand where the wrapped left end stops and where the wrapped middle does. */
  method Label(message: string, left: int, right: int, wrapAfter: int, color: string) returns (text: string)
    requires 0 <= left && 0 <= right
    ensures left + right + 1 >= |message| ==> text == Wrapped(message, 3 * wrapAfter)
    ensures left + right + 1 < |message| ==>
      var plain := Wrapped(message, 3 * wrapAfter);
      var i := |Wrapped(message[..left], 3 * wrapAfter)|;
      var j := |Wrapped(message[..|message| - right], 3 * wrapAfter)|;
      && i <= j <= |plain|
      && text == plain[..i] + "<font color=\"" + color + "\">" + plain[i..j] + "</font>" + plain[j..]
  {
    var w := 3 * wrapAfter;
    var room;
    if left + right + 1 >= |message| {
      text, room := WrapText(message, w, -1);
    } else {
      var l, m, r;
      l, room := WrapText(message[..left], w, -1);
      m, room := WrapText(message[left..|message| - right], w, room);
      r, room := WrapText(message[|message| - right..], w, room);
      text := l + "<font color=\"" + color + "\">" + m + "</font>" + r;
      ThreePieces(message, left, right, w);
      ColouredPieces(text, l, m, r, color);
      assert l + m + r == Wrapped(message, w);
      assert message[..left] + message[left..|message| - right] == message[..|message| - right];
      if w > 0 {
        WrapAppend(message[..left], message[left..|message| - right], w, w);
      }
    }
  }

  lemma ColouredPieces(text: string, l: string, m: string, r: string, color: string)
    requires text == l + "<font color=\"" + color + "\">" + m + "</font>" + r
    ensures var plain := l + m + r;
      text == plain[..|l|] + "<font color=\"" + color + "\">" + plain[|l|..|l + m|] + "</font>" + plain[|l + m|..]
  {
    var plain := l + m + r;
    assert plain[..|l|] == l && plain[|l|..|l + m|] == m && plain[|l + m|..] == r;
  }

  lemma ThreePieces(message: string, left: int, right: int, w: int)
    requires 0 <= left && 0 <= right && left + right <= |message|
    ensures var a, b, c := message[..left], message[left..|message| - right], message[|message| - right..];
      && a + b + c == message
      && (w > 0 ==>
        Wrap(a, w, w) + Wrap(b, w, Room(a, w, w)) + Wrap(c, w, Room(b, w, Room(a, w, w))) == Wrap(message, w, w))
  {
    var a, b, c := message[..left], message[left..|message| - right], message[|message| - right..];
    assert a + b + c == message;
    if w > 0 {
      WrapAppend(a, b, w, w);
      WrapAppend(a + b, c, w, w);
    }
  }
}
