/**
 Configuration strings (click/lib/confparse.cc): quoting, unquoting, comment
 removal, and splitting an argument list at commas.

 Pointers into a string are indices.  As in the source, the index after an
 unterminated comment may lie past the end of the string.
 */
module Quoting {
  import opened Bytes
  import opened Collections

  const TAB: Byte := 9
  const NEWLINE: Byte := 10
  const RETURN: Byte := 13
  const SPACE: Byte := 32
  const QUOTE: Byte := 34
  const DOLLAR: Byte := 36
  const TICK: Byte := 39
  const STAR: Byte := 42
  const COMMA: Byte := 44
  const SLASH: Byte := 47
  const DIGIT0: Byte := 48
  const LESS: Byte := 60
  const GREATER: Byte := 62
  const BACKSLASH: Byte := 92
  const DELETE: Byte := 127

  predicate IsSpace(c: Byte) {
    c == SPACE || 9 <= c <= 13
  }

  /** A substring; empty unless the indices delimit one. */
  function Sub(s: Str, i: int, j: int): Str {
    if 0 <= i < j <= |s| then s[i..j] else []
  }

  // ---------------------------------------------------------------- comments

  predicate CommentAt(s: Str, i: nat) {
    i + 1 < |s| && s[i] == SLASH && (s[i + 1] == SLASH || s[i + 1] == STAR)
  }

  function LineEnd(s: Str, i: nat): (j: nat)
    ensures i <= j && (j + 1 < |s| ==> s[j] == NEWLINE || s[j] == RETURN)
    decreases |s| - i
  {
    if i + 1 < |s| && s[i] != NEWLINE && s[i] != RETURN then LineEnd(s, i + 1) else i
  }

  function BlockEnd(s: Str, i: nat): (j: nat)
    ensures i <= j && (j + 2 < |s| ==> s[j] == STAR && s[j + 1] == SLASH)
    decreases |s| - i
  {
    if i + 2 < |s| && !(s[i] == STAR && s[i + 1] == SLASH) then BlockEnd(s, i + 1) else i
  }

  /** The index after the comment at `i`. */
  function CommentEnd(s: Str, i: nat): (j: nat)
    requires CommentAt(s, i)
    ensures i + 2 < j
  {
    if s[i + 1] == SLASH then
      var k := LineEnd(s, i + 2);
      if k + 1 < |s| && s[k] == RETURN && s[k + 1] == NEWLINE then k + 2 else k + 1
    else
      BlockEnd(s, i + 2) + 2
  }

  /** `skip_comment` */
  method SkipComment(s: Str, i: nat) returns (j: nat)
    requires CommentAt(s, i)
    ensures j == CommentEnd(s, i)
  {
    j := i + 2;
    if s[i + 1] == SLASH {
      while j + 1 < |s| && s[j] != NEWLINE && s[j] != RETURN
        invariant LineEnd(s, j) == LineEnd(s, i + 2)
      {
        j := j + 1;
      }
      if j + 1 < |s| && s[j] == RETURN && s[j + 1] == NEWLINE {
        j := j + 1;
      }
      j := j + 1;
    } else {
      while j + 2 < |s| && (s[j] != STAR || s[j + 1] != SLASH)
        invariant BlockEnd(s, j) == BlockEnd(s, i + 2)
      {
        j := j + 1;
      }
      j := j + 2;
    }
  }

  // ---------------------------------------------------------------- skipping quoted text

  function AngleEnd(s: Str, i: nat): (j: nat)
    ensures i <= j
    decreases |s| - i
  {
    if i >= |s| then i
    else if s[i] == GREATER then i + 1
    else if CommentAt(s, i) then AngleEnd(s, CommentEnd(s, i))
    else AngleEnd(s, i + 1)
  }

  /** The index after the backslash escape at `i`. */
  function EscapeEnd(s: Str, i: nat): (j: nat)
    requires i < |s| && s[i] == BACKSLASH
    ensures i < j
  {
    if i + 1 >= |s| then i + 1
    else if s[i + 1] == LESS then AngleEnd(s, i + 2)
    else if s[i + 1] == RETURN && i + 2 < |s| && s[i + 2] == NEWLINE then i + 3
    else i + 2
  }

  /** `skip_backslash` */
  method SkipBackslash(s: Str, i: nat) returns (j: nat)
    requires i < |s| && s[i] == BACKSLASH
    ensures j == EscapeEnd(s, i)
  {
    if i + 1 >= |s| {
      j := i + 1;
    } else if s[i + 1] == LESS {
      j := i + 2;
      while j < |s|
        invariant AngleEnd(s, j) == AngleEnd(s, i + 2)
        decreases |s| - j
      {
        if s[j] == GREATER {
          return j + 1;
        } else if CommentAt(s, j) {
          j := SkipComment(s, j);
        } else {
          j := j + 1;
        }
      }
    } else if s[i + 1] == RETURN && i + 2 < |s| && s[i + 2] == NEWLINE {
      j := i + 3;
    } else {
      j := i + 2;
    }
  }

  /** From inside a double-quoted string, the index after its closing quote. */
  function QuoteEnd(s: Str, i: nat): (j: nat)
    ensures i <= j || j == |s|
    decreases |s| - i
  {
    if i >= |s| then |s|
    else if s[i] == BACKSLASH then QuoteEnd(s, EscapeEnd(s, i))
    else if s[i] == QUOTE then i + 1
    else QuoteEnd(s, i + 1)
  }

  lemma QuoteEndAdvances(s: Str, i: nat)
    requires i < |s|
    ensures i < QuoteEnd(s, i) <= |s|
    decreases |s| - i
  {
    if s[i] == BACKSLASH {
      if EscapeEnd(s, i) < |s| {
        QuoteEndAdvances(s, EscapeEnd(s, i));
      }
    } else if s[i] != QUOTE && i + 1 < |s| {
      QuoteEndAdvances(s, i + 1);
    }
  }

  /** `cp_skip_double_quote` */
  method SkipDoubleQuote(s: Str, i: nat) returns (j: nat)
    requires i < |s| && s[i] == QUOTE
    ensures j == QuoteEnd(s, i + 1)
  {
    j := i + 1;
    while j < |s|
      invariant QuoteEnd(s, j) == QuoteEnd(s, i + 1)
      decreases |s| - j
    {
      if s[j] == BACKSLASH {
        j := SkipBackslash(s, j);
      } else if s[j] == QUOTE {
        return j + 1;
      } else {
        j := j + 1;
      }
    }
    return |s|;
  }

  function TickEnd(s: Str, i: nat): (j: nat)
    requires i <= |s|
    ensures i <= j <= |s|
    decreases |s| - i
  {
    if i >= |s| then |s| else if s[i] == TICK then i + 1 else TickEnd(s, i + 1)
  }

  /** `skip_single_quote` */
  method SkipSingleQuote(s: Str, i: nat) returns (j: nat)
    requires i < |s| && s[i] == TICK
    ensures j == TickEnd(s, i + 1)
  {
    j := i + 1;
    while j < |s|
      invariant i < j <= |s| && TickEnd(s, j) == TickEnd(s, i + 1)
    {
      if s[j] == TICK {
        return j + 1;
      }
      j := j + 1;
    }
    return |s|;
  }

  /** The first index from `i` that is neither space nor in a comment. */
  function SpaceEnd(s: Str, i: nat): (j: nat)
    ensures i <= j
    decreases |s| - i
  {
    if i >= |s| then i
    else if IsSpace(s[i]) then SpaceEnd(s, i + 1)
    else if CommentAt(s, i) then SpaceEnd(s, CommentEnd(s, i))
    else i
  }

  /** `cp_skip_comment_space` */
  method SkipCommentSpace(s: Str, i: nat) returns (j: nat)
    ensures j == SpaceEnd(s, i)
  {
    j := i;
    while j < |s|
      invariant SpaceEnd(s, j) == SpaceEnd(s, i)
      decreases |s| - j
    {
      if IsSpace(s[j]) {
        j := j + 1;
      } else if CommentAt(s, j) {
        j := SkipComment(s, j);
      } else {
        break;
      }
    }
  }

  // ---------------------------------------------------------------- removing comments

  /** The index after the token at `i`: a quoted string, an escape in angle brackets, or one byte. */
  function TokenEnd(s: Str, i: nat): (j: nat)
    requires i < |s|
    ensures i < j
  {
    QuoteEndsLater(s, i);
    if s[i] == TICK then TickEnd(s, i + 1)
    else if s[i] == QUOTE then QuoteEnd(s, i + 1)
    else if s[i] == BACKSLASH && i + 1 < |s| && s[i + 1] == LESS then EscapeEnd(s, i)
    else i + 1
  }

  lemma QuoteEndsLater(s: Str, i: nat)
    requires i < |s|
    ensures i < QuoteEnd(s, i + 1)
  {
    if i + 1 < |s| {
      QuoteEndAdvances(s, i + 1);
    }
  }

  /** The text from `i` on with comments removed, and where it ends; `comma` asks to stop at a comma. */
  function Uncomment(s: Str, i: nat, left: nat, right: nat, closed: bool, acc: Str, comma: bool): (r: (Str, nat))
    ensures i <= r.1
    decreases |s| - i
  {
    if i >= |s| then (acc + Sub(s, left, right), i)
    else if IsSpace(s[i]) then Uncomment(s, i + 1, left, right, closed, acc, comma)
    else if CommentAt(s, i) then Uncomment(s, CommentEnd(s, i), left, right, true, acc, comma)
    else if s[i] == COMMA && comma then (acc + Sub(s, left, right), i)
    else
      var j := TokenEnd(s, i);
      if closed then Uncomment(s, j, i, j, false, acc + Sub(s, left, right) + [SPACE], comma)
      else Uncomment(s, j, left, j, false, acc, comma)
  }

  function UncommentFrom(s: Str, i: nat, comma: bool): (r: (Str, nat))
    ensures i <= r.1
  {
    var j := SpaceEnd(s, i);
    Uncomment(s, j, j, j, false, [], comma)
  }

  /** `partial_uncomment` */
  method PartialUncomment(s: Str, from: nat, comma: bool) returns (r: Str, pos: nat)
    ensures (r, pos) == UncommentFrom(s, from, comma)
  {
    var i := SkipCommentSpace(s, from);
    var acc: Str, left: nat, right: nat, closed := [], i, i, false;
    while i < |s|
      invariant Uncomment(s, i, left, right, closed, acc, comma) == UncommentFrom(s, from, comma)
      decreases |s| - i
    {
      if IsSpace(s[i]) {
        i := i + 1;
      } else if CommentAt(s, i) {
        i := SkipComment(s, i);
        closed := true;
      } else if s[i] == COMMA && comma {
        break;
      } else {
        if closed {
          acc := acc + Sub(s, left, right) + [SPACE];
          left := i;
          closed := false;
        }
        if s[i] == TICK {
          i := SkipSingleQuote(s, i);
        } else if s[i] == QUOTE {
          QuoteEndsLater(s, i);
          i := SkipDoubleQuote(s, i);
        } else if s[i] == BACKSLASH && i + 1 < |s| && s[i + 1] == LESS {
          i := SkipBackslash(s, i);
        } else {
          i := i + 1;
        }
        right := i;
      }
    }
    pos := i;
    r := acc + Sub(s, left, right);
  }

  // ---------------------------------------------------------------- backslash escapes

  predicate IsOctal(c: Byte) {
    DIGIT0 <= c <= DIGIT0 + 7
  }

  /** The value of a hexadecimal digit, -1 for another byte. */
  function HexValue(c: Byte): (v: int)
    ensures -1 <= v < 16
  {
    if 48 <= c <= 57 then c - 48 else if 65 <= c <= 70 then c - 55 else if 97 <= c <= 102 then c - 87 else -1
  }

  /** Up to three octal digits: the byte they denote, and the index after them. */
  function Octal(s: Str, i: nat, c: nat, d: nat): (r: (Byte, nat))
    requires i <= |s|
    ensures i <= r.1 <= |s|
    decreases |s| - i
  {
    if i < |s| && IsOctal(s[i]) && d < 3 then Octal(s, i + 1, c * 8 + s[i] - DIGIT0, d + 1) else (c % 256, i)
  }

  /** Any number of hexadecimal digits, of which the last two count. */
  function Hex(s: Str, i: nat, c: Byte): (r: (Byte, nat))
    requires i <= |s|
    ensures i <= r.1 <= |s|
    decreases |s| - i
  {
    if i < |s| && HexValue(s[i]) >= 0 then Hex(s, i + 1, (c * 16 + HexValue(s[i])) % 256) else (c, i)
  }

  /** The bytes spelled in angle brackets; `half` is the value of an unpaired digit, -1 if there is none. */
  function Angle(s: Str, i: nat, half: int, acc: Str): (r: (Str, nat))
    requires -1 <= half < 16
    ensures r.1 <= |s|
    ensures i <= |s| ==> i <= r.1
    decreases |s| - i
  {
    if i >= |s| then (acc, |s|)
    else if s[i] == GREATER then (acc, i + 1)
    else if HexValue(s[i]) >= 0 then
      if half >= 0 then Angle(s, i + 1, -1, acc + [half * 16 + HexValue(s[i])])
      else Angle(s, i + 1, HexValue(s[i]), acc)
    else if CommentAt(s, i) then Angle(s, CommentEnd(s, i), half, acc)
    else Angle(s, i + 1, half, acc)
  }

  /** The bytes a backslash escape stands for, and the index after it. */
  function Escape(s: Str, i: nat): (r: (Str, nat))
    requires i < |s| && s[i] == BACKSLASH
    ensures i < r.1 <= |s|
  {
    if i == |s| - 1 then ([BACKSLASH], |s|)
    else match s[i + 1]
      case 13 => ([], if i + 2 < |s| && s[i + 2] == NEWLINE then i + 3 else i + 2)
      case 10 => ([], i + 2)
      case 97 => ([7], i + 2)
      case 98 => ([8], i + 2)
      case 102 => ([12], i + 2)
      case 110 => ([NEWLINE], i + 2)
      case 114 => ([RETURN], i + 2)
      case 116 => ([TAB], i + 2)
      case 118 => ([11], i + 2)
      case 120 => var (c, j) := Hex(s, i + 2, 0); ([c], j)
      case 60 => Angle(s, i + 2, -1, [])
      case c =>
        if IsOctal(c) then var (b, j) := Octal(s, i + 1, 0, 0); ([b], j)
        else ([c], i + 2)
  }

  /** The octal loop. */
  method ReadOctal(s: Str, i: nat) returns (c: Byte, j: nat)
    requires i <= |s|
    ensures (c, j) == Octal(s, i, 0, 0)
  {
    var v: nat, d := 0, 0;
    j := i;
    while j < |s| && IsOctal(s[j]) && d < 3
      invariant 0 <= d && j <= |s| && Octal(s, j, v, d) == Octal(s, i, 0, 0)
    {
      v := v * 8 + s[j] - DIGIT0;
      j, d := j + 1, d + 1;
    }
    c := v % 256;
  }

  /** The hexadecimal loop. */
  method ReadHex(s: Str, i: nat) returns (c: Byte, j: nat)
    requires i <= |s|
    ensures (c, j) == Hex(s, i, 0)
  {
    c, j := 0, i;
    while j < |s|
      invariant j <= |s| && Hex(s, j, c) == Hex(s, i, 0)
    {
      if HexValue(s[j]) < 0 {
        break;
      }
      c := (c * 16 + HexValue(s[j])) % 256;
      j := j + 1;
    }
  }

  /** The angle-bracket loop. */
  method ReadAngle(s: Str, i: nat) returns (acc: Str, j: nat)
    ensures (acc, j) == Angle(s, i, -1, [])
  {
    var half := -1;
    acc, j := [], i;
    while j < |s|
      invariant -1 <= half < 16 && Angle(s, j, half, acc) == Angle(s, i, -1, [])
      decreases |s| - j
    {
      if s[j] == GREATER {
        return acc, j + 1;
      }
      var v := HexValue(s[j]);
      if v >= 0 {
        if half >= 0 {
          acc, half := acc + [half * 16 + v], -1;
        } else {
          half := v;
        }
        j := j + 1;
      } else if CommentAt(s, j) {
        j := SkipComment(s, j);
      } else {
        j := j + 1;
      }
    }
    j := |s|;
  }

  /** `cp_process_backslash` */
  method ProcessBackslash(s: Str, i: nat, acc0: Str) returns (acc: Str, j: nat)
    requires i < |s| && s[i] == BACKSLASH
    ensures acc == acc0 + Escape(s, i).0 && j == Escape(s, i).1
  {
    if i == |s| - 1 {
      return acc0 + [BACKSLASH], |s|;
    }
    var c := s[i + 1];
    acc, j := acc0, i + 2;
    if c == RETURN {
      j := if i + 2 < |s| && s[i + 2] == NEWLINE then i + 3 else i + 2;
    } else if c == NEWLINE {
    } else if c == 97 {
      acc := acc + [7];
    } else if c == 98 {
      acc := acc + [8];
    } else if c == 102 {
      acc := acc + [12];
    } else if c == 110 {
      acc := acc + [NEWLINE];
    } else if c == 114 {
      acc := acc + [RETURN];
    } else if c == 116 {
      acc := acc + [TAB];
    } else if c == 118 {
      acc := acc + [11];
    } else if IsOctal(c) {
      var b, k := ReadOctal(s, i + 1);
      acc, j := acc + [b], k;
    } else if c == 120 {
      var b, k := ReadHex(s, i + 2);
      acc, j := acc + [b], k;
    } else if c == LESS {
      var more, k := ReadAngle(s, i + 2);
      acc, j := acc + more, k;
    } else {
      acc := acc + [c];
    }
  }

  // ---------------------------------------------------------------- unquoting

  /**
   Unquoting from `i`: `start` is where the text not yet copied begins,
   `quote` the quote character we are inside (0 for none).
   */
  function UnquoteFrom(x: Str, i: nat, start: nat, quote: Byte, acc: Str): Str
    requires i <= |x|
    decreases |x| - i
  {
    if i >= |x| then (if start == 0 then x else acc + Sub(x, start, i))
    else if x[i] == QUOTE || x[i] == TICK then
      if quote == 0 then UnquoteFrom(x, i + 1, i + 1, x[i], acc + Sub(x, start, i))
      else if quote == x[i] then UnquoteFrom(x, i + 1, i + 1, 0, acc + Sub(x, start, i))
      else UnquoteFrom(x, i + 1, start, quote, acc)
    else if x[i] == BACKSLASH && i + 1 < |x| && (quote == QUOTE || (quote == 0 && x[i + 1] == LESS)) then
      var (out, j) := Escape(x, i);
      UnquoteFrom(x, j, j, quote, acc + Sub(x, start, i) + out)
    else UnquoteFrom(x, i + 1, start, quote, acc)
  }

  function Unquote(s: Str): Str {
    UnquoteFrom(UncommentFrom(s, 0, false).0, 0, 0, 0, [])
  }

  /** `cp_unquote` */
  method CpUnquote(s: Str) returns (r: Str)
    ensures r == Unquote(s)
  {
    var x, pos := PartialUncomment(s, 0, false);
    var i: nat, start: nat, quote: Byte, acc: Str := 0, 0, 0, [];
    while i < |x|
      invariant i <= |x| && UnquoteFrom(x, i, start, quote, acc) == Unquote(s)
    {
      if x[i] == QUOTE || x[i] == TICK {
        if quote == 0 {
          acc := acc + Sub(x, start, i);
          start, quote := i + 1, x[i];
        } else if quote == x[i] {
          acc := acc + Sub(x, start, i);
          start, quote := i + 1, 0;
        }
        i := i + 1;
      } else if x[i] == BACKSLASH && i + 1 < |x| && (quote == QUOTE || (quote == 0 && x[i + 1] == LESS)) {
        acc := acc + Sub(x, start, i);
        acc, start := ProcessBackslash(x, i, acc);
        i := start;
      } else {
        i := i + 1;
      }
    }
    r := if start == 0 then x else acc + Sub(x, start, i);
  }

  // ---------------------------------------------------------------- quoting

  /** How one byte is written inside double quotes. */
  function EscapeByte(c: Byte, allowNewlines: bool): (e: Str)
    ensures e != []
  {
    if c == BACKSLASH || c == QUOTE || c == DOLLAR then [BACKSLASH, c]
    else if c == TAB then [BACKSLASH, 116]
    else if c == RETURN then [BACKSLASH, 114]
    else if c == NEWLINE then (if allowNewlines then [c] else [BACKSLASH, 110])
    else if c < 32 || c >= DELETE then [BACKSLASH, DIGIT0 + c / 64, DIGIT0 + c / 8 % 8, DIGIT0 + c % 8]
    else [c]
  }

  function EscapeAll(s: Str, allowNewlines: bool): (e: Str) {
    if s == [] then [] else EscapeByte(s[0], allowNewlines) + EscapeAll(s[1..], allowNewlines)
  }

  function Quoted(s: Str, allowNewlines: bool): (q: Str)
    ensures |q| >= 2 && q[0] == QUOTE
  {
    [QUOTE] + EscapeAll(s, allowNewlines) + [QUOTE]
  }

  lemma {:induction false} EscapeAllSnoc(s: Str, c: Byte, allow: bool)
    ensures EscapeAll(s + [c], allow) == EscapeAll(s, allow) + EscapeByte(c, allow)
  {
    if s == [] {
      assert [c][1..] == [];
    } else {
      assert (s + [c])[1..] == s[1..] + [c];
      EscapeAllSnoc(s[1..], c, allow);
    }
  }

  /** Either flush the pending text and write the escape, or leave the byte pending. */
  lemma QuoteStep(q: Str, s: Str, start: nat, i: nat, allow: bool)
    requires start <= i < |s| && q + s[start..i] == [QUOTE] + EscapeAll(s[..i], allow)
    ensures (q + s[start..i] + EscapeByte(s[i], allow)) + s[i + 1..i + 1] == [QUOTE] + EscapeAll(s[..i + 1], allow)
    ensures EscapeByte(s[i], allow) == [s[i]] ==> q + s[start..i + 1] == [QUOTE] + EscapeAll(s[..i + 1], allow)
  {
    EscapeAllSnoc(s[..i], s[i], allow);
    assert s[..i + 1] == s[..i] + [s[i]] && s[start..i + 1] == s[start..i] + [s[i]];
  }

  /** The switch of `cp_quote`: flush the pending text and write an escape, or leave the byte pending. */
  method WriteByte(q: Str, s: Str, start: nat, i: nat, allowNewlines: bool) returns (q': Str, start': nat)
    requires start <= i < |s|
    ensures EscapeByte(s[i], allowNewlines) == [s[i]] ==> q' == q && start' == start
    ensures EscapeByte(s[i], allowNewlines) != [s[i]] ==>
              q' == q + s[start..i] + EscapeByte(s[i], allowNewlines) && start' == i + 1
  {
    var c := s[i];
    q', start' := q, start;
    if c == BACKSLASH || c == QUOTE || c == DOLLAR {
      q', start' := q + s[start..i] + [BACKSLASH, c], i + 1;
    } else if c == TAB {
      q', start' := q + s[start..i] + [BACKSLASH, 116], i + 1;
    } else if c == RETURN {
      q', start' := q + s[start..i] + [BACKSLASH, 114], i + 1;
    } else if c == NEWLINE {
      if !allowNewlines {
        q', start' := q + s[start..i] + [BACKSLASH, 110], i + 1;
      }
    } else if c < 32 || c >= DELETE {
      q', start' := q + s[start..i] + [BACKSLASH, DIGIT0 + c / 64, DIGIT0 + c / 8 % 8, DIGIT0 + c % 8], i + 1;
    }
  }

  /** `cp_quote` */
  method CpQuote(s: Str, allowNewlines: bool) returns (q: Str)
    ensures q == Quoted(s, allowNewlines)
  {
    if s == [] {
      return [QUOTE, QUOTE];
    }
    q := [QUOTE];
    var start: nat := 0;
    for i := 0 to |s|
      invariant start <= i
      invariant q + s[start..i] == [QUOTE] + EscapeAll(s[..i], allowNewlines)
    {
      QuoteStep(q, s, start, i, allowNewlines);
      q, start := WriteByte(q, s, start, i, allowNewlines);
    }
    assert s[..|s|] == s;
    q := q + s[start..|s|] + [QUOTE];
  }

  // ---------------------------------------------------------------- round trips

  /** Skipping passes over one written byte without seeing a quote. */
  lemma SkipOver(x: Str, i: nat, c: Byte, allow: bool)
    requires At(x, i, EscapeByte(c, allow))
    ensures QuoteEnd(x, i) == QuoteEnd(x, i + |EscapeByte(c, allow)|)
  {
    var e := EscapeByte(c, allow);
    assert x[i + 0] == e[0];
    if |e| >= 2 {
      assert x[i + 1] == e[1];
      if |e| == 4 {
        assert x[i + 2] == e[2] && x[i + 3] == e[3];
        assert QuoteEnd(x, i + 2) == QuoteEnd(x, i + 3) == QuoteEnd(x, i + 4);
      }
    }
  }

  /** Inside a quoted string the next written byte stands here, and the rest after it. */
  lemma InsideStep(x: Str, i: nat, s: Str, allow: bool)
    requires s != [] && At(x, i, EscapeAll(s, allow) + [QUOTE])
    ensures var e := EscapeByte(s[0], allow);
            && At(x, i, e) && At(x, i + |e|, EscapeAll(s[1..], allow) + [QUOTE])
            && |EscapeAll(s, allow)| == |e| + |EscapeAll(s[1..], allow)|
  {
    var e, rest := EscapeByte(s[0], allow), EscapeAll(s[1..], allow);
    Regroup(e, rest, [QUOTE]);
    AtSplit(x, i, e, rest + [QUOTE]);
  }

  lemma InsideClose(x: Str, i: nat, allow: bool)
    requires At(x, i, EscapeAll([], allow) + [QUOTE])
    ensures i < |x| && x[i] == QUOTE
  {
    assert x[i + 0] == (EscapeAll([], allow) + [QUOTE])[0];
  }

  /** A quoted string ends at its own closing quote. */
  lemma {:induction false} QuotedEnd(x: Str, i: nat, s: Str, allow: bool)
    requires At(x, i, EscapeAll(s, allow) + [QUOTE])
    ensures QuoteEnd(x, i) == i + |EscapeAll(s, allow)| + 1
    decreases |s|
  {
    if s == [] {
      InsideClose(x, i, allow);
    } else {
      InsideStep(x, i, s, allow);
      SkipOver(x, i, s[0], allow);
      QuotedEnd(x, i + |EscapeByte(s[0], allow)|, s[1..], allow);
    }
  }

  /** Unquoting one written byte yields the byte. */
  lemma UnquoteByte(x: Str, i: nat, start: nat, acc: Str, done: Str, c: Byte, r: Str, j: nat, allow: bool)
    returns (start': nat, acc': Str)
    requires At(x, i, EscapeByte(c, allow)) && j == i + |EscapeByte(c, allow)| < |x|
    requires Read(x, i, start, acc, done, r)
    ensures Read(x, j, start', acc', done + [c], r)
  {
    var e := EscapeByte(c, allow);
    if |e| == 1 {
      PlainByte(x, i, start, acc, c, allow);
      start', acc' := start, acc;
    } else {
      EscapedByte(x, i, c, allow);
      start', acc' := j, done + [c];
      assert Sub(x, j, j) == [];
    }
  }

  lemma PlainByte(x: Str, i: nat, start: nat, acc: Str, c: Byte, allow: bool)
    requires At(x, i, EscapeByte(c, allow)) && |EscapeByte(c, allow)| == 1 && 0 < start <= i && i + 1 < |x|
    ensures UnquoteFrom(x, i, start, QUOTE, acc) == UnquoteFrom(x, i + 1, start, QUOTE, acc)
    ensures acc + Sub(x, start, i + 1) == acc + Sub(x, start, i) + [c]
  {
    assert x[i + 0] == EscapeByte(c, allow)[0] == c;
    assert Sub(x, start, i + 1) == Sub(x, start, i) + [c];
  }

  lemma EscapedByte(x: Str, i: nat, c: Byte, allow: bool)
    requires At(x, i, EscapeByte(c, allow)) && |EscapeByte(c, allow)| > 1
    ensures i < |x| && x[i] == BACKSLASH && Escape(x, i) == ([c], i + |EscapeByte(c, allow)|)
  {
    var e := EscapeByte(c, allow);
    assert x[i + 0] == e[0] && x[i + 1] == e[1];
    if |e| == 4 {
      OctalByte(x, i, c, e);
    }
  }

  lemma OctalDigits(c: Byte)
    ensures c / 64 < 4 && (c / 64 * 8 + c / 8 % 8) * 8 + c % 8 == c
  {}

  lemma OctalByte(x: Str, i: nat, c: Byte, e: Str)
    requires e == [BACKSLASH, DIGIT0 + c / 64, DIGIT0 + c / 8 % 8, DIGIT0 + c % 8] && At(x, i, e)
    ensures i < |x| && x[i] == BACKSLASH && Escape(x, i) == ([c], i + 4)
  {
    assert x[i + 0] == e[0] && x[i + 1] == e[1] && x[i + 2] == e[2] && x[i + 3] == e[3];
    var a, b, d := c / 64, c / 8 % 8, c % 8;
    OctalDigits(c);
    assert Octal(x, i + 1, 0, 0) == Octal(x, i + 2, a, 1);
    assert Octal(x, i + 2, a, 1) == Octal(x, i + 3, a * 8 + b, 2);
    assert Octal(x, i + 3, a * 8 + b, 2) == Octal(x, i + 4, (a * 8 + b) * 8 + d, 3);
  }

  lemma UnquoteClose(x: Str, i: nat, start: nat, acc: Str)
    requires i + 1 == |x| && x[i] == QUOTE && 0 < start <= i
    ensures UnquoteFrom(x, i, start, QUOTE, acc) == acc + Sub(x, start, i) + []
  {
    assert UnquoteFrom(x, i, start, QUOTE, acc) == UnquoteFrom(x, i + 1, i + 1, 0, acc + Sub(x, start, i));
  }

  /** What is left to read at `i` is the rest of a quoted string. */
  ghost predicate Rest(x: Str, i: nat, s: Str, allow: bool) {
    At(x, i, EscapeAll(s, allow) + [QUOTE]) && i + |EscapeAll(s, allow)| + 1 == |x|
  }

  /** Read so far is `done`, and `r` is where reading on leads. */
  ghost predicate Read(x: Str, i: nat, start: nat, acc: Str, done: Str, r: Str) {
    0 < start <= i < |x| && done == acc + Sub(x, start, i) && r == UnquoteFrom(x, i, start, QUOTE, acc)
  }

  ghost predicate Reading(x: Str, i: nat, start: nat, acc: Str, done: Str, s: Str, r: Str, allow: bool) {
    Rest(x, i, s, allow) && Read(x, i, start, acc, done, r)
  }

  lemma RestStep(x: Str, i: nat, s: Str, allow: bool) returns (j: nat)
    requires Rest(x, i, s, allow) && s != []
    ensures Rest(x, j, s[1..], allow)
  {
    InsideStep(x, i, s, allow);
    j := i + |EscapeByte(s[0], allow)|;
  }

  lemma ReadFirst(x: Str, i: nat, start: nat, acc: Str, done: Str, s: Str, r: Str, j: nat, allow: bool)
    returns (start': nat, acc': Str)
    requires s != [] && Rest(x, i, s, allow) && Rest(x, j, s[1..], allow) && Read(x, i, start, acc, done, r)
    ensures Read(x, j, start', acc', done + [s[0]], r)
  {
    InsideStep(x, i, s, allow);
    start', acc' := UnquoteByte(x, i, start, acc, done, s[0], r, j, allow);
  }

  lemma ReadByte(x: Str, i: nat, start: nat, acc: Str, done: Str, s: Str, r: Str, allow: bool)
    returns (j: nat, start': nat, acc': Str)
    requires Reading(x, i, start, acc, done, s, r, allow) && s != []
    ensures Reading(x, j, start', acc', done + [s[0]], s[1..], r, allow)
  {
    j := RestStep(x, i, s, allow);
    start', acc' := ReadFirst(x, i, start, acc, done, s, r, j, allow);
  }

  lemma {:induction false} UnquoteInside(x: Str, i: nat, start: nat, acc: Str, done: Str, s: Str, r: Str, allow: bool)
    requires Reading(x, i, start, acc, done, s, r, allow)
    ensures r == done + s
    decreases |s|
  {
    if s == [] {
      InsideClose(x, i, allow);
      UnquoteClose(x, i, start, acc);
    } else {
      var j, start', acc' := ReadByte(x, i, start, acc, done, s, r, allow);
      UnquoteInside(x, j, start', acc', done + [s[0]], s[1..], r, allow);
      HeadAndTail(done, s);
    }
  }

  lemma HeadAndTail(done: Str, s: Str)
    requires s != []
    ensures done + [s[0]] + s[1..] == done + s
  {}

  /** A quoted string is one token, whatever follows it. */
  lemma QuotedToken(x: Str, i: nat, s: Str, allow: bool)
    requires At(x, i, Quoted(s, allow))
    ensures i < |x| && x[i] == QUOTE && TokenEnd(x, i) == i + |Quoted(s, allow)|
  {
    var q := Quoted(s, allow);
    assert q == [QUOTE] + (EscapeAll(s, allow) + [QUOTE]);
    AtSplit(x, i, [QUOTE], EscapeAll(s, allow) + [QUOTE]);
    assert x[i + 0] == q[0];
    QuotedEnd(x, i + 1, s, allow);
  }

  lemma UncommentQuoted(s: Str, allow: bool)
    ensures UncommentFrom(Quoted(s, allow), 0, false).0 == Quoted(s, allow)
  {
    var q := Quoted(s, allow);
    AtItself(q);
    QuotedToken(q, 0, s, allow);
    assert Uncomment(q, 0, 0, 0, false, [], false) == Uncomment(q, |q|, 0, |q|, false, [], false);
    assert [] + Sub(q, 0, |q|) == q;
  }

  /** `cp_unquote(cp_quote(s)) == s`, for either newline setting. */
  lemma QuoteRoundTrip(s: Str, allow: bool)
    ensures Unquote(Quoted(s, allow)) == s
  {
    var q := Quoted(s, allow);
    UncommentQuoted(s, allow);
    AtItself(q);
    assert q == [QUOTE] + (EscapeAll(s, allow) + [QUOTE]);
    AtSplit(q, 0, [QUOTE], EscapeAll(s, allow) + [QUOTE]);
    assert UnquoteFrom(q, 0, 0, 0, []) == UnquoteFrom(q, 1, 1, QUOTE, [] + Sub(q, 0, 0));
    UnquoteInside(q, 1, 1, [], [], s, UnquoteFrom(q, 1, 1, QUOTE, []), allow);
    assert [] + s == s;
  }

  // ---------------------------------------------------------------- argument lists

  /** The arguments of `s` from `pos` on. */
  function ArgvecFrom(s: Str, pos: nat): (conf: seq<Str>)
    decreases |s| - pos
  {
    if pos >= |s| then []
    else
      var (arg, p) := UncommentFrom(s, pos, true);
      (if arg != [] || p < |s| then [arg] else []) + ArgvecFrom(s, p + 1)
  }

  /** `cp_argvec` */
  method CpArgvec(s: Str, conf0: seq<Str>) returns (conf: seq<Str>)
    ensures conf == conf0 + ArgvecFrom(s, 0)
  {
    conf := conf0;
    var pos: nat := 0;
    while pos < |s|
      invariant conf + ArgvecFrom(s, pos) == conf0 + ArgvecFrom(s, 0)
      decreases |s| - pos
    {
      var arg, p := PartialUncomment(s, pos, true);
      if arg != [] || p < |s| {
        conf := conf + [arg];
      }
      pos := p + 1;
    }
  }

  /** The arguments joined with a comma and a space. */
  function Unargvec(conf: seq<Str>): (s: Str)
    ensures conf != [] ==> conf[0] <= s
  {
    if |conf| == 0 then [] else if |conf| == 1 then conf[0]
    else conf[0] + [COMMA, SPACE] + Unargvec(conf[1..])
  }

  lemma {:induction false} UnargvecSnoc(conf: seq<Str>, arg: Str)
    requires conf != []
    ensures Unargvec(conf + [arg]) == Unargvec(conf) + [COMMA, SPACE] + arg
  {
    assert (conf + [arg])[1..] == conf[1..] + [arg];
    if |conf| > 1 {
      UnargvecSnoc(conf[1..], arg);
    }
  }

  /** `cp_unargvec` */
  method CpUnargvec(conf: seq<Str>) returns (s: Str)
    ensures s == Unargvec(conf)
  {
    if |conf| == 0 {
      return [];
    }
    s := conf[0];
    for i := 1 to |conf|
      invariant s == Unargvec(conf[..i])
    {
      UnargvecSnoc(conf[..i], conf[i]);
      assert conf[..i + 1] == conf[..i] + [conf[i]];
      s := s + [COMMA, SPACE] + conf[i];
    }
    assert conf[..|conf|] == conf;
  }

  function QuotedAll(ss: seq<Str>, allow: bool): (qs: seq<Str>)
    ensures |qs| == |ss|
  {
    if ss == [] then [] else [Quoted(ss[0], allow)] + QuotedAll(ss[1..], allow)
  }

  /** A quoted argument followed by a comma or by the end is read whole. */
  lemma ReadQuoted(x: Str, i: nat, j: nat, s: Str, allow: bool)
    requires SpaceEnd(x, i) == j && At(x, j, Quoted(s, allow))
    requires var e := j + |Quoted(s, allow)|; e == |x| || x[e] == COMMA
    ensures UncommentFrom(x, i, true) == (Quoted(s, allow), j + |Quoted(s, allow)|)
  {
    var q := Quoted(s, allow);
    QuotedToken(x, j, s, allow);
    AtSub(x, j, q);
    OneToken(x, i, j, j + |q|);
  }

  lemma AtSub(x: Str, j: nat, q: Str)
    requires At(x, j, q) && q != []
    ensures Sub(x, j, j + |q|) == q
  {
    forall k | 0 <= k < |q| ensures x[j..j + |q|][k] == q[k] {
      assert x[j + k] == q[k];
    }
  }

  /** A token that begins with a double quote, up to a comma or the end. */
  lemma OneToken(x: Str, i: nat, j: nat, e: nat)
    requires SpaceEnd(x, i) == j < |x| && x[j] == QUOTE && TokenEnd(x, j) == e &&
             (e == |x| || (e < |x| && x[e] == COMMA))
    ensures UncommentFrom(x, i, true) == (Sub(x, j, e), e)
  {
    assert Uncomment(x, j, j, j, false, [], true) == Uncomment(x, e, j, e, false, [], true);
    TokenStops(x, j, e);
  }

  lemma TokenStops(x: Str, j: nat, e: nat)
    requires e == |x| || (e < |x| && x[e] == COMMA)
    ensures Uncomment(x, e, j, e, false, [], true) == (Sub(x, j, e), e)
  {
    assert [] + Sub(x, j, e) == Sub(x, j, e);
  }

  /** The joined list stands at `j` and ends with `x`. */
  ghost predicate Joined(x: Str, j: nat, ss: seq<Str>, allow: bool) {
    At(x, j, Unargvec(QuotedAll(ss, allow))) && j + |Unargvec(QuotedAll(ss, allow))| == |x|
  }

  /** Where the joined list stands at `j`, so do its first argument, the separator and the rest. */
  lemma JoinedStep(x: Str, j: nat, ss: seq<Str>, allow: bool)
    requires |ss| >= 2 && Joined(x, j, ss, allow)
    ensures var e := j + |Quoted(ss[0], allow)|;
            && At(x, j, Quoted(ss[0], allow)) && e + 2 <= |x| && x[e] == COMMA && SpaceEnd(x, e + 1) == e + 2
            && Joined(x, e + 2, ss[1..], allow)
  {
    var q, rest := Quoted(ss[0], allow), Unargvec(QuotedAll(ss[1..], allow));
    JoinedShape(ss, allow);
    StartsWithQuote(ss[1..], allow);
    JoinedParts(x, j, q, rest);
  }

  lemma JoinedParts(x: Str, j: nat, q: Str, rest: Str)
    requires At(x, j, q + ([COMMA, SPACE] + rest)) && rest != [] && rest[0] == QUOTE
    ensures var e := j + |q|;
            && At(x, j, q) && e + 2 <= |x| && x[e] == COMMA && SpaceEnd(x, e + 1) == e + 2 && At(x, e + 2, rest)
  {
    AtSplit(x, j, q, [COMMA, SPACE] + rest);
    SeparatorAt(x, j + |q|, rest);
  }

  lemma JoinedShape(ss: seq<Str>, allow: bool)
    requires |ss| >= 2
    ensures Unargvec(QuotedAll(ss, allow)) ==
              Quoted(ss[0], allow) + ([COMMA, SPACE] + Unargvec(QuotedAll(ss[1..], allow)))
  {
    var qs := QuotedAll(ss, allow);
    assert qs[0] == Quoted(ss[0], allow) && qs[1..] == QuotedAll(ss[1..], allow);
    UnargvecShape(qs);
  }

  lemma UnargvecShape(conf: seq<Str>)
    requires |conf| >= 2
    ensures Unargvec(conf) == conf[0] + ([COMMA, SPACE] + Unargvec(conf[1..]))
  {}

  lemma SeparatorAt(x: Str, e: nat, rest: Str)
    requires At(x, e, [COMMA, SPACE] + rest) && rest != [] && rest[0] == QUOTE
    ensures e + 2 <= |x| && x[e] == COMMA && SpaceEnd(x, e + 1) == e + 2 && At(x, e + 2, rest)
  {
    AtSplit(x, e, [COMMA, SPACE], rest);
    assert x[e + 0] == [COMMA, SPACE][0] && x[e + 1] == [COMMA, SPACE][1];
    assert x[e + 2 + 0] == rest[0];
  }

  lemma StartsWithQuote(ss: seq<Str>, allow: bool)
    requires ss != []
    ensures var s := Unargvec(QuotedAll(ss, allow)); s != [] && s[0] == QUOTE
  {
    var qs := QuotedAll(ss, allow);
    assert qs[0] == Quoted(ss[0], allow);
    assert Unargvec(qs)[0] == qs[0][0];
  }

  lemma ArgvecStep(x: Str, i: nat, j: nat, s: Str, allow: bool)
    requires SpaceEnd(x, i) == j && At(x, j, Quoted(s, allow))
    requires var e := j + |Quoted(s, allow)|; e == |x| || x[e] == COMMA
    ensures ArgvecFrom(x, i) == [Quoted(s, allow)] + ArgvecFrom(x, j + |Quoted(s, allow)| + 1)
  {
    ReadQuoted(x, i, j, s, allow);
  }

  lemma ArgvecLast(x: Str, i: nat, j: nat, ss: seq<Str>, allow: bool)
    requires |ss| == 1 && SpaceEnd(x, i) == j && Joined(x, j, ss, allow)
    ensures ArgvecFrom(x, i) == QuotedAll(ss, allow)
  {
    var q := Quoted(ss[0], allow);
    assert QuotedAll(ss, allow) == [q] && Unargvec([q]) == q;
    ArgvecStep(x, i, j, ss[0], allow);
    assert ArgvecFrom(x, j + |q| + 1) == [];
  }

  /** The first of several arguments is read, and the rest stands where reading goes on. */
  lemma ArgvecNext(x: Str, i: nat, j: nat, ss: seq<Str>, allow: bool) returns (i': nat, j': nat)
    requires |ss| >= 2 && SpaceEnd(x, i) == j && Joined(x, j, ss, allow)
    ensures ArgvecFrom(x, i) == [Quoted(ss[0], allow)] + ArgvecFrom(x, i')
    ensures SpaceEnd(x, i') == j' && Joined(x, j', ss[1..], allow)
  {
    var e := j + |Quoted(ss[0], allow)|;
    JoinedStep(x, j, ss, allow);
    ArgvecStep(x, i, j, ss[0], allow);
    i', j' := e + 1, e + 2;
  }

  lemma {:induction false} ArgvecJoined(x: Str, i: nat, j: nat, ss: seq<Str>, allow: bool)
    requires ss != [] && SpaceEnd(x, i) == j && Joined(x, j, ss, allow)
    ensures ArgvecFrom(x, i) == QuotedAll(ss, allow)
    decreases |ss|
  {
    if |ss| == 1 {
      ArgvecLast(x, i, j, ss, allow);
    } else {
      var i', j' := ArgvecNext(x, i, j, ss, allow);
      ArgvecJoined(x, i', j', ss[1..], allow);
    }
  }

  /** Splitting a joined list of quoted strings gives back the list. */
  lemma ArgvecRoundTrip(ss: seq<Str>, allow: bool)
    ensures ArgvecFrom(Unargvec(QuotedAll(ss, allow)), 0) == QuotedAll(ss, allow)
  {
    if ss != [] {
      var x := Unargvec(QuotedAll(ss, allow));
      AtItself(x);
      StartsWithQuote(ss, allow);
      ArgvecJoined(x, 0, 0, ss, allow);
    }
  }

  /** Quoting, joining, splitting and unquoting is the identity on lists of strings. */
  lemma {:induction false} ArgumentsRoundTrip(ss: seq<Str>, allow: bool, i: nat)
    requires i < |ss|
    ensures |ArgvecFrom(Unargvec(QuotedAll(ss, allow)), 0)| == |ss|
    ensures Unquote(ArgvecFrom(Unargvec(QuotedAll(ss, allow)), 0)[i]) == ss[i]
  {
    ArgvecRoundTrip(ss, allow);
    QuotedAllAt(ss, allow, i);
    QuoteRoundTrip(ss[i], allow);
  }

  lemma {:induction false} QuotedAllAt(ss: seq<Str>, allow: bool, i: nat)
    requires i < |ss|
    ensures QuotedAll(ss, allow)[i] == Quoted(ss[i], allow)
  {
    if i > 0 {
      QuotedAllAt(ss[1..], allow, i - 1);
    }
  }
}
