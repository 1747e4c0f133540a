/** seq_hex_dump, and reading its output back with the parsers. */
module HexDump {
  import opened Types
  import opened Kstrto

  type word = w: nat | w <= UINT_MAX

  const SPACE: byte := ' ' as int
  const NEWLINE: byte := '\n' as int
  const COLON: byte := ':' as int

  /** How seq_printf renders the two conversions: "%p:" and "%08X". */
  datatype Format = Format(heading: nat -> seq<byte>, digits: word -> seq<byte>)

  /** Pointers as sixteen lower-case digits, words as eight upper-case ones. */
  const KERNEL := Format((addr: nat) => Hex(addr, 16, false) + [COLON], (w: word) => Hex(w, 8, true))

  /** The text collected by a seq_file. */
  class SeqFile {
    var text: seq<byte>

    method Print(t: seq<byte>)
      modifies this
      ensures text == old(text) + t
    {
      text := text + t;
    }
  }

  // ---------------------------------------------------------------- what is printed

  function Tokens(fmt: Format, ws: seq<word>): seq<byte> {
    if ws == [] then [] else [SPACE] + fmt.digits(ws[0]) + Tokens(fmt, ws[1..])
  }

  /** Rows of eight words, each behind the address of its first word. */
  function Dump(fmt: Format, addr: nat, ws: seq<word>): seq<byte>
    decreases |ws|
  {
    if |ws| <= 8 then fmt.heading(addr) + Tokens(fmt, ws) + [NEWLINE]
    else fmt.heading(addr) + Tokens(fmt, ws[..8]) + [NEWLINE] + Dump(fmt, addr + 32, ws[8..])
  }

  /** What is still to be printed when the current row has room for some more of the words ws and
      the next row starts at addr. */
  function Rest(fmt: Format, addr: nat, ws: seq<word>, room: nat): seq<byte>
    requires room > 0
  {
    if |ws| <= room then Tokens(fmt, ws) + [NEWLINE]
    else Tokens(fmt, ws[..room]) + [NEWLINE] + Dump(fmt, addr, ws[room..])
  }

  lemma Associate(a: seq<byte>, b: seq<byte>, c: seq<byte>)
    ensures a + (b + c) == (a + b) + c
  {
  }

  lemma DumpRest(fmt: Format, addr: nat, ws: seq<word>)
    ensures Dump(fmt, addr, ws) == fmt.heading(addr) + Rest(fmt, addr + 32, ws, 8)
  {
    var row := if |ws| <= 8 then ws else ws[..8];
    Associate(fmt.heading(addr), Tokens(fmt, row), [NEWLINE]);
    if |ws| > 8 {
      Associate(fmt.heading(addr), Tokens(fmt, row) + [NEWLINE], Dump(fmt, addr + 32, ws[8..]));
    }
  }

  /** Printing one word: as the last, into a row's last cell, or into a row with more room. */
  lemma RestStep(fmt: Format, addr: nat, ws: seq<word>, room: nat)
    requires room > 0 && ws != []
    ensures Rest(fmt, addr, ws, room) == [SPACE] + fmt.digits(ws[0]) + RestAfter(fmt, addr, ws, room)
  {
    var t := [SPACE] + fmt.digits(ws[0]);
    if |ws| <= room {
      Associate(t, Tokens(fmt, ws[1..]), [NEWLINE]);
      if |ws| == 1 { assert Tokens(fmt, ws[1..]) + [NEWLINE] == [NEWLINE]; }
    } else {
      var row := ws[..room];
      assert row[0] == ws[0] && row[1..] == ws[1..][..room - 1] && ws[room..] == ws[1..][room - 1..];
      var u, d := Tokens(fmt, row[1..]), Dump(fmt, addr, ws[room..]);
      Associate(t, u, [NEWLINE]);
      Associate(t, u + [NEWLINE], d);
      if room == 1 { assert u + [NEWLINE] == [NEWLINE]; }
    }
  }

  /** What follows the next word. */
  function RestAfter(fmt: Format, addr: nat, ws: seq<word>, room: nat): seq<byte>
    requires room > 0 && ws != []
  {
    if |ws| == 1 then [NEWLINE]
    else if room == 1 then [NEWLINE] + Dump(fmt, addr, ws[1..])
    else Rest(fmt, addr, ws[1..], room - 1)
  }

  /** What is printed and what is still to come make up the whole dump. */
  ghost predicate Owes(fmt: Format, text: seq<byte>, next: nat, ws: seq<word>, room: nat, goal: seq<byte>) {
    room > 0 && text + Rest(fmt, next, ws, room) == goal
  }

  /** Prints the first len / 4 words of a buffer at address addr. */
  method SeqHexDump(fmt: Format, out: SeqFile, addr: nat, msg: seq<word>, len: nat)
    requires len / 4 <= |msg|
    modifies out
    ensures out.text == old(out.text) + Dump(fmt, addr, msg[..len / 4])
  {
    hide Dump, Tokens;
    var n := len / 4;
    ghost var next: nat, room: nat := addr + 32, 8;
    ghost var goal := out.text + Dump(fmt, addr, msg[..n]);
    DumpRest(fmt, addr, msg[..n]);
    Associate(out.text, fmt.heading(addr), Rest(fmt, next, msg[..n], room));
    out.Print(fmt.heading(addr));
    var x, i := 0, 0;
    while i < n
      invariant 0 <= i <= n && 0 < room <= 8
      invariant i < n ==> room == 8 - x && next == addr + 4 * (i - x) + 32
      invariant Owes(fmt, out.text, next, msg[i..n], room, goal)
    {
      PrintStep(fmt, out.text, next, msg[i..n], room, goal);
      assert msg[i..n][0] == msg[i] && msg[i..n][1..] == msg[i + 1..n];
      out.Print([SPACE] + fmt.digits(msg[i]));
      if n != i + 1 {
        x := x + 1;
        room := room - 1;
        if x == 8 {
          out.Print([NEWLINE] + fmt.heading(addr + 4 * (i + 1)));
          x := 0;
          next, room := next + 32, 8;
        }
      }
      i := i + 1;
    }
    assert msg[n..n] == [];
    RestOfNothing(fmt, next, room);
    out.Print([NEWLINE]);
  }

  /** One round of the loop, on the text printed so far and the words still to be printed. */
  lemma PrintStep(fmt: Format, text: seq<byte>, next: nat, ws: seq<word>, room: nat, goal: seq<byte>)
    requires ws != [] && Owes(fmt, text, next, ws, room, goal)
    ensures var text' := text + ([SPACE] + fmt.digits(ws[0]));
            && (|ws| == 1 ==> Owes(fmt, text', next, ws[1..], room, goal))
            && (|ws| > 1 && room > 1 ==> Owes(fmt, text', next, ws[1..], room - 1, goal))
            && (|ws| > 1 && room == 1 ==>
                  Owes(fmt, text' + ([NEWLINE] + fmt.heading(next)), next + 32, ws[1..], 8, goal))
  {
    RestStep(fmt, next, ws, room);
    var t := [SPACE] + fmt.digits(ws[0]);
    Associate(text, t, RestAfter(fmt, next, ws, room));
    if |ws| > 1 && room == 1 {
      var r := Rest(fmt, next + 32, ws[1..], 8);
      DumpRest(fmt, next, ws[1..]);
      Associate([NEWLINE], fmt.heading(next), r);
      Associate(text + t, [NEWLINE] + fmt.heading(next), r);
    }
  }

  // ---------------------------------------------------------------- reading it back

  predicate Separator(c: byte) {
    c == ' ' as int || c == '\n' as int
  }

  predicate Plain(f: seq<byte>) {
    forall i :: 0 <= i < |f| ==> !Separator(f[i])
  }

  ghost predicate PlainFormat(fmt: Format) {
    (forall a: nat :: Plain(fmt.heading(a))) && (forall w: word :: Plain(fmt.digits(w)))
  }

  /** The fields of a text: what stands before each space or newline. */
  function Fields(text: seq<byte>, field: seq<byte> := []): seq<seq<byte>> {
    if text == [] then []
    else if Separator(text[0]) then [field] + Fields(text[1..])
    else Fields(text[1..], field + [text[0]])
  }

  lemma {:induction false} FieldsFirst(f: seq<byte>, g: seq<byte>, c: byte, rest: seq<byte>)
    requires Plain(g) && Separator(c)
    ensures Fields(g + ([c] + rest), f) == [f + g] + Fields(rest)
    decreases |g|
  {
    var t := g + ([c] + rest);
    if g == [] {
      assert t == [c] + rest && t[1..] == rest && f + g == f;
    } else {
      assert t[0] == g[0] && t[1..] == g[1..] + ([c] + rest);
      FieldsFirst(f + [g[0]], g[1..], c, rest);
      assert (f + [g[0]]) + g[1..] == f + g;
    }
  }

  /** A field and a separator in front of a text. */
  lemma FieldsCons(f: seq<byte>, c: byte, rest: seq<byte>)
    requires Plain(f) && Separator(c)
    ensures Fields(f + ([c] + rest)) == [f] + Fields(rest)
  {
    FieldsFirst([], f, c, rest);
    assert [] + f == f;
  }

  /** The fields that follow when the words ws are still to be printed. */
  function FieldList(fmt: Format, addr: nat, ws: seq<word>, room: nat): seq<seq<byte>>
    requires room > 0
    decreases |ws|
  {
    if ws == [] then []
    else if |ws| > 1 && room == 1 then [fmt.digits(ws[0]), fmt.heading(addr)] + FieldList(fmt, addr + 32, ws[1..], 8)
    else if room == 1 then [fmt.digits(ws[0])]
    else [fmt.digits(ws[0])] + FieldList(fmt, addr, ws[1..], room - 1)
  }

  lemma RestOfNothing(fmt: Format, addr: nat, room: nat)
    requires room > 0
    ensures Rest(fmt, addr, [], room) == [NEWLINE] + []
  {
  }

  lemma {:induction false} FieldsOfRest(fmt: Format, f: seq<byte>, addr: nat, ws: seq<word>, room: nat)
    requires room > 0 && PlainFormat(fmt) && Plain(f)
    ensures Fields(f + Rest(fmt, addr, ws, room)) == [f] + FieldList(fmt, addr, ws, room)
    decreases |ws|
  {
    hide Dump, Tokens, Plain;
    if ws == [] {
      hide Rest;
      RestOfNothing(fmt, addr, room);
      FieldsCons(f, NEWLINE, []);
    } else {
      hide Rest, Fields;
      var h, after := fmt.digits(ws[0]), RestAfter(fmt, addr, ws, room);
      RestStep(fmt, addr, ws, room);
      Associate([SPACE], h, after);
      FieldsCons(f, SPACE, h + after);
      if |ws| == 1 {
        assert after == [NEWLINE] + [] && ws[1..] == [];
        FieldsCons(h, NEWLINE, []);
      } else if room == 1 {
        DumpRest(fmt, addr, ws[1..]);
        FieldsCons(h, NEWLINE, Dump(fmt, addr, ws[1..]));
        FieldsOfRest(fmt, fmt.heading(addr), addr + 32, ws[1..], 8);
      } else {
        FieldsOfRest(fmt, h, addr, ws[1..], room - 1);
      }
    }
  }

  function Rows(n: nat): nat {
    if n == 0 then 1 else (n + 7) / 8
  }

  lemma {:induction false} FieldListSize(fmt: Format, addr: nat, ws: seq<word>, room: nat)
    requires 0 < room <= 8
    ensures |FieldList(fmt, addr, ws, room)| == |ws| + Rows(|ws| + 8 - room) - 1
    decreases |ws|
  {
    if ws != [] {
      if |ws| > 1 && room == 1 {
        FieldListSize(fmt, addr + 32, ws[1..], 8);
      } else if room > 1 {
        FieldListSize(fmt, addr, ws[1..], room - 1);
      }
    }
  }

  /** Where word i stands, counting from a row with room for some more words. */
  lemma {:induction false} WordAt(fmt: Format, addr: nat, ws: seq<word>, room: nat, i: nat)
    requires 0 < room <= 8 && i < |ws|
    ensures var k := i + (i + 8 - room) / 8;
            k < |FieldList(fmt, addr, ws, room)| && FieldList(fmt, addr, ws, room)[k] == fmt.digits(ws[i])
    decreases |ws|
  {
    FieldListSize(fmt, addr, ws, room);
    if i > 0 {
      assert ws[i] == ws[1..][i - 1];
      if room == 1 {
        WordAt(fmt, addr + 32, ws[1..], 8, i - 1);
        assert FieldList(fmt, addr, ws, room)[2..] == FieldList(fmt, addr + 32, ws[1..], 8);
        assert (i + 7) / 8 == (i - 1) / 8 + 1;
      } else {
        WordAt(fmt, addr, ws[1..], room - 1, i - 1);
      }
    }
  }

  /** Where the label of the j-th following row stands. */
  lemma {:induction false} LabelAt(fmt: Format, addr: nat, ws: seq<word>, room: nat, j: nat)
    requires 0 < room <= 8 && j + 1 < Rows(|ws| + 8 - room)
    ensures var k := 9 * j + room;
            k < |FieldList(fmt, addr, ws, room)| && FieldList(fmt, addr, ws, room)[k] == fmt.heading(addr + 32 * j)
    decreases |ws|
  {
    FieldListSize(fmt, addr, ws, room);
    var fs := FieldList(fmt, addr, ws, room);
    if room > 1 {
      var rest := FieldList(fmt, addr, ws[1..], room - 1);
      assert fs == [fmt.digits(ws[0])] + rest;
      hide FieldList;
      LabelAt(fmt, addr, ws[1..], room - 1, j);
    } else {
      var rest := FieldList(fmt, addr + 32, ws[1..], 8);
      assert fs == [fmt.digits(ws[0]), fmt.heading(addr)] + rest;
      hide FieldList;
      if j > 0 {
        LabelAt(fmt, addr + 32, ws[1..], 8, j - 1);
      }
    }
  }

  /** Field positions in a dump of n words: word i stands behind i words and i / 8 + 1 labels. */
  function WordField(i: nat): nat {
    i + i / 8 + 1
  }

  /** The fields of a dump are its labels and words, row j starting at field 9 j. */
  lemma DumpFields(fmt: Format, addr: nat, ws: seq<word>)
    requires PlainFormat(fmt)
    ensures var fs := Fields(Dump(fmt, addr, ws));
            && |fs| == |ws| + Rows(|ws|)
            && (forall i :: 0 <= i < |ws| ==> fs[WordField(i)] == fmt.digits(ws[i]))
            && (forall j :: 0 <= j < Rows(|ws|) ==> fs[9 * j] == fmt.heading(addr + 32 * j))
  {
    assert Plain(fmt.heading(addr));
    hide Fields, Dump, FieldList, Rest, PlainFormat, Plain;
    var fs, gs := Fields(Dump(fmt, addr, ws)), FieldList(fmt, addr + 32, ws, 8);
    DumpRest(fmt, addr, ws);
    FieldsOfRest(fmt, fmt.heading(addr), addr + 32, ws, 8);
    FieldListSize(fmt, addr + 32, ws, 8);
    assert fs == [fmt.heading(addr)] + gs;
    forall i | 0 <= i < |ws|
      ensures fs[WordField(i)] == fmt.digits(ws[i])
    {
      WordAt(fmt, addr + 32, ws, 8, i);
    }
    forall j | 0 <= j < Rows(|ws|)
      ensures fs[9 * j] == fmt.heading(addr + 32 * j)
    {
      if j > 0 { LabelAt(fmt, addr + 32, ws, 8, j - 1); }
    }
  }

  /** What a reader gets from a field that holds a word, and from one that holds a label. */
  function ReadWord(field: CString): Result {
    Narrow(ParseSigned(field, 16), UINT_MAX)
  }

  function ReadLabel(field: CString): Result {
    if |field| == 17 && field[16] == ':' as int then ParseSigned(field[..16], 16) else Err(-EINVAL)
  }

  /** So many hexadecimal digits, the letters all in one case. */
  predicate Printed(field: seq<byte>, n: nat, upper: bool) {
    |field| == n && forall i :: 0 <= i < n ==> InCase(field[i], upper)
  }

  lemma HexPlain(v: nat, n: nat, upper: bool)
    ensures Plain(Hex(v, n, upper))
  {
    forall i | 0 <= i < n
      ensures !Separator(Hex(v, n, upper)[i])
    {
      assert IsXDigit(Hex(v, n, upper)[i]);
    }
  }

  lemma KernelPlain()
    ensures PlainFormat(KERNEL)
  {
    forall a: nat
      ensures Plain(KERNEL.heading(a))
    {
      HexPlain(a, 16, false);
    }
    forall w: word
      ensures Plain(KERNEL.digits(w))
    {
      HexPlain(w, 8, true);
    }
  }

  lemma ReadWordBack(w: word)
    ensures NoNul(KERNEL.digits(w)) && ReadWord(KERNEL.digits(w)) == Ok(w) && Printed(KERNEL.digits(w), 8, true)
  {
    assert Pow16(8) == UINT_MAX + 1 by { assert Pow16(4) == 0x1_0000; }
    ParseHex(w, 8, true);
  }

  lemma Pow16Sixteen()
    ensures Pow16(16) == ULLONG_MAX + 1
  {
    assert Pow16(4) == 0x1_0000;
    assert Pow16(8) == 0x1_0000_0000;
    assert Pow16(12) == 0x1_0000_0000_0000;
  }

  lemma ReadLabelBack(addr: nat)
    requires addr <= ULLONG_MAX
    ensures NoNul(KERNEL.heading(addr)) && ReadLabel(KERNEL.heading(addr)) == Ok(addr)
    ensures |KERNEL.heading(addr)| == 17 && Printed(KERNEL.heading(addr)[..16], 16, false)
  {
    var h := Hex(addr, 16, false);
    Pow16Sixteen();
    ParseHex(addr, 16, false);
    assert (h + [COLON])[..16] == h;
  }

  /** Printing and parsing are inverse: the parsers return every word of the buffer, in order, and
      the address of every row. Words are eight digits and capitals, addresses sixteen digits and small letters. */
  lemma RoundTrip(addr: nat, ws: seq<word>)
    requires addr + 4 * |ws| <= ULLONG_MAX + 1 && addr <= ULLONG_MAX
    ensures var fs := Fields(Dump(KERNEL, addr, ws));
            && |fs| == |ws| + Rows(|ws|)
            && (forall i :: 0 <= i < |ws| ==> NoNul(fs[WordField(i)]) && ReadWord(fs[WordField(i)]) == Ok(ws[i]))
            && (forall j :: 0 <= j < Rows(|ws|) ==> NoNul(fs[9 * j]) && ReadLabel(fs[9 * j]) == Ok(addr + 32 * j))
            && (forall i :: 0 <= i < |ws| ==> Printed(fs[WordField(i)], 8, true))
            && (forall j :: 0 <= j < Rows(|ws|) ==> |fs[9 * j]| == 17 && Printed(fs[9 * j][..16], 16, false))
  {
    hide Fields, Dump, PlainFormat, NoNul, ReadWord, ReadLabel, Hex, Printed;
    var fs := Fields(Dump(KERNEL, addr, ws));
    KernelPlain();
    DumpFields(KERNEL, addr, ws);
    forall i | 0 <= i < |ws|
      ensures NoNul(fs[WordField(i)]) && ReadWord(fs[WordField(i)]) == Ok(ws[i]) && Printed(fs[WordField(i)], 8, true)
    {
      ReadWordBack(ws[i]);
    }
    forall j | 0 <= j < Rows(|ws|)
      ensures NoNul(fs[9 * j]) && ReadLabel(fs[9 * j]) == Ok(addr + 32 * j)
      ensures |fs[9 * j]| == 17 && Printed(fs[9 * j][..16], 16, false)
    {
      ReadLabelBack(addr + 32 * j);
    }
  }

  // ---------------------------------------------------------------- lines

  /** The lines of a text: what stands before each newline. */
  function Lines(text: seq<byte>, line: seq<byte> := []): seq<seq<byte>> {
    if text == [] then []
    else if text[0] == '\n' as int then [line] + Lines(text[1..])
    else Lines(text[1..], line + [text[0]])
  }

  lemma {:induction false} LinesFirst(f: seq<byte>, g: seq<byte>, rest: seq<byte>)
    requires NEWLINE !in g
    ensures Lines(g + ([NEWLINE] + rest), f) == [f + g] + Lines(rest)
    decreases |g|
  {
    var t := g + ([NEWLINE] + rest);
    if g == [] {
      assert t == [NEWLINE] + rest && t[1..] == rest && f + g == f;
    } else {
      assert t[0] == g[0] && t[0] in g && t[1..] == g[1..] + ([NEWLINE] + rest);
      LinesFirst(f + [g[0]], g[1..], rest);
      assert (f + [g[0]]) + g[1..] == f + g;
    }
  }

  lemma {:induction false} TokensOneLine(fmt: Format, ws: seq<word>)
    requires PlainFormat(fmt)
    ensures NEWLINE !in Tokens(fmt, ws)
  {
    if ws != [] {
      assert Plain(fmt.digits(ws[0]));
      TokensOneLine(fmt, ws[1..]);
    }
  }

  /** The words of row j. */
  function Row(ws: seq<word>, j: nat): seq<word>
    requires j < Rows(|ws|)
  {
    if 8 * j + 8 <= |ws| then ws[8 * j..8 * j + 8] else ws[8 * j..]
  }

  lemma FirstLine(fmt: Format, addr: nat, row: seq<word>, rest: seq<byte>)
    requires PlainFormat(fmt)
    ensures Lines(fmt.heading(addr) + Tokens(fmt, row) + [NEWLINE] + rest) ==
            [fmt.heading(addr) + Tokens(fmt, row)] + Lines(rest)
  {
    var line := fmt.heading(addr) + Tokens(fmt, row);
    assert Plain(fmt.heading(addr));
    TokensOneLine(fmt, row);
    LinesFirst([], line, rest);
    assert [] + line == line;
    Associate(line, [NEWLINE], rest);
  }

  lemma DumpLine(fmt: Format, addr: nat, ws: seq<word>)
    requires PlainFormat(fmt)
    ensures |ws| > 8 ==> |Row(ws, 0)| == 8
    ensures Lines(Dump(fmt, addr, ws)) ==
            [fmt.heading(addr) + Tokens(fmt, Row(ws, 0))] +
            if |ws| <= 8 then [] else Lines(Dump(fmt, addr + 32, ws[8..]))
  {
    hide Lines, Tokens, PlainFormat;
    if |ws| <= 8 {
      FirstLine(fmt, addr, ws, []);
      assert Dump(fmt, addr, ws) + [] == Dump(fmt, addr, ws);
      assert Row(ws, 0) == ws;
      NoLines();
    } else {
      FirstLine(fmt, addr, ws[..8], Dump(fmt, addr + 32, ws[8..]));
      assert Row(ws, 0) == ws[..8];
    }
  }

  lemma NoLines()
    ensures Lines([]) == []
  {
  }

  lemma RowShift(ws: seq<word>, j: nat)
    requires |ws| > 8 && 0 < j < Rows(|ws|)
    ensures Rows(|ws|) == Rows(|ws| - 8) + 1 && Row(ws, j) == Row(ws[8..], j - 1)
  {
  }

  /**
   * Line by line: one line for an empty buffer, otherwise one for every eight words begun; line j holds label j and
   * words 8 j to 8 j + 7, and every line but the last is full.
   */
  lemma {:induction false} DumpLines(fmt: Format, addr: nat, ws: seq<word>)
    requires PlainFormat(fmt)
    ensures var ls := Lines(Dump(fmt, addr, ws));
            && |ls| == Rows(|ws|)
            && (forall j :: 0 <= j < |ls| ==> ls[j] == fmt.heading(addr + 32 * j) + Tokens(fmt, Row(ws, j)))
            && (forall j :: 0 <= j < |ls| - 1 ==> |Row(ws, j)| == 8)
    decreases |ws|
  {
    hide Lines, Dump, Tokens, PlainFormat;
    var ls := Lines(Dump(fmt, addr, ws));
    DumpLine(fmt, addr, ws);
    if |ws| > 8 {
      DumpLines(fmt, addr + 32, ws[8..]);
      var rest := Lines(Dump(fmt, addr + 32, ws[8..]));
      RowShift(ws, 1);
      hide Rows, Row;
      forall j | 0 < j < |ls|
        ensures ls[j] == fmt.heading(addr + 32 * j) + Tokens(fmt, Row(ws, j))
        ensures j < |ls| - 1 ==> |Row(ws, j)| == 8
      {
        RowShift(ws, j);
        assert ls[j] == rest[j - 1];
      }
    }
  }
}
