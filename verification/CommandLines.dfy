/**
 The language of command lines (shell/command.c), written down the other way round: how words
 are written, what they then mean, and that the shell's parser accepts exactly the lines that
 are so written, and reads them with that meaning.
 */
module CommandLines {
  import opened Tokens

  // --- Words ----------------------------------------------------------------------------

  /** A character inside double quotes: as it is, or behind a backslash. */
  datatype Inner = Bare(ch: char) | Slashed(ch: char)

  /** A part of a word. */
  datatype Piece =
    | Plain(ch: char)
    | Escaped(ch: char)
    | Single(text: string)
    | Double(chars: seq<Inner>)

  /** A word, and whether a backslash stands at its end with nothing behind it. */
  datatype Word = Word(pieces: seq<Piece>, stray: bool)

  predicate GoodInner(c: Inner) { c.Bare? ==> c.ch != '"' && c.ch != '\\' }

  predicate GoodPiece(p: Piece)
  {
    match p
    case Plain(ch) => !IsSpace(ch) && !IsQuote(ch) && ch != '\\'
    case Escaped(_) => true
    case Single(text) => '\'' !in text
    case Double(chars) => forall k :: 0 <= k < |chars| ==> GoodInner(chars[k])
  }

  predicate GoodPieces(ps: seq<Piece>) { forall k :: 0 <= k < |ps| ==> GoodPiece(ps[k]) }

  /** A word is not empty, and does not start like a comment. */
  predicate GoodWord(w: Word)
  {
    && GoodPieces(w.pieces) && (w.pieces != [] || w.stray)
    && (w.pieces != [] ==> w.pieces[0] != Plain('#'))
  }

  // --- How words are written ----------------------------------------------------------------

  function WriteInner(c: Inner): string { if c.Bare? then [c.ch] else ['\\', c.ch] }

  function WriteInners(cs: seq<Inner>): string
  {
    if cs == [] then "" else WriteInner(cs[0]) + WriteInners(cs[1..])
  }

  function WritePiece(p: Piece): string
  {
    match p
    case Plain(ch) => [ch]
    case Escaped(ch) => ['\\', ch]
    case Single(text) => "'" + text + "'"
    case Double(chars) => "\"" + WriteInners(chars) + "\""
  }

  function WritePieces(ps: seq<Piece>): string
  {
    if ps == [] then "" else WritePiece(ps[0]) + WritePieces(ps[1..])
  }

  function Write(w: Word): string { WritePieces(w.pieces) + if w.stray then "\\" else "" }

  // --- What they mean -------------------------------------------------------------------------

  function MeanInners(cs: seq<Inner>): string
  {
    if cs == [] then "" else [cs[0].ch] + MeanInners(cs[1..])
  }

  function MeanPiece(p: Piece): string
  {
    match p
    case Plain(ch) => [ch]
    case Escaped(ch) => [ch]
    case Single(text) => text
    case Double(chars) => MeanInners(chars)
  }

  function MeanPieces(ps: seq<Piece>): string
  {
    if ps == [] then "" else MeanPiece(ps[0]) + MeanPieces(ps[1..])
  }

  function Mean(w: Word): string { MeanPieces(w.pieces) + if w.stray then "\\" else "" }

  function MeanAll(ws: seq<Word>): seq<string> { seq(|ws|, k requires 0 <= k < |ws| => Mean(ws[k])) }

  // --- Scanning a word ------------------------------------------------------------------------

  lemma EmitNothing(scan: Scan)
    ensures Emit("", 0, scan) == scan
  {
    assert "" + scan.text == scan.text;
  }

  lemma ScanClosing(mark: char, rest: string)
    requires IsQuote(mark)
    ensures ScanArg([mark] + rest, Quoted(mark)) == Emit("", 1, ScanArg(rest, Unquoted))
    ensures ScanArg([mark] + rest, Unquoted) == Emit("", 1, ScanArg(rest, Quoted(mark)))
  {
    hide Emit;
    var s := [mark] + rest;
    assert s[0] == mark && s[1..] == rest;
  }

  lemma ScanInSingle(ch: char, rest: string)
    requires ch != '\''
    ensures ScanArg([ch] + rest, Quoted('\'')) == Emit([ch], 1, ScanArg(rest, Quoted('\'')))
  {
    hide Emit;
    var s := [ch] + rest;
    assert s[0] == ch && s[1..] == rest;
  }

  lemma {:induction false} ScanSingle(text: string, rest: string)
    requires '\'' !in text
    ensures ScanArg(text + "'" + rest, Quoted('\'')) == Emit(text, |text| + 1, ScanArg(rest, Unquoted))
  {
    hide ScanArg;
    hide Emit;
    if text == [] {
      assert text + "'" + rest == "'" + rest;
      ScanClosing('\'', rest);
    } else {
      var s' := text[1..] + "'" + rest;
      assert text + "'" + rest == [text[0]] + s';
      ScanInSingle(text[0], s');
      ScanSingle(text[1..], rest);
      EmitTwice([text[0]], 1, text[1..], |text[1..]| + 1, ScanArg(rest, Unquoted));
      assert [text[0]] + text[1..] == text;
    }
  }

  lemma ScanInDouble(c: Inner, rest: string)
    requires GoodInner(c)
    ensures ScanArg(WriteInner(c) + rest, Quoted('"')) ==
            Emit([c.ch], |WriteInner(c)|, ScanArg(rest, Quoted('"')))
  {
    hide Emit;
    var s := WriteInner(c) + rest;
    assert s[|WriteInner(c)|..] == rest;
  }

  lemma {:induction false} ScanDouble(cs: seq<Inner>, rest: string)
    requires forall k :: 0 <= k < |cs| ==> GoodInner(cs[k])
    ensures ScanArg(WriteInners(cs) + "\"" + rest, Quoted('"')) ==
            Emit(MeanInners(cs), |WriteInners(cs)| + 1, ScanArg(rest, Unquoted))
  {
    hide ScanArg;
    hide Emit;
    hide WriteInner;
    if cs == [] {
      assert WriteInners(cs) + "\"" + rest == "\"" + rest;
      ScanClosing('"', rest);
    } else {
      var s' := WriteInners(cs[1..]) + "\"" + rest;
      assert WriteInners(cs) + "\"" + rest == WriteInner(cs[0]) + s';
      ScanInDouble(cs[0], s');
      ScanDouble(cs[1..], rest);
      EmitTwice([cs[0].ch], |WriteInner(cs[0])|, MeanInners(cs[1..]), |WriteInners(cs[1..])| + 1,
                ScanArg(rest, Unquoted));
    }
  }

  lemma ScanPlain(ch: char, rest: string)
    requires !IsSpace(ch) && !IsQuote(ch) && ch != '\\'
    ensures ScanArg([ch] + rest, Unquoted) == Emit([ch], 1, ScanArg(rest, Unquoted))
  {
    hide Emit;
    var s := [ch] + rest;
    assert s[0] == ch && s[1..] == rest;
  }

  lemma ScanEscape(ch: char, rest: string)
    ensures ScanArg(['\\', ch] + rest, Unquoted) == Emit([ch], 2, ScanArg(rest, Unquoted))
  {
    hide Emit;
    var s := ['\\', ch] + rest;
    assert s[0] == '\\' && s[1] == ch && s[2..] == rest;
  }

  lemma ScanPiece(p: Piece, rest: string)
    requires GoodPiece(p)
    ensures ScanArg(WritePiece(p) + rest, Unquoted) ==
            Emit(MeanPiece(p), |WritePiece(p)|, ScanArg(rest, Unquoted))
  {
    hide ScanArg;
    hide Emit;
    match p
    case Plain(ch) => ScanPlain(ch, rest);
    case Escaped(ch) => ScanEscape(ch, rest);
    case Single(text) => ScanQuoted('\'', text, text, rest) by { ScanSingle(text, rest); }
    case Double(chars) => ScanQuoted('"', WriteInners(chars), MeanInners(chars), rest) by { ScanDouble(chars, rest); }
  }

  /** The opening mark in front of what is scanned inside the quotes. */
  lemma ScanQuoted(mark: char, inside: string, text: string, rest: string)
    requires IsQuote(mark)
    requires ScanArg(inside + [mark] + rest, Quoted(mark)) == Emit(text, |inside| + 1, ScanArg(rest, Unquoted))
    ensures ScanArg([mark] + inside + [mark] + rest, Unquoted) == Emit(text, |inside| + 2, ScanArg(rest, Unquoted))
  {
    hide ScanArg;
    hide Emit;
    assert [mark] + inside + [mark] + rest == [mark] + (inside + [mark] + rest);
    ScanClosing(mark, inside + [mark] + rest);
    EmitTwice("", 1, text, |inside| + 1, ScanArg(rest, Unquoted));
    assert "" + text == text;
  }

  lemma {:induction false} ScanPieces(ps: seq<Piece>, rest: string)
    requires GoodPieces(ps)
    ensures ScanArg(WritePieces(ps) + rest, Unquoted) ==
            Emit(MeanPieces(ps), |WritePieces(ps)|, ScanArg(rest, Unquoted))
  {
    hide ScanArg;
    hide Emit;
    hide WritePiece;
    hide MeanPiece;
    if ps == [] {
      assert WritePieces(ps) + rest == rest;
      EmitNothing(ScanArg(rest, Unquoted));
    } else {
      var s' := WritePieces(ps[1..]) + rest;
      assert WritePieces(ps) + rest == WritePiece(ps[0]) + s';
      ScanPiece(ps[0], s');
      ScanPieces(ps[1..], rest);
      EmitTwice(MeanPiece(ps[0]), |WritePiece(ps[0])|, MeanPieces(ps[1..]), |WritePieces(ps[1..])|,
                ScanArg(rest, Unquoted));
    }
  }

  lemma ScanEnd(rest: string)
    requires rest == "" || IsSpace(rest[0])
    ensures ScanArg(rest, Unquoted) == Scan("", if rest == "" then 0 else 1, false)
  {
  }

  lemma ScanStray()
    ensures ScanArg("\\", Unquoted) == Scan("\\", 1, false)
  {
    assert "\\"[1..] == "";
    assert "\\" + "" == "\\";
  }

  /** A word, and the blank behind it if there is one, is scanned with its meaning. */
  lemma ScanWord(w: Word, rest: string)
    requires GoodWord(w) && (rest == "" || (IsSpace(rest[0]) && !w.stray))
    ensures ScanArg(Write(w) + rest, Unquoted) ==
            Scan(Mean(w), |Write(w)| + (if rest == "" then 0 else 1), false)
  {
    hide ScanArg;
    hide WritePieces;
    hide MeanPieces;
    var after := (if w.stray then "\\" else "") + rest;
    assert Write(w) + rest == WritePieces(w.pieces) + after;
    ScanPieces(w.pieces, after);
    if w.stray {
      assert after == "\\";
      ScanStray();
    } else {
      assert after == rest;
      ScanEnd(rest);
    }
  }

  // --- Lines ------------------------------------------------------------------------------------

  predicate Blank(s: string) { forall k :: 0 <= k < |s| ==> IsSpace(s[k]) }

  /** The blanks behind a word; there are some if more follows, and none behind a stray backslash. */
  predicate GoodGap(w: Word, gap: string, more: bool)
  {
    GoodWord(w) && Blank(gap) && (more ==> gap != "") && (w.stray ==> gap == "")
  }

  predicate GoodLine(ws: seq<Word>, gaps: seq<string>, comment: string)
  {
    && |gaps| == |ws| && (comment != "" ==> comment[0] == '#')
    && forall k :: 0 <= k < |ws| ==> GoodGap(ws[k], gaps[k], k + 1 < |ws| || comment != "")
  }

  function WriteLine(ws: seq<Word>, gaps: seq<string>): string
    requires |gaps| == |ws|
  {
    if ws == [] then "" else Write(ws[0]) + gaps[0] + WriteLine(ws[1..], gaps[1..])
  }

  /** The line is written so: blanks, words with their gaps, and a comment. */
  predicate IsLine(s: string, lead: string, ws: seq<Word>, gaps: seq<string>, comment: string)
  {
    Blank(lead) && GoodLine(ws, gaps, comment) && s == lead + WriteLine(ws, gaps) + comment
  }

  lemma {:induction false} SkipBlanks(b: string, s: string)
    requires Blank(b)
    ensures SkipSpaces(b + s) == |b| + SkipSpaces(s)
  {
    if b == [] {
      assert b + s == s;
    } else {
      assert (b + s)[1..] == b[1..] + s;
      SkipBlanks(b[1..], s);
    }
  }

  /** What Parse does with the line `t` that is left after the blanks. */
  lemma ParseAfterBlanks(s: string, t: string, room: nat)
    requires t == s[SkipSpaces(s)..]
    ensures t == "" || t[0] == '#' ==> Parse(s, room) == Args([])
    ensures t != "" && t[0] != '#' ==>
              var scan := ScanArg(t, Unquoted);
              Parse(s, room) ==
                if room == 0 then TooMany else if scan.open then Unterminated
                else Cons(scan.text, Parse(t[scan.used..], room - 1))
  {
    hide SkipSpaces;
    hide ScanArg;
    hide Cons;
  }

  /** Blanks in front do not matter. */
  lemma LeadingBlanks(b: string, s: string, room: nat)
    requires Blank(b)
    ensures Parse(b + s, room) == Parse(s, room)
  {
    hide SkipSpaces;
    hide ScanArg;
    hide Parse;
    SkipBlanks(b, s);
    var t := s[SkipSpaces(s)..];
    assert (b + s)[|b| + SkipSpaces(s)..] == t;
    ParseAfterBlanks(s, t, room);
    ParseAfterBlanks(b + s, t, room);
  }

  lemma WordStart(w: Word)
    requires GoodWord(w)
    ensures Write(w) != "" && !IsSpace(Write(w)[0]) && Write(w)[0] != '#'
  {
    if w.pieces != [] {
      assert GoodPiece(w.pieces[0]);
      assert WritePieces(w.pieces)[0] == WritePiece(w.pieces[0])[0];
    }
  }

  lemma ParseWord(w: Word, rest: string, room: nat)
    requires GoodWord(w) && (rest == "" || (IsSpace(rest[0]) && !w.stray))
    ensures Parse(Write(w) + rest, room) ==
            if room == 0 then TooMany else Cons(Mean(w), Parse(if rest == "" then "" else rest[1..], room - 1))
  {
    hide ScanArg;
    hide Write;
    hide Mean;
    hide GoodWord;
    hide Parse;
    var s := Write(w) + rest;
    WordStart(w);
    ScanWord(w, rest);
    assert s[0] == Write(w)[0];
    assert SkipSpaces(s) == 0 && s[0..] == s;
    ParseAfterBlanks(s, s, room);
    var used := |Write(w)| + (if rest == "" then 0 else 1);
    assert s[used..] == if rest == "" then "" else rest[1..];
  }

  lemma ParseComment(comment: string, room: nat)
    requires comment != "" ==> comment[0] == '#'
    ensures Parse(comment, room) == Args([])
  {
    hide Parse;
    assert SkipSpaces(comment) == 0 && comment[0..] == comment;
    ParseAfterBlanks(comment, comment, room);
  }

  /** A word and its gap, in front of the rest of a line. */
  lemma ParseWordAndGap(w: Word, gap: string, rest: string, room: nat)
    requires GoodWord(w) && Blank(gap) && (w.stray ==> gap == "") && (gap == "" ==> rest == "")
    ensures Parse(Write(w) + gap + rest, room) ==
            if room == 0 then TooMany else Cons(Mean(w), Parse(rest, room - 1))
  {
    hide Parse;
    hide Write;
    hide Mean;
    hide GoodWord;
    hide Cons;
    assert Write(w) + gap + rest == Write(w) + (gap + rest);
    ParseWord(w, gap + rest, room);
    if gap == "" {
      assert gap + rest == "" == rest;
    } else {
      assert (gap + rest)[1..] == gap[1..] + rest;
      if room > 0 { LeadingBlanks(gap[1..], rest, room - 1); }
    }
  }

  lemma {:induction false} ParseWords(ws: seq<Word>, gaps: seq<string>, comment: string, room: nat)
    requires GoodLine(ws, gaps, comment)
    ensures Parse(WriteLine(ws, gaps) + comment, room) == if |ws| <= room then Args(MeanAll(ws)) else TooMany
    decreases |ws|
  {
    hide Parse;
    hide Write;
    hide Mean;
    hide GoodWord;
    if ws == [] {
      assert WriteLine(ws, gaps) + comment == comment;
      ParseComment(comment, room);
    } else {
      LineStep(ws, gaps, comment);
      var rest := WriteLine(ws[1..], gaps[1..]) + comment;
      assert WriteLine(ws, gaps) + comment == Write(ws[0]) + gaps[0] + rest;
      hide WriteLine;
      ParseWordAndGap(ws[0], gaps[0], rest, room);
      MeanStep(ws);
      hide MeanAll;
      if room > 0 { ParseWords(ws[1..], gaps[1..], comment, room - 1); }
    }
  }

  /** A written line is read with its meaning, or has more words than there is room for. */
  lemma ParseWritten(s: string, lead: string, ws: seq<Word>, gaps: seq<string>, comment: string, room: nat)
    requires IsLine(s, lead, ws, gaps, comment)
    ensures Parse(s, room) == if |ws| <= room then Args(MeanAll(ws)) else TooMany
  {
    hide Parse;
    hide WriteLine;
    hide MeanAll;
    hide GoodGap;
    ParseWords(ws, gaps, comment, room);
    LeadingBlanks(lead, WriteLine(ws, gaps) + comment, room);
    assert s == lead + (WriteLine(ws, gaps) + comment);
  }

  lemma MeanStep(ws: seq<Word>)
    requires ws != []
    ensures MeanAll(ws) == [Mean(ws[0])] + MeanAll(ws[1..])
  {
    hide Mean;
  }

  /** The first word of a line, and that the rest of it is a line. */
  lemma LineStep(ws: seq<Word>, gaps: seq<string>, comment: string)
    requires GoodLine(ws, gaps, comment) && ws != []
    ensures GoodWord(ws[0]) && Blank(gaps[0]) && GoodLine(ws[1..], gaps[1..], comment)
    ensures ws[0].stray ==> gaps[0] == ""
    ensures gaps[0] == "" ==> WriteLine(ws[1..], gaps[1..]) + comment == ""
  {
    hide GoodWord;
    assert GoodGap(ws[0], gaps[0], 1 < |ws| || comment != "");
    forall k | 0 <= k < |ws| - 1 ensures GoodGap(ws[1..][k], gaps[1..][k], k + 1 < |ws| - 1 || comment != "") {
      assert GoodGap(ws[k + 1], gaps[k + 1], k + 2 < |ws| || comment != "");
    }
  }

  // --- Every line that is accepted is written so ------------------------------------------------

  /** A text that ends inside quotes leaves them open. */
  lemma OpenAtEnd(mark: char)
    ensures ScanArg("", Quoted(mark)).open
  {
  }

  lemma OpenAtBackslash()
    ensures ScanArg("\\", Quoted('"')).open
  {
    assert "\\"[1..] == "";
  }

  lemma Uncons(s: string)
    requires s != ""
    ensures s == [s[0]] + s[1..]
  {
  }

  /** The text up to the closing mark, and what is behind it. */
  lemma {:induction false} ReadSingle(s: string) returns (text: string, rest: string)
    requires !ScanArg(s, Quoted('\'')).open
    ensures '\'' !in text && s == text + "'" + rest && !ScanArg(rest, Unquoted).open
    decreases |s|
  {
    hide ScanArg;
    OpenAtEnd('\'');
    Uncons(s);
    if s[0] == '\'' {
      text, rest := "", s[1..];
      ScanClosing('\'', rest);
    } else {
      ScanInSingle(s[0], s[1..]);
      var more;
      more, rest := ReadSingle(s[1..]);
      text := [s[0]] + more;
      assert s == text + "'" + rest;
    }
  }

  /** The first character inside double quotes that do not end here. */
  lemma ReadInner(s: string) returns (c: Inner, rest: string)
    requires s != "" && s[0] != '"' && !ScanArg(s, Quoted('"')).open
    ensures GoodInner(c) && s == WriteInner(c) + rest && !ScanArg(rest, Quoted('"')).open
  {
    hide ScanArg;
    OpenAtBackslash();
    Uncons(s);
    if s[0] == '\\' {
      assert s != "\\";
      c, rest := Slashed(s[1]), s[2..];
    } else {
      c, rest := Bare(s[0]), s[1..];
    }
    ScanInDouble(c, rest);
  }

  lemma {:induction false} ReadDouble(s: string) returns (chars: seq<Inner>, rest: string)
    requires !ScanArg(s, Quoted('"')).open
    ensures GoodPiece(Double(chars)) && s == WriteInners(chars) + "\"" + rest && !ScanArg(rest, Unquoted).open
    decreases |s|
  {
    hide ScanArg;
    OpenAtEnd('"');
    Uncons(s);
    if s[0] == '"' {
      chars, rest := [], s[1..];
      ScanClosing('"', rest);
    } else {
      var c, s' := ReadInner(s);
      var more;
      more, rest := ReadDouble(s');
      chars := [c] + more;
      assert chars[1..] == more;
      assert s == WriteInners(chars) + "\"" + rest;
    }
  }

  /** The first piece of a text that does not start with a blank. */
  lemma ReadPiece(s: string) returns (p: Piece, rest: string)
    requires s != "" && !IsSpace(s[0]) && s != "\\" && !ScanArg(s, Unquoted).open
    ensures GoodPiece(p) && s == WritePiece(p) + rest && !ScanArg(rest, Unquoted).open
    ensures p == Plain('#') <==> s[0] == '#'
  {
    hide ScanArg;
    hide WriteInners;
    Uncons(s);
    if s[0] == '\'' {
      ScanClosing('\'', s[1..]);
      var text;
      text, rest := ReadSingle(s[1..]);
      p := Single(text);
      assert s == WritePiece(p) + rest;
    } else if s[0] == '"' {
      ScanClosing('"', s[1..]);
      var chars;
      chars, rest := ReadDouble(s[1..]);
      p := Double(chars);
      assert s == WritePiece(p) + rest;
    } else if s[0] == '\\' {
      p, rest := Escaped(s[1]), s[2..];
      ScanEscape(s[1], rest);
    } else {
      p, rest := Plain(s[0]), s[1..];
      ScanPlain(s[0], rest);
    }
  }

  /** The pieces up to a blank or the end. */
  lemma {:induction false} ReadPieces(s: string) returns (w: Word, rest: string)
    requires !ScanArg(s, Unquoted).open
    ensures GoodPieces(w.pieces) && s == Write(w) + rest
    ensures rest == "" || (!w.stray && IsSpace(rest[0]))
    ensures s != "" && !IsSpace(s[0]) && s[0] != '#' ==> GoodWord(w)
    decreases |s|
  {
    hide ScanArg;
    hide WritePiece;
    hide GoodPiece;
    if s == "" || IsSpace(s[0]) {
      w, rest := Word([], false), s;
      assert Write(w) + rest == s;
    } else if s == "\\" {
      w, rest := Word([], true), "";
      assert Write(w) == "\\";
    } else {
      var p, s' := ReadPiece(s);
      PieceIsLong(p);
      var more;
      more, rest := ReadPieces(s');
      w := Word([p] + more.pieces, more.stray);
      WriteMore(p, more, rest);
    }
  }

  lemma PieceIsLong(p: Piece)
    ensures WritePiece(p) != ""
  {
  }

  lemma WriteMore(p: Piece, w: Word, rest: string)
    ensures Write(Word([p] + w.pieces, w.stray)) == WritePiece(p) + Write(w)
    ensures WritePiece(p) + (Write(w) + rest) == WritePiece(p) + Write(w) + rest
  {
    hide WritePiece;
    var w' := Word([p] + w.pieces, w.stray);
    assert w'.pieces[1..] == w.pieces;
  }

  lemma WrittenIsLong(ws: seq<Word>, gaps: seq<string>, comment: string)
    requires GoodLine(ws, gaps, comment)
    ensures ws != [] ==> WriteLine(ws, gaps) != ""
  {
    hide Write;
    hide GoodWord;
    if ws != [] {
      LineStep(ws, gaps, comment);
      WordStart(ws[0]);
    }
  }

  lemma NothingWritten(lead: string, ws: seq<Word>, gaps: seq<string>, comment: string)
    requires IsLine("", lead, ws, gaps, comment)
    ensures lead == "" && ws == [] && comment == ""
  {
    hide WriteLine;
    hide GoodGap;
    WrittenIsLong(ws, gaps, comment);
  }

  /** A word and at most one blank, put in front of a line. */
  lemma PutWord(lead: string, w: Word, sep: string, s: string,
                lead': string, ws: seq<Word>, gaps: seq<string>, comment: string)
    requires Blank(lead) && GoodWord(w) && Blank(sep) && IsLine(s, lead', ws, gaps, comment)
    requires if sep == "" then s == "" else !w.stray
    ensures IsLine(lead + (Write(w) + sep + s), lead, [w] + ws, [sep + lead'] + gaps, comment)
  {
    hide Write;
    hide GoodWord;
    var ws', gaps' := [w] + ws, [sep + lead'] + gaps;
    if sep == "" { NothingWritten(lead', ws, gaps, comment); }
    forall k | 0 <= k < |ws'| ensures GoodGap(ws'[k], gaps'[k], k + 1 < |ws'| || comment != "") {
      if k > 0 { assert GoodGap(ws[k - 1], gaps[k - 1], k < |ws| || comment != ""); }
    }
    assert ws'[1..] == ws && gaps'[1..] == gaps;
    hide GoodLine;
    var l := WriteLine(ws, gaps);
    assert WriteLine(ws', gaps') == Write(w) + (sep + lead') + l;
    hide WriteLine;
    assert lead + (Write(w) + sep + (lead' + l + comment)) == lead + (Write(w) + (sep + lead') + l) + comment;
  }

  /** The first word and the blank behind it; what is left is where the scan ends. */
  lemma ReadWord(t: string) returns (w: Word, sep: string, rest: string)
    requires t != "" && !IsSpace(t[0]) && t[0] != '#' && !ScanArg(t, Unquoted).open
    ensures GoodWord(w) && Blank(sep) && t == Write(w) + sep + rest && (if sep == "" then rest == "" else !w.stray)
    ensures t[ScanArg(t, Unquoted).used..] == rest
  {
    hide ScanArg;
    hide Write;
    hide Mean;
    hide GoodWord;
    var after;
    w, after := ReadPieces(t);
    ScanWord(w, after);
    if after == "" {
      sep, rest := "", "";
    } else {
      sep, rest := after[..1], after[1..];
    }
    assert after == sep + rest;
  }

  lemma NoWords(lead: string, comment: string)
    requires Blank(lead) && (comment != "" ==> comment[0] == '#')
    ensures IsLine(lead + comment, lead, [], [], comment)
  {
    assert lead + "" + comment == lead + comment;
  }

  /** An accepted line, taken apart. */
  lemma {:induction false} ReadLine(s: string, room: nat)
    returns (lead: string, ws: seq<Word>, gaps: seq<string>, comment: string)
    requires Parse(s, room).Args?
    ensures IsLine(s, lead, ws, gaps, comment)
    decreases room
  {
    hide Parse;
    hide ScanArg;
    hide Write;
    hide GoodWord;
    hide SkipSpaces;
    hide IsLine;
    var n := SkipSpaces(s);
    var t := s[n..];
    lead := s[..n];
    assert s == lead + t && Blank(lead);
    ParseAfterBlanks(s, t, room);
    if t == "" || t[0] == '#' {
      ws, gaps, comment := [], [], t;
      NoWords(lead, t);
    } else {
      var w, sep, rest := ReadWord(t);
      var lead', ws', gaps';
      lead', ws', gaps', comment := ReadLine(rest, room - 1);
      PutWord(lead, w, sep, rest, lead', ws', gaps', comment);
      ws, gaps := [w] + ws', [sep + lead'] + gaps';
    }
  }

  // --- The parser is the inverse of writing ------------------------------------------------------

  /** The arguments of a line are `args` exactly when the line is written as words that mean
      them, and there is room for all of them. */
  lemma ParseIff(s: string, room: nat, args: seq<string>)
    ensures Parse(s, room) == Args(args) <==>
              exists lead, ws, gaps, comment ::
                IsLine(s, lead, ws, gaps, comment) && |ws| <= room && MeanAll(ws) == args
  {
    hide Parse;
    hide IsLine;
    hide MeanAll;
    if Parse(s, room) == Args(args) {
      var lead, ws, gaps, comment := ReadLine(s, room);
      ParseWritten(s, lead, ws, gaps, comment, room);
    }
    forall lead, ws, gaps, comment | IsLine(s, lead, ws, gaps, comment)
      ensures Parse(s, room) == if |ws| <= room then Args(MeanAll(ws)) else TooMany
    {
      ParseWritten(s, lead, ws, gaps, comment, room);
    }
  }
}
