/**
 What the language of command lines says about the lines that people type: plain words, the
 ways to quote an argument, and comments.
 */
module CommandWays {
  import opened Tokens
  import opened CommandLines

  /** The blanks: space, tab, line feed, vertical tab, form feed and carriage return. */
  lemma Blanks(ch: char)
    ensures IsSpace(ch) <==> ch in [' ', '\t', '\n', 11 as char, 12 as char, '\r']
    ensures IsQuote(ch) <==> ch in ['"', '\'']
  {
    assert '\t' == 9 as char && '\n' == 10 as char && '\r' == 13 as char;
  }

  // --- Ways to write an argument -----------------------------------------------------------------

  /** A line that is written with every argument in the same way, one blank between them. */
  function Line(args: seq<string>, write: string -> Word): string
  {
    if args == [] then "" else Write(write(args[0])) + (if |args| == 1 then "" else " ") + Line(args[1..], write)
  }

  function Words(args: seq<string>, write: string -> Word): seq<Word>
  {
    seq(|args|, k requires 0 <= k < |args| => write(args[k]))
  }

  function Gaps(n: nat): seq<string> { seq(n, k => if k == n - 1 then "" else " ") }

  /** The way of writing gives a word that means its argument. */
  predicate Faithful(arg: string, write: string -> Word)
  {
    GoodWord(write(arg)) && !write(arg).stray && Mean(write(arg)) == arg
  }

  lemma {:induction false} LineIsWritten(args: seq<string>, write: string -> Word)
    ensures Line(args, write) == WriteLine(Words(args, write), Gaps(|args|))
    decreases |args|
  {
    hide Write;
    if args != [] {
      LineIsWritten(args[1..], write);
      assert Words(args, write)[1..] == Words(args[1..], write);
      assert |args| > 1 ==> Gaps(|args|)[1..] == Gaps(|args| - 1);
      assert |args| == 1 ==> args[1..] == [] && Gaps(|args|)[1..] == [];
    }
  }

  /** Any faithful way of writing is undone by parsing, with room for all arguments. */
  lemma ParseLine(args: seq<string>, write: string -> Word, room: nat)
    requires forall k :: 0 <= k < |args| ==> Faithful(args[k], write)
    ensures Parse(Line(args, write), room) == if |args| <= room then Args(args) else TooMany
  {
    hide Parse;
    hide Write;
    hide Mean;
    hide GoodWord;
    var ws, gaps := Words(args, write), Gaps(|args|);
    LineIsWritten(args, write);
    hide Line;
    forall k | 0 <= k < |ws| ensures GoodGap(ws[k], gaps[k], k + 1 < |ws|) { assert Faithful(args[k], write); }
    assert Line(args, write) == "" + WriteLine(ws, gaps) + "";
    hide WriteLine;
    ParseWritten(Line(args, write), "", ws, gaps, "", room);
    assert MeanAll(ws) == args by {
      forall k | 0 <= k < |args| ensures MeanAll(ws)[k] == args[k] { assert Faithful(args[k], write); }
    }
  }

  function PlainWord(arg: string): Word { Word(seq(|arg|, k requires 0 <= k < |arg| => Plain(arg[k])), false) }

  function SlashedWord(arg: string): Word { Word(seq(|arg|, k requires 0 <= k < |arg| => Escaped(arg[k])), false) }

  function SingleWord(arg: string): Word { Word([Single(arg)], false) }

  /** In double quotes, with a backslash in front of '"' and '\'. */
  function DoubleWord(arg: string): Word
  {
    Word([Double(seq(|arg|, k requires 0 <= k < |arg| =>
                       if arg[k] == '"' || arg[k] == '\\' then Slashed(arg[k]) else Bare(arg[k])))], false)
  }

  /** No blank, quote or backslash, and not like a comment. */
  predicate IsPlain(arg: string)
  {
    arg != "" && arg[0] != '#' && forall k :: 0 <= k < |arg| ==> GoodPiece(Plain(arg[k]))
  }

  /** A backslash in front of every character. */
  function Slashes(arg: string): string
  {
    if arg == "" then "" else ['\\', arg[0]] + Slashes(arg[1..])
  }

  lemma {:induction false} PlainPieces(arg: string)
    ensures WritePieces(PlainWord(arg).pieces) == arg == MeanPieces(PlainWord(arg).pieces)
  {
    if arg != "" {
      PlainPieces(arg[1..]);
      assert PlainWord(arg).pieces[1..] == PlainWord(arg[1..]).pieces;
    }
  }

  lemma {:induction false} SlashedPieces(arg: string)
    ensures WritePieces(SlashedWord(arg).pieces) == Slashes(arg) && MeanPieces(SlashedWord(arg).pieces) == arg
  {
    if arg != "" {
      SlashedPieces(arg[1..]);
      assert SlashedWord(arg).pieces[1..] == SlashedWord(arg[1..]).pieces;
    }
  }

  lemma {:induction false} DoubleChars(arg: string)
    ensures MeanInners(DoubleWord(arg).pieces[0].chars) == arg
  {
    if arg != "" {
      DoubleChars(arg[1..]);
      assert DoubleWord(arg).pieces[0].chars[1..] == DoubleWord(arg[1..]).pieces[0].chars;
    }
  }

  lemma OnePiece(p: Piece)
    ensures MeanPieces([p]) == MeanPiece(p) && WritePieces([p]) == WritePiece(p)
  {
    assert [p][1..] == [];
  }

  lemma PlainIsFaithful(arg: string)
    requires IsPlain(arg)
    ensures Faithful(arg, PlainWord) && Write(PlainWord(arg)) == arg
  {
    hide WritePieces;
    hide MeanPieces;
    PlainPieces(arg);
    assert arg + "" == arg;
  }

  lemma SlashedIsFaithful(arg: string)
    requires arg != ""
    ensures Faithful(arg, SlashedWord) && Write(SlashedWord(arg)) == Slashes(arg)
  {
    hide WritePieces;
    hide MeanPieces;
    hide Slashes;
    SlashedPieces(arg);
    assert arg + "" == arg && Slashes(arg) + "" == Slashes(arg);
  }

  lemma SingleIsFaithful(arg: string)
    requires '\'' !in arg
    ensures Faithful(arg, SingleWord) && Write(SingleWord(arg)) == "'" + arg + "'"
  {
    hide WritePieces;
    hide MeanPieces;
    OnePiece(Single(arg));
    assert arg + "" == arg && ("'" + arg + "'") + "" == "'" + arg + "'";
  }

  lemma DoubleIsFaithful(arg: string)
    ensures Faithful(arg, DoubleWord)
  {
    hide WritePieces;
    hide MeanPieces;
    hide WriteInners;
    hide MeanInners;
    DoubleChars(arg);
    OnePiece(DoubleWord(arg).pieces[0]);
    assert arg + "" == arg;
  }

  /** Quoting any argument list in double quotes and parsing gives the list back, or it is too long. */
  lemma ParseDoubleQuoted(args: seq<string>, room: nat)
    ensures Parse(Line(args, DoubleWord), room) == if |args| <= room then Args(args) else TooMany
  {
    forall k | 0 <= k < |args| ensures Faithful(args[k], DoubleWord) { DoubleIsFaithful(args[k]); }
    hide Faithful;
    hide Line;
    hide Parse;
    ParseLine(args, DoubleWord, room);
  }

  lemma ParseSingleQuoted(args: seq<string>, room: nat)
    requires forall k :: 0 <= k < |args| ==> '\'' !in args[k]
    ensures Parse(Line(args, SingleWord), room) == if |args| <= room then Args(args) else TooMany
  {
    forall k | 0 <= k < |args| ensures Faithful(args[k], SingleWord) { SingleIsFaithful(args[k]); }
    hide Faithful;
    hide Line;
    hide Parse;
    ParseLine(args, SingleWord, room);
  }

  lemma ParseBackslashed(args: seq<string>, room: nat)
    requires forall k :: 0 <= k < |args| ==> args[k] != ""
    ensures Parse(Line(args, SlashedWord), room) == if |args| <= room then Args(args) else TooMany
  {
    forall k | 0 <= k < |args| ensures Faithful(args[k], SlashedWord) { SlashedIsFaithful(args[k]); }
    hide Faithful;
    hide Line;
    hide Parse;
    ParseLine(args, SlashedWord, room);
  }

  // --- Plain words and comments --------------------------------------------------------------------

  /** Texts with blanks behind them. */
  function Joined(texts: seq<string>, gaps: seq<string>): string
    requires |gaps| == |texts|
  {
    if texts == [] then "" else texts[0] + gaps[0] + Joined(texts[1..], gaps[1..])
  }

  lemma {:induction false} JoinedIsWritten(texts: seq<string>, gaps: seq<string>)
    requires |gaps| == |texts| && forall k :: 0 <= k < |texts| ==> IsPlain(texts[k])
    ensures Joined(texts, gaps) == WriteLine(Words(texts, PlainWord), gaps)
    decreases |texts|
  {
    hide Write;
    hide IsPlain;
    if texts != [] {
      PlainIsFaithful(texts[0]);
      hide Faithful;
      JoinedIsWritten(texts[1..], gaps[1..]);
      assert Words(texts, PlainWord)[1..] == Words(texts[1..], PlainWord);
    }
  }

  /** Plain words between any blanks are the arguments, and a comment behind them is ignored. */
  lemma ParsePlainWords(lead: string, texts: seq<string>, gaps: seq<string>, comment: string, room: nat)
    requires Blank(lead) && |gaps| == |texts| && (comment != "" ==> comment[0] == '#')
    requires forall k :: 0 <= k < |texts| ==> IsPlain(texts[k]) && Blank(gaps[k])
    requires forall k :: 0 <= k < |texts| && (k + 1 < |texts| || comment != "") ==> gaps[k] != ""
    ensures Parse(lead + Joined(texts, gaps) + comment, room) == if |texts| <= room then Args(texts) else TooMany
  {
    hide Parse;
    hide IsPlain;
    var ws := Words(texts, PlainWord);
    JoinedIsWritten(texts, gaps);
    forall k | 0 <= k < |texts| ensures Faithful(texts[k], PlainWord) { PlainIsFaithful(texts[k]); }
    hide PlainWord;
    hide Write;
    hide Mean;
    hide GoodWord;
    forall k | 0 <= k < |ws| ensures GoodGap(ws[k], gaps[k], k + 1 < |ws| || comment != "") {
      assert Faithful(texts[k], PlainWord);
    }
    hide WriteLine;
    hide Joined;
    ParseWritten(lead + Joined(texts, gaps) + comment, lead, ws, gaps, comment, room);
    forall k | 0 <= k < |texts| ensures MeanAll(ws)[k] == texts[k] { assert Faithful(texts[k], PlainWord); }
    assert MeanAll(ws) == texts;
  }

  /** A blank and a comment behind an accepted line change nothing, unless the line ends in a
      backslash, which would take the blank in. */
  lemma CommentIsIgnored(s: string, blank: char, text: string, room: nat)
    requires Parse(s, room).Args? && IsSpace(blank) && (s != "" ==> s[|s| - 1] != '\\')
    ensures Parse(s + [blank] + "#" + text, room) == Parse(s, room)
  {
    hide Parse;
    hide IsLine;
    hide MeanAll;
    var lead, ws, gaps, comment := ReadLine(s, room);
    ParseWritten(s, lead, ws, gaps, comment, room);
    var lead', gaps', comment' := AddComment(s, lead, ws, gaps, comment, [blank], "#" + text);
    assert s + [blank] + "#" + text == s + [blank] + ("#" + text);
    ParseWritten(s + [blank] + ("#" + text), lead', ws, gaps', comment', room);
  }

  lemma AddComment(s: string, lead: string, ws: seq<Word>, gaps: seq<string>, comment: string,
                   blanks: string, more: string)
    returns (lead': string, gaps': seq<string>, comment': string)
    requires IsLine(s, lead, ws, gaps, comment) && Blank(blanks) && blanks != ""
    requires more != "" && more[0] == '#' && (s != "" ==> s[|s| - 1] != '\\')
    ensures IsLine(s + blanks + more, lead', ws, gaps', comment')
  {
    hide IsLine;
    lead', gaps' := lead, gaps;
    if comment != "" {
      comment' := comment + (blanks + more);
      LongerComment(s, lead, ws, gaps, comment, blanks + more);
      assert s + blanks + more == s + (blanks + more);
    } else if ws == [] {
      lead', comment' := lead + blanks, more;
      OnlyBlanks(s, lead, gaps, blanks, more);
    } else {
      comment' := more;
      gaps' := LastGap(s, lead, ws, gaps, blanks, more);
    }
  }

  lemma OnlyBlanks(s: string, lead: string, gaps: seq<string>, blanks: string, comment: string)
    requires IsLine(s, lead, [], gaps, "") && Blank(blanks) && comment != "" && comment[0] == '#'
    ensures IsLine(s + blanks + comment, lead + blanks, [], gaps, comment)
  {
    assert s == lead;
  }

  lemma LongerComment(s: string, lead: string, ws: seq<Word>, gaps: seq<string>, comment: string, more: string)
    requires IsLine(s, lead, ws, gaps, comment) && comment != ""
    ensures IsLine(s + more, lead, ws, gaps, comment + more)
  {
    hide WriteLine;
    hide GoodWord;
    forall k | 0 <= k < |ws| ensures GoodGap(ws[k], gaps[k], k + 1 < |ws| || comment + more != "") {
      assert GoodGap(ws[k], gaps[k], k + 1 < |ws| || comment != "");
    }
    assert s + more == lead + WriteLine(ws, gaps) + (comment + more);
  }

  /** More blanks and a comment at the end of a line without one. */
  lemma LastGap(s: string, lead: string, ws: seq<Word>, gaps: seq<string>, blanks: string, comment: string)
    returns (gaps': seq<string>)
    requires IsLine(s, lead, ws, gaps, "") && ws != [] && Blank(blanks) && blanks != ""
    requires (s != "" ==> s[|s| - 1] != '\\') && comment != "" && comment[0] == '#'
    ensures IsLine(s + blanks + comment, lead, ws, gaps', comment)
  {
    hide GoodWord;
    hide Write;
    var n := |ws| - 1;
    LastWord(ws, gaps);
    assert GoodGap(ws[n], gaps[n], n + 1 < |ws| || "" != "");
    gaps' := gaps[..n] + [gaps[n] + blanks];
    WriteLastGap(ws, gaps, blanks);
    forall k | 0 <= k < |ws| ensures GoodGap(ws[k], gaps'[k], k + 1 < |ws| || comment != "") {
      assert GoodGap(ws[k], gaps[k], k + 1 < |ws| || "" != "");
    }
    hide GoodGap;
    hide WriteLine;
    var l := WriteLine(ws, gaps);
    assert s == lead + l;
    assert lead + l + blanks + comment == lead + (l + blanks) + comment;
  }

  lemma WriteFirst(ws: seq<Word>, gaps: seq<string>)
    requires |gaps| == |ws| && ws != []
    ensures WriteLine(ws, gaps) == Write(ws[0]) + gaps[0] + WriteLine(ws[1..], gaps[1..])
    ensures WriteLine([], []) == ""
  {
    hide Write;
  }

  lemma {:induction false} WriteLastGap(ws: seq<Word>, gaps: seq<string>, blanks: string)
    requires |gaps| == |ws| && ws != []
    ensures var n := |ws| - 1;
            WriteLine(ws, gaps[..n] + [gaps[n] + blanks]) == WriteLine(ws, gaps) + blanks
    decreases |ws|
  {
    hide Write;
    hide WriteLine;
    var n := |ws| - 1;
    var gaps' := gaps[..n] + [gaps[n] + blanks];
    WriteFirst(ws, gaps);
    WriteFirst(ws, gaps');
    var w := Write(ws[0]);
    if n > 0 {
      WriteLastGap(ws[1..], gaps[1..], blanks);
      assert gaps'[1..] == gaps[1..][..n - 1] + [gaps[1..][n - 1] + blanks];
      var rest := WriteLine(ws[1..], gaps[1..]);
      assert w + gaps[0] + (rest + blanks) == w + gaps[0] + rest + blanks;
    } else {
      assert ws[1..] == [] && gaps[1..] == [] && gaps'[1..] == [];
      assert w + (gaps[0] + blanks) + "" == w + gaps[0] + "" + blanks;
    }
  }

  /** A stray backslash at the end of the last word is the end of the line. */
  lemma {:induction false} LastWord(ws: seq<Word>, gaps: seq<string>)
    requires GoodLine(ws, gaps, "") && ws != []
    ensures var l := WriteLine(ws, gaps); l != "" && (ws[|ws| - 1].stray ==> l[|l| - 1] == '\\')
    decreases |ws|
  {
    hide GoodWord;
    WrittenIsLong(ws, gaps, "");
    LineStep(ws, gaps, "");
    if |ws| > 1 {
      hide Write;
      LastWord(ws[1..], gaps[1..]);
    } else {
      assert ws[1..] == [];
    }
  }
}
