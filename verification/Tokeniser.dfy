/**
 The parsing loop of cmd_exec (shell/command.c) as it runs: a read pointer and a write
 pointer in one buffer, arguments terminated in place, and argv an array of start offsets.
 */
module Tokeniser {
  import opened CString
  import opened Tokens

  /** Offset `at` of the buffer is the start of the C string `s`. */
  predicate StringAt(buf: seq<char>, at: nat, s: string)
  {
    at + |s| < |buf| && buf[at..at + |s|] == s && buf[at + |s|] == NUL
  }

  /** What one turn of the loop reads: characters kept, characters read, the quote after it,
      and whether the argument ends here. */
  datatype Turn = Turn(kept: string, read: nat, quote: Quote, ends: bool)

  function NextTurn(s: string, q: Quote): (t: Turn)
    requires s != []
    ensures |t.kept| <= t.read <= |s| && t.read >= 1 && |t.kept| <= 1
    ensures t.ends ==> t.kept == "" && t.read == 1
  {
    if IsSpace(s[0]) && q == Unquoted then Turn("", 1, q, true)
    else if IsQuote(s[0]) then
      var (q', kept) := AfterQuote(q, s[0]);
      Turn(if kept then [s[0]] else "", 1, q', false)
    else if s[0] == '\\' && q != Quoted('\'') then
      if |s| == 1 then Turn("\\", 1, q, false) else Turn([s[1]], 2, q, false)
    else Turn([s[0]], 1, q, false)
  }

  lemma ScanOne(s: string, q: Quote)
    requires s != []
    ensures var t := NextTurn(s, q);
            ScanArg(s, q) == if t.ends then Scan("", 1, false) else Emit(t.kept, t.read, ScanArg(s[t.read..], t.quote))
  {
  }

  /** How one turn moves the scan of the whole argument on. */
  lemma ScanMore(whole: Scan, text: string, used: nat, s: string, q: Quote)
    requires s != [] && whole == Emit(text, used, ScanArg(s, q))
    ensures var t := NextTurn(s, q);
            if t.ends then whole == Scan(text, used + 1, false)
            else whole == Emit(text + t.kept, used + t.read, ScanArg(s[t.read..], t.quote))
  {
    var t := NextTurn(s, q);
    ScanOne(s, q);
    hide ScanArg;
    hide NextTurn;
    assert text + "" == text;
    if !t.ends {
      EmitTwice(text, used, t.kept, t.read, ScanArg(s[t.read..], t.quote));
    }
  }

  lemma ScanNothing(text: string, used: nat, q: Quote)
    ensures Emit(text, used, ScanArg([], q)) == Scan(text, used, q != Unquoted)
  {
    assert text + "" == text;
  }

  /** One turn of the loop on the buffer. */
  method ScanChar(buf: array<char>, n: nat, start: nat, rd: nat, out: nat, quote: Quote)
    returns (rd': nat, out': nat, quote': Quote, ends: bool)
    requires start <= out <= rd < n < buf.Length && buf[n] == NUL && IsCString(buf[rd..n])
    modifies buf
    ensures out <= out' <= rd' <= n && (ends ==> out' < rd') && rd < rd'
    ensures NextTurn(old(buf[rd..n]), quote) == Turn(buf[out..out'], rd' - rd, quote', ends)
    ensures buf[..out] == old(buf[..out]) && buf[rd'..] == old(buf[rd'..])
  {
    ghost var s := buf[rd..n];
    var ch := buf[rd];
    assert ch == s[0] && (rd + 1 < n ==> buf[rd + 1] == s[1]);
    rd', out', quote', ends := rd, out, quote, false;
    if IsSpace(ch) && quote == Unquoted {
      return rd + 1, out, quote, true;
    } else if IsQuote(ch) {
      if quote == Unquoted {
        quote' := Quoted(ch);
      } else if quote == Quoted(ch) {
        quote' := Unquoted;
      } else {
        buf[out'] := ch;
        out' := out' + 1;
      }
    } else if ch == '\\' && quote != Quoted('\'') {
      if buf[rd + 1] == NUL {
        buf[out'] := ch;
        out' := out' + 1;
      } else {
        buf[out'] := buf[rd + 1];
        out' := out' + 1;
        rd' := rd' + 1;
      }
    } else {
      buf[out'] := ch;
      out' := out' + 1;
    }
    rd' := rd' + 1;
  }

  lemma AfterTurn(before: seq<char>, after: seq<char>, line: seq<char>,
                  start: nat, out0: nat, out1: nat, rd0: nat, rd1: nat, n: nat)
    requires |before| == |after| == |line| && start <= out0 <= out1 <= rd1 && rd0 <= rd1 <= n <= |line|
    requires after[..out0] == before[..out0] && after[rd1..] == before[rd1..]
    requires before[..start] == line[..start] && before[rd0..] == line[rd0..]
    ensures after[start..out1] == before[start..out0] + after[out0..out1]
    ensures after[..start] == line[..start] && after[rd1..] == line[rd1..]
    ensures line[rd0..n][rd1 - rd0..] == line[rd1..n]
  {
    assert after[start..out1] == after[start..out0] + after[out0..out1];
    assert after[start..out0] == after[..out0][start..] && before[start..out0] == before[..out0][start..];
    assert after[..start] == after[..out0][..start] && before[..start] == before[..out0][..start];
    assert before[rd1..] == before[rd0..][rd1 - rd0..] && line[rd1..] == line[rd0..][rd1 - rd0..];
  }

  /** The state in the middle of an argument: its text so far lies at `start`, the rest of the
      line from `rd` on is as it was, and together they scan to `whole`. */
  predicate Scanning(b: seq<char>, line: seq<char>, n: nat, start: nat, rd: nat, out: nat, quote: Quote, whole: Scan)
  {
    && start <= out <= rd <= n < |b| == |line|
    && b[..start] == line[..start] && b[rd..] == line[rd..]
    && whole == Emit(b[start..out], rd - start, ScanArg(line[rd..n], quote))
  }

  lemma ScanningStep(b: seq<char>, b': seq<char>, line: seq<char>, n: nat, start: nat, rd: nat, out: nat, quote: Quote,
                     rd': nat, out': nat, quote': Quote, ends: bool, whole: Scan)
    requires Scanning(b, line, n, start, rd, out, quote, whole) && rd < n && |b'| == |b|
    requires line[n] == NUL && IsCString(line[start..n])
    requires out <= out' <= rd' <= n && rd < rd' && b'[..out] == b[..out] && b'[rd'..] == b[rd'..]
    requires NextTurn(b[rd..n], quote) == Turn(b'[out..out'], rd' - rd, quote', ends)
    ensures !ends ==> Scanning(b', line, n, start, rd', out', quote', whole)
    ensures ends ==> whole == Scan(b'[start..out'], rd' - start, false)
    ensures b'[..start] == line[..start] && b'[rd'..] == line[rd'..]
  {
    hide ScanArg;
    hide NextTurn;
    hide Emit;
    Unread(b, line, rd, n, start);
    ScanMore(whole, b[start..out], rd - start, line[rd..n], quote);
    AfterTurn(b, b', line, start, out, out', rd, rd', n);
    if ends {
      assert b'[start..out'] == b[start..out];
    }
  }

  /** Reads one argument at `start` and leaves its text there.  The text never overtakes the
      reading: what has not been read yet is not changed. */
  method ScanInPlace(buf: array<char>, n: nat, start: nat) returns (rd: nat, out: nat, open: bool)
    requires start < n < buf.Length && buf[n] == NUL && IsCString(buf[start..n])
    modifies buf
    ensures var scan := ScanArg(old(buf[start..n]), Unquoted);
            && rd == start + scan.used && open == scan.open
            && rd <= n && (out < rd || out == rd == n)
            && start <= out && buf[start..out] == scan.text
    ensures buf[..start] == old(buf[..start]) && buf[rd..] == old(buf[rd..])
  {
    hide ScanArg;
    hide NextTurn;
    hide Emit;
    hide IsCString;
    ghost var line := buf[..];
    ghost var whole := ScanArg(line[start..n], Unquoted);
    rd, out := start, start;
    var quote, ends := Unquoted, false;
    EmitNothing(whole);
    assert Scanning(buf[..], line, n, start, rd, out, quote, whole) by { assert line[start..start] == ""; }
    hide Scanning;
    ScanningAt(buf[..], line, n, start, rd, out, quote, whole);
    while buf[rd] != NUL
      invariant start <= out <= rd <= n && (buf[rd] == NUL <==> rd == n)
      invariant Scanning(buf[..], line, n, start, rd, out, quote, whole)
      decreases n - rd
    {
      ghost var before, rd0, out0, quote0 := buf[..], rd, out, quote;
      ScanningAt(before, line, n, start, rd, out, quote, whole);
      rd, out, quote, ends := ScanChar(buf, n, start, rd, out, quote);
      ScanningStep(before, buf[..], line, n, start, rd0, out0, quote0, rd, out, quote, ends, whole);
      if ends {
        return rd, out, false;
      }
      ScanningAt(buf[..], line, n, start, rd, out, quote, whole);
    }
    ScanningEnds(buf[..], line, n, start, out, quote, whole);
    open := quote != Unquoted;
  }

  /** What the unread part of the buffer says about the next character. */
  lemma ScanningAt(b: seq<char>, line: seq<char>, n: nat, start: nat, rd: nat, out: nat, quote: Quote, whole: Scan)
    requires Scanning(b, line, n, start, rd, out, quote, whole) && line[n] == NUL && IsCString(line[start..n])
    ensures b[n] == NUL && IsCString(b[rd..n]) && (b[rd] == NUL <==> rd == n)
  {
    hide ScanArg;
    Unread(b, line, rd, n, start);
  }

  lemma ScanningEnds(b: seq<char>, line: seq<char>, n: nat, start: nat, out: nat, quote: Quote, whole: Scan)
    requires Scanning(b, line, n, start, n, out, quote, whole)
    ensures whole == Scan(b[start..out], n - start, quote != Unquoted)
    ensures b[..start] == line[..start] && b[n..] == line[n..]
  {
    hide ScanArg;
    assert line[n..n] == [];
    ScanNothing(b[start..out], n - start, quote);
  }

  lemma EmitNothing(scan: Scan)
    ensures Emit("", 0, scan) == scan
  {
  }

  /** The unread part of the buffer is the unread part of the line. */
  lemma Unread(buf: seq<char>, line: seq<char>, rd: nat, n: nat, start: nat)
    requires start <= rd <= n < |buf| == |line| && buf[rd..] == line[rd..]
    requires line[n] == NUL && IsCString(line[start..n])
    ensures buf[rd..n] == line[rd..n] && IsCString(buf[rd..n]) && buf[rd] == line[rd] && buf[n] == NUL
    ensures buf[rd] == NUL <==> rd == n
  {
    assert buf[rd..n] == buf[rd..][..n - rd] && line[rd..n] == line[rd..][..n - rd];
    assert buf[rd] == buf[rd..][0] && buf[n] == buf[rd..][n - rd] && line[n] == line[rd..][n - rd];
    assert line[rd..n] == line[start..n][rd - start..];
    assert rd < n ==> line[rd] == line[start..n][rd - start];
  }

  /** Reads one argument and terminates it where it was read. */
  method ArgInPlace(buf: array<char>, n: nat, start: nat) returns (rd: nat, open: bool)
    requires start < n < buf.Length && buf[n] == NUL && IsCString(buf[start..n])
    modifies buf
    ensures var scan := ScanArg(old(buf[start..n]), Unquoted);
            && rd == start + scan.used && rd <= n && open == scan.open
            && (!open ==> StringAt(buf[..], start, scan.text) && start + |scan.text| < if rd == n then n + 1 else rd)
    ensures buf[..start] == old(buf[..start]) && buf[rd..] == old(buf[rd..])
  {
    hide ScanArg;
    var out;
    ghost var line := buf[..];
    rd, out, open := ScanInPlace(buf, n, start);
    if !open {
      ghost var text, front, back := buf[start..out], buf[..start], buf[rd..];
      assert out == n ==> buf[n] == back[n - rd] == line[rd..][n - rd] == NUL;
      buf[out] := NUL;
      assert buf[start..out] == text && buf[..start] == front && buf[rd..] == back;
      assert buf[..][start..out] == text;
    }
  }

  // --- The whole line --------------------------------------------------------------

  datatype Outcome = Parsed(argv: seq<nat>) | TooManyArguments | UnterminatedQuote

  /** The strings at the offsets are the arguments, one behind the other without overlap, and
      all in front of `limit`. */
  predicate Laid(buf: seq<char>, argv: seq<nat>, args: seq<string>, limit: nat)
  {
    && |argv| == |args|
    && (forall k :: 0 <= k < |argv| ==> StringAt(buf, argv[k], args[k]) && argv[k] + |args[k]| < limit)
    && (forall j, k :: 0 <= j < k < |argv| ==> argv[j] + |args[j]| < argv[k])
  }

  function Prepend(args: seq<string>, rest: Tokens.Parsed): Tokens.Parsed
  {
    if rest.Args? then Args(args + rest.args) else rest
  }

  lemma PrependMore(args: seq<string>, text: string, rest: Tokens.Parsed)
    ensures Prepend(args, Cons(text, rest)) == Prepend(args + [text], rest)
  {
    if rest.Args? { assert args + ([text] + rest.args) == args + [text] + rest.args; }
  }

  lemma ParseSkips(s: string, room: nat)
    requires s != [] && IsSpace(s[0])
    ensures Parse(s, room) == Parse(s[1..], room)
  {
    assert s[SkipSpaces(s)..] == s[1..][SkipSpaces(s[1..])..];
  }

  lemma ParseArg(s: string, room: nat)
    requires s != [] && !IsSpace(s[0])
    ensures s[0] == '#' ==> Parse(s, room) == Args([])
    ensures s[0] != '#' && room == 0 ==> Parse(s, room) == TooMany
    ensures s[0] != '#' && room > 0 ==>
              var scan := ScanArg(s, Unquoted);
              Parse(s, room) == if scan.open then Unterminated else Cons(scan.text, Parse(s[scan.used..], room - 1))
  {
    assert SkipSpaces(s) == 0 && s[0..] == s;
  }

  /** Skips blanks in front of an argument. */
  method SkipBlanks(buf: array<char>, n: nat, from: nat, ghost room: nat) returns (rd: nat)
    requires from <= n < buf.Length && buf[n] == NUL && IsCString(buf[from..n])
    ensures from <= rd <= n && (buf[rd] == NUL <==> rd == n) && (rd < n ==> !IsSpace(buf[rd]))
    ensures Parse(buf[rd..n], room) == Parse(buf[from..n], room)
  {
    hide Parse;
    rd := from;
    while buf[rd] != NUL && IsSpace(buf[rd])
      invariant from <= rd <= n
      invariant Parse(buf[rd..n], room) == Parse(buf[from..n], room)
      decreases n - rd
    {
      assert buf[rd..n][0] == buf[rd] && buf[rd..n][1..] == buf[rd + 1..n];
      ParseSkips(buf[rd..n], room);
      rd := rd + 1;
    }
    assert rd < n ==> buf[rd] == buf[from..n][rd - from];
  }

  /** The end of the text that arguments may occupy when everything before `rd` is read. */
  function Limit(rd: nat, n: nat): nat { if rd == n then n + 1 else rd }

  lemma StringStays(buf: seq<char>, buf': seq<char>, start: nat, at: nat, s: string)
    requires |buf| == |buf'| && start <= |buf| && buf'[..start] == buf[..start]
    requires StringAt(buf, at, s) && at + |s| < start
    ensures StringAt(buf', at, s)
  {
    forall i | 0 <= i < start ensures buf'[i] == buf[i] {
      assert buf'[i] == buf'[..start][i] && buf[i] == buf[..start][i];
    }
  }

  /** Arguments laid out so far stay, and the new one joins them. */
  lemma LayAnother(buf: seq<char>, buf': seq<char>, argv: seq<nat>, args: seq<string>, start: nat, text: string,
                   limit: nat)
    requires Laid(buf, argv, args, start) && |buf| == |buf'| && start <= |buf| && buf'[..start] == buf[..start]
    requires StringAt(buf', start, text) && start + |text| < limit && start <= limit
    ensures Laid(buf', argv + [start], args + [text], limit)
  {
    forall k | 0 <= k < |argv| ensures StringAt(buf', argv[k], args[k]) {
      StringStays(buf, buf', start, argv[k], args[k]);
    }
    hide StringAt;
  }

  datatype Found = AtEnd | NoRoom | OpenQuote | Argument

  /** One turn of the loop over the line: skips blanks and, if there is an argument and room for
      it, lays it where it was found. */
  method NextArg(buf: array<char>, n: nat, from: nat, room: nat, ghost line: seq<char>)
    returns (found: Found, start: nat, rd: nat, ghost text: string)
    requires from <= n < buf.Length == |line| && buf[..][from..] == line[from..]
    requires line[n] == NUL && IsCString(line[..n])
    modifies buf
    ensures from <= start <= rd <= n && buf[..][rd..] == line[rd..] && buf[..][..start] == old(buf[..])[..start]
    ensures match found
            case AtEnd => Parse(line[from..n], room) == Args([]) && buf[..] == old(buf[..])
            case NoRoom => Parse(line[from..n], room) == TooMany
            case OpenQuote => Parse(line[from..n], room) == Unterminated
            case Argument =>
              && room > 0 && start < rd && StringAt(buf[..], start, text) && start + |text| < Limit(rd, n)
              && Parse(line[from..n], room) == Cons(text, Parse(line[rd..n], room - 1))
  {
    hide Parse;
    hide ScanArg;
    text := "";
    assert line[0..n] == line[..n];
    Unread(buf[..], line, from, n, 0);
    assert buf[from..n] == buf[..][from..n];
    start := SkipBlanks(buf, n, from, room);
    rd := start;
    SameSuffix(buf[..], line, from, start);
    Unread(buf[..], line, start, n, 0);
    assert buf[start..n] == buf[..][start..n];
    if buf[start] == NUL || buf[start] == '#' {
      ParseEnds(line[start..n], room);
      return AtEnd, start, start, text;
    }
    assert line[start..n][0] == buf[start];
    ParseArg(line[start..n], room);
    if room == 0 {
      return NoRoom, start, start, text;
    }
    ghost var before, scan := buf[..], ScanArg(line[start..n], Unquoted);
    var open;
    rd, open := ArgInPlace(buf, n, start);
    text := scan.text;
    SameSuffix(before, line, start, rd);
    assert buf[..][rd..] == buf[rd..] && before[rd..] == old(buf[..])[rd..];
    assert buf[..][..start] == buf[..start];
    assert line[start..n][scan.used..] == line[rd..n];
    found := if open then OpenQuote else Argument;
  }

  /** The parsing part of cmd_exec: splits the line in place, and the argv strings are the
      arguments that the line stands for. */
  method ParseInPlace(buf: array<char>, n: nat, argcMax: nat) returns (outcome: Outcome)
    requires n < buf.Length && buf[n] == NUL && IsCString(buf[..n])
    modifies buf
    ensures match Parse(old(buf[..n]), argcMax)
            case Args(args) => outcome.Parsed? && Laid(buf[..], outcome.argv, args, n + 1)
            case TooMany => outcome == TooManyArguments
            case Unterminated => outcome == UnterminatedQuote
    ensures buf[n..] == old(buf[n..])
  {
    hide Parse;
    hide Laid;
    hide StringAt;
    ghost var line := buf[..];
    ghost var args: seq<string> := [];
    var argv: seq<nat> := [];
    var rd := 0;
    assert line[0..n] == old(buf[..n]) && line[..n] == line[0..n];
    LaidNothing(buf[..], Limit(0, n));
    PrependNothing(Parse(line[..n], argcMax));
    while true
      invariant rd <= n && buf[..][rd..] == line[rd..] && |argv| == |args| <= argcMax
      invariant Laid(buf[..], argv, args, Limit(rd, n))
      invariant Parse(line[..n], argcMax) == Prepend(args, Parse(line[rd..n], argcMax - |args|))
      decreases n - rd
    {
      ghost var before, rd0, text := buf[..], rd, "";
      var found, start;
      found, start, rd, text := NextArg(buf, n, rd, argcMax - |argv|, line);
      SameSuffix(buf[..], line, rd, n);
      assert buf[..][n..] == buf[n..] && line[n..] == old(buf[n..]);
      if found == NoRoom {
        return TooManyArguments;
      }
      if found == OpenQuote {
        return UnterminatedQuote;
      }
      LaidLater(before, argv, args, Limit(rd0, n), Limit(start, n));
      if found == AtEnd {
        LaidLater(before, argv, args, Limit(start, n), n + 1);
        break;
      }
      LayAnother(before, buf[..], argv, args, start, text, Limit(rd, n));
      PrependMore(args, text, Parse(line[rd..n], argcMax - |args| - 1));
      argv, args := argv + [start], args + [text];
    }
    assert args + [] == args;
    outcome := Parsed(argv);
  }

  lemma SameSuffix(a: seq<char>, b: seq<char>, i: nat, j: nat)
    requires i <= j <= |a| == |b| && a[i..] == b[i..]
    ensures a[j..] == b[j..]
  {
    assert a[j..] == a[i..][j - i..] && b[j..] == b[i..][j - i..];
  }

  lemma LaidNothing(buf: seq<char>, limit: nat)
    ensures Laid(buf, [], [], limit)
  {
  }

  lemma LaidLater(buf: seq<char>, argv: seq<nat>, args: seq<string>, limit: nat, limit': nat)
    requires Laid(buf, argv, args, limit) && limit <= limit'
    ensures Laid(buf, argv, args, limit')
  {
  }

  lemma PrependNothing(r: Tokens.Parsed)
    ensures Prepend([], r) == r
  {
    if r.Args? { assert [] + r.args == r.args; }
  }

  lemma ParseEnds(s: string, room: nat)
    requires s == [] || s[0] == '#'
    ensures Parse(s, room) == Args([])
  {
  }
}
