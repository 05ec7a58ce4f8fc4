/**
 How the shell splits a command line into arguments (shell/command.c), as a function of the
 line: blanks separate arguments, quotes of either kind group, a backslash takes the next
 character as it is except inside single quotes, and '#' starts a comment.
 */
module Tokens {

  predicate IsSpace(ch: char) { ch == ' ' || 0x09 as char <= ch <= 0x0D as char }

  predicate IsQuote(ch: char) { ch == '\'' || ch == '"' }

  /** The quote that is open, if any. */
  datatype Quote = Unquoted | Quoted(mark: char)

  /** One argument: its text, the characters it takes up, and whether a quote is left open. */
  datatype Scan = Scan(text: string, used: nat, open: bool)

  function Emit(text: string, used: nat, rest: Scan): Scan { Scan(text + rest.text, used + rest.used, rest.open) }

  lemma EmitTwice(a: string, i: nat, b: string, j: nat, scan: Scan)
    ensures Emit(a, i, Emit(b, j, scan)) == Emit(a + b, i + j, scan)
  {
    assert a + (b + scan.text) == a + b + scan.text;
  }

  /** The quote after a quote character, and whether the character itself is kept. */
  function AfterQuote(q: Quote, ch: char): (Quote, bool)
  {
    if q == Unquoted then (Quoted(ch), false)
    else if q == Quoted(ch) then (Unquoted, false)
    else (q, true)
  }

  function ScanArg(s: string, q: Quote): (r: Scan)
    ensures r.used <= |s| && |r.text| <= r.used
    ensures r.used < |s| ==> r.used > 0 && |r.text| < r.used
    decreases |s|
  {
    if s == [] then Scan("", 0, q != Unquoted)
    else if IsSpace(s[0]) && q == Unquoted then Scan("", 1, false)
    else if IsQuote(s[0]) then
      var (q', kept) := AfterQuote(q, s[0]);
      Emit(if kept then [s[0]] else "", 1, ScanArg(s[1..], q'))
    else if s[0] == '\\' && q != Quoted('\'') then
      if |s| == 1 then Emit("\\", 1, ScanArg(s[1..], q)) else Emit([s[1]], 2, ScanArg(s[2..], q))
    else Emit([s[0]], 1, ScanArg(s[1..], q))
  }

  function SkipSpaces(s: string): (n: nat)
    ensures n <= |s| && (n < |s| ==> !IsSpace(s[n]))
    ensures forall i :: 0 <= i < n ==> IsSpace(s[i])
  {
    if s == [] || !IsSpace(s[0]) then 0 else
      var n := 1 + SkipSpaces(s[1..]);
      assert forall i :: 1 <= i < n ==> s[i] == s[1..][i - 1];
      n
  }

  datatype Parsed = Args(args: seq<string>) | TooMany | Unterminated

  function Cons(text: string, rest: Parsed): Parsed
  {
    if rest.Args? then Args([text] + rest.args) else rest
  }

  /** The arguments of a line, with room for `room` of them. */
  function Parse(s: string, room: nat): Parsed
    decreases |s|
  {
    var t := s[SkipSpaces(s)..];
    if t == [] || t[0] == '#' then Args([])
    else if room == 0 then TooMany
    else
      var scan := ScanArg(t, Unquoted);
      if scan.open then Unterminated else
        assert scan.used > 0 by { ScanTakesSome(t); }
        Cons(scan.text, Parse(t[scan.used..], room - 1))
  }

  lemma ScanTakesSome(t: string)
    requires t != []
    ensures ScanArg(t, Unquoted).used > 0
  {
  }
}
