/**
 The bounded string helpers of os/util.c.  A C string is the sequence of characters in
 front of its terminating NUL, and None is the NULL pointer.
 */
module CString {
  import opened Options

  const NUL := '\0'

  predicate IsCString(s: string) { NUL !in s }

  /** What reading character `i` of the string in memory gives. */
  function At(s: string, i: nat): char
    requires i <= |s|
  {
    if i < |s| then s[i] else NUL
  }

  function Min(a: nat, b: nat): nat { if a <= b then a else b }

  function ConstrainedLength(s: Option<string>, max: nat): nat
  {
    if s.None? then 0 else Min(|s.value|, max)
  }

  method StrlenConstrained(s: Option<string>, max: nat) returns (len: nat)
    requires s.Some? ==> IsCString(s.value)
    ensures len == ConstrainedLength(s, max)
  {
    len := 0;
    if s.Some? {
      var left := max;
      while left > 0
        invariant len <= |s.value| && len + left == max
        decreases left
      {
        if At(s.value, len) == NUL {
          break;
        }
        len := len + 1;
        left := left - 1;
      }
    }
  }

  method StrIsTooLong(s: string, max: nat) returns (tooLong: bool)
    requires IsCString(s)
    ensures tooLong <==> |s| >= max
  {
    var left := max;
    var i := 0;
    while left > 0
      invariant i <= |s| && i + left == max
      decreases left
    {
      if At(s, i) == NUL {
        return false;
      }
      i := i + 1;
      left := left - 1;
    }
    return true;
  }

  /** Length of the text in front of the first slash. */
  function ComponentLength(s: string): (n: nat)
    ensures n <= |s| && '/' !in s[..n]
    ensures n < |s| ==> s[n] == '/'
  {
    if s == [] || s[0] == '/' then 0
    else
      var n := 1 + ComponentLength(s[1..]);
      assert s[..n] == [s[0]] + s[1..][..n - 1];
      n
  }

  /** A prefix without a slash is no longer than the component. */
  lemma {:induction false} ComponentLengthBound(s: string, n: nat)
    requires n <= |s| && '/' !in s[..n]
    ensures n <= ComponentLength(s)
  {
    if n > 0 {
      assert s[..n] == [s[0]] + s[1..][..n - 1];
      ComponentLengthBound(s[1..], n - 1);
    }
  }

  method StrlenPathComponent(s: string, from: nat, max: nat) returns (len: nat)
    requires IsCString(s) && from <= |s|
    ensures len == Min(ComponentLength(s[from..]), max)
  {
    len := 0;
    var left := max;
    while left > 0
      invariant from + len <= |s| && len + left == max
      invariant '/' !in s[from..][..len]
      decreases left
    {
      var c := At(s, from + len);
      if c == '/' || c == NUL {
        break;
      }
      assert s[from..][..len + 1] == s[from..][..len] + [c];
      len := len + 1;
      left := left - 1;
    }
    ComponentLengthBound(s[from..], len);
    var n := ComponentLength(s[from..]);
    assert len < n ==> s[from..][..n][len] == s[from + len];
  }

  /** The text that strcpy_constrained leaves in a buffer of `max` characters. */
  function Truncated(src: Option<string>, max: nat): string
    requires max >= 1
  {
    if src.None? then "" else src.value[..Min(|src.value|, max - 1)]
  }

  method StrcpyConstrained(dest: array<char>, src: Option<string>, max: nat)
    requires 1 <= max <= dest.Length
    requires src.Some? ==> IsCString(src.value)
    modifies dest
    ensures var t := Truncated(src, max); dest[..] == t + [NUL] + old(dest[..])[|t| + 1..]
  {
    ghost var was := dest[..];
    var i := 0;
    if src.Some? {
      var left := max;
      while left > 1
        invariant i <= |src.value| && i + left == max && left >= 1
        invariant forall j :: 0 <= j < i ==> dest[j] == src.value[j]
        invariant forall j :: i <= j < dest.Length ==> dest[j] == was[j]
        decreases left
      {
        var c := At(src.value, i);
        if c == NUL {
          break;
        }
        dest[i] := c;
        i := i + 1;
        left := left - 1;
      }
    }
    dest[i] := NUL;
    TextLaid(dest[..], Truncated(src, max), was);
  }

  /** A text, its NUL and the old rest make up the buffer. */
  lemma TextLaid(b: string, t: string, was: string)
    requires |b| == |was| && |t| < |b| && b[|t|] == NUL
    requires forall j :: 0 <= j < |t| ==> b[j] == t[j]
    requires forall j :: |t| < j < |b| ==> b[j] == was[j]
    ensures b == t + [NUL] + was[|t| + 1..]
  {
    assert b[..|t|] == t && b[|t| + 1..] == was[|t| + 1..];
    assert b == b[..|t|] + [b[|t|]] + b[|t| + 1..];
  }
}
