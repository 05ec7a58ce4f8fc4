/**
 inode_resolve_relative and inode_path_to_abs of os/inode.c as they run: in place in a
 bounded output buffer, with a moving position, and a backwards scan for "..".
 */
module PathBuffer {
  import opened Options
  import opened CString
  import opened Errno
  import opened PathSpec

  /** The buffer holds `s` as a C string. */
  predicate HoldsString(buf: seq<char>, s: string)
  {
    |s| < |buf| && buf[..|s|] == s && buf[|s|] == NUL
  }

  /** The backwards scan of ".." : drops the last component from the output path. */
  method StripLast(out: array<char>, posn: nat, ghost stack: seq<string>) returns (posn': nat)
    requires 1 <= posn <= out.Length && GoodStack(stack) && stack != [] && out[..posn] == Render(stack)
    ensures 1 <= posn' <= posn && out[..posn'] == Render(stack[..|stack| - 1])
    ensures posn' > 1 <==> |stack| > 1
  {
    ghost var rest, c := stack[..|stack| - 1], stack[|stack| - 1];
    ghost var base := if rest == [] then 1 else |Render(rest)| + 1;
    RenderPop(stack);
    RenderIsLong(rest);
    hide Render;
    forall k | base <= k < posn ensures out[k] != '/' {
      assert out[k] == out[..posn][k] == c[k - base];
    }
    assert base > 1 ==> out[base - 1] == out[..posn][base - 1] == '/';
    posn' := posn;
    while posn' > 1 && out[posn' - 1] != '/'
      invariant base <= posn' <= posn
    {
      posn' := posn' - 1;
    }
    if posn' > 1 {
      posn' := posn' - 1;
    }
    assert out[..posn'] == out[..posn][..posn'];
  }

  /** memcpy into the buffer. */
  method CopyInto(out: array<char>, at: nat, text: string)
    requires at + |text| <= out.Length
    modifies out
    ensures out[..at + |text|] == old(out[..at]) + text
    ensures out[at + |text|..] == old(out[at + |text|..])
  {
    forall j | 0 <= j < |text| {
      out[at + j] := text[j];
    }
    assert out[..at] == old(out[..at]);
    assert out[at..at + |text|] == text;
    assert out[..at + |text|] == out[..at] + out[at..at + |text|];
  }

  /** Adds one component to the in-progress output path, if it fits. */
  method Append(out: array<char>, outlen: nat, posn: nat, c: string, ghost stack: seq<string>)
    returns (ok: bool, posn': nat)
    requires 1 <= posn < outlen <= out.Length && GoodStack(stack) && out[..posn] == Render(stack)
    modifies out
    ensures ok <==> |Render(stack + [c])| < outlen
    ensures ok ==> posn' < outlen && out[..posn'] == Render(stack + [c])
    ensures out[outlen..] == old(out[outlen..])
  {
    hide Render;
    RenderPush(stack, c);
    RenderIsLong(stack);
    ghost var base := if stack == [] then "/" else Render(stack) + "/";
    posn' := posn;
    if posn' > 1 {
      CopyInto(out, posn', "/");
      posn' := posn' + 1;
      assert out[outlen..] == old(out[outlen..]) by {
        assert out[outlen..] == out[posn'..][outlen - posn'..];
        assert old(out[outlen..]) == old(out[posn'..])[outlen - posn'..];
      }
    }
    assert out[..posn'] == base;
    if posn' + |c| >= outlen {
      return false, posn';
    }
    ghost var rest := out[outlen..];
    assert rest == out[posn' + |c|..][outlen - posn' - |c|..];
    CopyInto(out, posn', c);
    posn' := posn' + |c|;
    assert out[outlen..] == out[posn'..][outlen - posn'..];
    return true, posn';
  }

  /** Skips separators; what is left has the same components. */
  method SkipSlashes(path: string, from: nat, max: nat) returns (i: nat)
    requires from <= |path| && IsCString(path) && max >= 1
    ensures from <= i <= |path| && (i < |path| ==> path[i] != '/' && path[i] != NUL)
    ensures Components(path[i..], max) == Components(path[from..], max)
    ensures forall d :: SlashAfter(path[from..], max, d) == SlashAfter(path[i..], max, d || i > from)
  {
    i := from;
    while At(path, i) == '/'
      invariant from <= i <= |path|
      invariant Components(path[i..], max) == Components(path[from..], max)
      invariant forall d :: SlashAfter(path[from..], max, d) == SlashAfter(path[i..], max, d || i > from)
      decreases |path| - i
    {
      assert path[i..][1..] == path[i + 1..];
      i := i + 1;
    }
  }

  /** One turn of the loop takes one component off the path. */
  lemma NextComponent(path: string, i: nat, len: nat, max: nat)
    requires i < |path| && path[i] != '/' && IsCString(path)
    requires max >= 1 && len == Min(ComponentLength(path[i..]), max)
    ensures 1 <= len && i + len <= |path|
    ensures var c := path[i..i + len];
            && c != "" && '/' !in c && NUL !in c
            && Components(path[i..], max) == [c] + Components(path[i + len..], max)
            && forall d :: SlashAfter(path[i..], max, d) == SlashAfter(path[i + len..], max, d && c == ".")
  {
    assert path[i..][..len] == path[i..i + len] && path[i..][len..] == path[i + len..];
    ComponentsAreClean(path[i..], max);
    assert Components(path[i..], max)[0] == path[i..i + len];
  }

  lemma ResolveOne(stack: seq<string>, c: string, rest: seq<string>, outlen: nat)
    ensures Resolve(stack, [c] + rest, outlen) ==
            if IsPush(c) && |Render(Step(stack, c))| >= outlen then TooLong else Resolve(Step(stack, c), rest, outlen)
  {
    assert ([c] + rest)[1..] == rest;
  }

  /** inode_resolve_relative. */
  method ResolveRelative(out: array<char>, outlen: nat, start: nat, path: string, max: nat, ghost stack: seq<string>)
    returns (r: int)
    requires 1 <= start < outlen <= out.Length && GoodStack(stack) && out[..start] == Render(stack)
    requires IsCString(path) && max >= 1
    modifies out
    ensures match ResolveFrom(stack, path, outlen, max)
            case Err(code) => r == code
            case Abs(s, isDir) =>
              && r == (if isDir then 1 else 0)
              && GoodStack(s) && HoldsString(out[..outlen], Render(s))
    ensures out[outlen..] == old(out[outlen..])
  {
    hide Render;
    hide Resolve;
    hide Components;
    hide SlashAfter;
    hide ComponentLength;
    var posn := start;
    var i := 0;
    var isdir := posn == 1;
    ghost var cur, d := stack, false;
    RenderIsLong(stack);
    assert path[0..] == path;
    while true
      invariant i <= |path| && 1 <= posn < outlen
      invariant GoodStack(cur) && out[..posn] == Render(cur) && out[outlen..] == old(out[outlen..])
      invariant isdir <==> cur == [] || d
      invariant Resolve(stack, Components(path, max), outlen) == Resolve(cur, Components(path[i..], max), outlen)
      invariant SlashAfter(path, max, false) == SlashAfter(path[i..], max, d)
      decreases |path| - i
    {
      var next := SkipSlashes(path, i, max);
      if next > i {
        isdir := true;
        d := true;
      }
      i := next;
      if At(path, i) == NUL {
        break;
      }
      var len := StrlenPathComponent(path, i, max);
      NextComponent(path, i, len, max);
      var c := path[i..i + len];
      ResolveOne(cur, c, Components(path[i + len..], max), outlen);
      RenderIsLong(cur);
      if path[i] == '.' && len == 1 {
        assert c == ".";
      } else if path[i] == '.' && len == 2 && path[i + 1] == '.' {
        assert c == "..";
        if posn > 1 {
          posn := StripLast(out, posn, cur);
          isdir := posn == 1;
        } else {
          isdir := true;
        }
        cur, d := Step(cur, c), false;
      } else {
        assert IsPush(c) by { assert c[0] == path[i] && (len > 1 ==> c[1] == path[i + 1]); }
        var ok;
        ok, posn := Append(out, outlen, posn, c, cur);
        if !ok {
          return -ENAMETOOLONG;
        }
        cur, d, isdir := Step(cur, c), false, false;
      }
      i := i + len;
    }
    assert path[i..] == [];
    ResolveNothing(cur, outlen, max, d);
    assert out[..posn] == Render(cur);
    out[posn] := NUL;
    assert out[..outlen][..posn] == Render(cur);
    return if isdir then 1 else 0;
  }

  lemma ResolveNothing(stack: seq<string>, outlen: nat, max: nat, d: bool)
    requires max >= 1
    ensures Resolve(stack, Components([], max), outlen) == Path(stack) && SlashAfter([], max, d) == d
  {
  }

  /** inode_path_to_abs.  `max` is CONFIG_PATH_MAX, which is also the size of the cwd buffer. */
  method InodePathToAbs(out: array<char>, outlen: nat, pathname: Option<string>, cwd: string, max: nat,
                        ghost stack: seq<string>) returns (r: int)
    requires outlen <= out.Length && max >= 1
    requires GoodStack(stack) && cwd == Render(stack) && |cwd| < max
    requires pathname.Some? ==> IsCString(pathname.value)
    modifies out
    ensures match PathToAbs(stack, pathname, outlen, max)
            case Err(code) => r == code
            case Abs(s, isDir) =>
              && r == (if isDir then 1 else 0)
              && GoodStack(s) && HoldsString(out[..outlen], Render(s))
    ensures out[outlen..] == old(out[outlen..])
  {
    hide ResolveFrom;
    if pathname.None? {
      return -EFAULT;
    }
    var path := pathname.value;
    if At(path, 0) == NUL {
      return -EINVAL;
    }
    var tooLong := StrIsTooLong(path, max - 1);
    if tooLong {
      return -ENAMETOOLONG;
    }
    if path[0] == '/' {
      if outlen < 2 {
        return -ENAMETOOLONG;
      }
      ghost var rest := out[outlen..];
      out[0] := '/';
      assert out[outlen..] == rest && out[..1] == Render([]);
      r := ResolveRelative(out, outlen, 1, path[1..], max, []);
    } else {
      RenderIsLong(stack);
      var posn := StrlenConstrained(Some(cwd), max);
      if posn + 1 >= outlen {
        return -ENAMETOOLONG;
      }
      CopyInto(out, 0, cwd);
      assert out[..posn] == cwd;
      assert out[outlen..] == out[posn..][outlen - posn..] && old(out[outlen..]) == old(out[posn..])[outlen - posn..];
      r := ResolveRelative(out, outlen, posn, path, max, stack);
    }
  }

  /** The C string that a buffer holds. */
  method ReadString(buf: array<char>, ghost s: string) returns (text: string)
    requires IsCString(s) && HoldsString(buf[..], s)
    ensures text == s
  {
    var n := 0;
    assert forall k :: 0 <= k < |s| ==> buf[k] == s[k] by {
      forall k | 0 <= k < |s| ensures buf[k] == s[k] { assert buf[k] == buf[..][..|s|][k]; }
    }
    while buf[n] != NUL
      invariant n <= |s|
      decreases |s| - n
    {
      assert buf[n] == buf[..][n];
      n := n + 1;
    }
    text := buf[..n];
    assert text == buf[..][..|s|];
  }

  lemma ErrorsAreNegative(cwd: seq<string>, pathname: Option<string>, outlen: nat, max: nat)
    requires max >= 1
    ensures PathToAbs(cwd, pathname, outlen, max).Err? ==> PathToAbs(cwd, pathname, outlen, max).code < 0
  {
  }
}
