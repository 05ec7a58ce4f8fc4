/**
 Pathname resolution as a fold over components (os/inode.c, include/mosnix/inode.h): the
 kernel resolves "." and ".." by the text of the path, without looking at the filesystem.
 A stack of components stands for the absolute path that it renders to.
 */
module PathSpec {
  import opened Options
  import opened CString
  import opened Errno

  // --- Components and stacks ------------------------------------------------------

  /** The components of a path, in order; one of more than `max` characters is taken in
      pieces, as the bounded scan does. */
  function Components(path: string, max: nat): seq<string>
    requires max >= 1
    decreases |path|
  {
    if path == [] then []
    else if path[0] == '/' then Components(path[1..], max)
    else
      var n := Min(ComponentLength(path), max);
      [path[..n]] + Components(path[n..], max)
  }

  /** A name that can be on the stack. */
  predicate GoodName(c: string)
  {
    c != "" && '/' !in c && NUL !in c && c != "." && c != ".."
  }

  predicate GoodStack(stack: seq<string>) { forall i :: 0 <= i < |stack| ==> GoodName(stack[i]) }

  /** "." is skipped, ".." pops and stops at the root, any other component is pushed. */
  function Step(stack: seq<string>, c: string): seq<string>
  {
    if c == "." then stack
    else if c == ".." then if stack == [] then [] else stack[..|stack| - 1]
    else stack + [c]
  }

  predicate IsPush(c: string) { c != "." && c != ".." }

  function Tail(stack: seq<string>): string
  {
    if stack == [] then "" else Tail(stack[..|stack| - 1]) + "/" + stack[|stack| - 1]
  }

  /** The canonical absolute path. */
  function Render(stack: seq<string>): (s: string)
    ensures |s| >= 1
  {
    if stack == [] then "/" else Tail(stack)
  }

  // --- Resolution -------------------------------------------------------------------

  datatype Resolved = TooLong | Path(stack: seq<string>)

  /** Folds the components over the stack; fails at the first push that no longer fits. */
  function Resolve(stack: seq<string>, comps: seq<string>, outlen: nat): Resolved
    decreases |comps|
  {
    if comps == [] then Path(stack)
    else
      var next := Step(stack, comps[0]);
      if IsPush(comps[0]) && |Render(next)| >= outlen then TooLong
      else Resolve(next, comps[1..], outlen)
  }

  /** There is a slash after the last component other than "."; `d` says so of the text before. */
  predicate SlashAfter(path: string, max: nat, d: bool)
    requires max >= 1
    decreases |path|
  {
    if path == [] then d
    else if path[0] == '/' then SlashAfter(path[1..], max, true)
    else
      var n := Min(ComponentLength(path), max);
      SlashAfter(path[n..], max, d && path[..n] == ".")
  }

  /** Outcome of inode_path_to_abs: an error code, or a path and its directory flag. */
  datatype AbsPath = Err(code: int) | Abs(stack: seq<string>, isDir: bool)

  function Finish(r: Resolved, slash: bool): AbsPath
  {
    match r
    case TooLong => Err(-ENAMETOOLONG)
    case Path(stack) => Abs(stack, stack == [] || slash)
  }

  function ResolveFrom(stack: seq<string>, path: string, outlen: nat, max: nat): AbsPath
    requires max >= 1
  {
    Finish(Resolve(stack, Components(path, max), outlen), SlashAfter(path, max, false))
  }

  /** inode_path_to_abs for a process whose working directory is `cwd`. */
  function PathToAbs(cwd: seq<string>, pathname: Option<string>, outlen: nat, max: nat): AbsPath
    requires max >= 1
  {
    if pathname.None? then Err(-EFAULT)
    else
      var path := pathname.value;
      if path == "" then Err(-EINVAL)
      else if |path| >= max - 1 then Err(-ENAMETOOLONG)
      else if path[0] == '/' then
        if outlen < 2 then Err(-ENAMETOOLONG) else ResolveFrom([], path[1..], outlen, max)
      else if |Render(cwd)| + 1 >= outlen then Err(-ENAMETOOLONG)
      else ResolveFrom(cwd, path, outlen, max)
  }

  // --- Facts about rendering ----------------------------------------------------------

  lemma TailPush(stack: seq<string>, c: string)
    ensures Tail(stack + [c]) == Tail(stack) + "/" + c
  {
    assert (stack + [c])[..|stack|] == stack;
  }

  /** A push appends a slash, unless at the root, and the name. */
  lemma RenderPush(stack: seq<string>, c: string)
    ensures Render(stack + [c]) == (if stack == [] then "/" else Render(stack) + "/") + c
  {
    TailPush(stack, c);
    assert stack == [] ==> Tail(stack) + "/" + c == "/" + c;
  }

  /** A pop removes the last name and the slash in front of it. */
  lemma RenderPop(stack: seq<string>)
    requires stack != []
    ensures var rest, c := stack[..|stack| - 1], stack[|stack| - 1];
            Render(stack) == (if rest == [] then "/" else Render(rest) + "/") + c
  {
    var rest, c := stack[..|stack| - 1], stack[|stack| - 1];
    RenderPush(rest, c);
    assert rest + [c] == stack;
  }

  lemma {:induction false} RenderIsLong(stack: seq<string>)
    requires GoodStack(stack)
    ensures |Render(stack)| > 1 <==> stack != []
    ensures Render(stack)[0] == '/' && NUL !in Render(stack)
  {
    if stack != [] {
      RenderPop(stack);
      RenderIsLong(stack[..|stack| - 1]);
    }
  }

  // --- Facts about components ------------------------------------------------------------

  lemma {:induction false} ComponentsAreClean(path: string, max: nat)
    requires max >= 1 && IsCString(path)
    ensures forall i :: 0 <= i < |Components(path, max)| ==>
              var c := Components(path, max)[i]; c != "" && '/' !in c && NUL !in c
    decreases |path|
  {
    if path != [] {
      if path[0] == '/' {
        ComponentsAreClean(path[1..], max);
      } else {
        var n := Min(ComponentLength(path), max);
        assert forall ch :: ch in path[..n] ==> ch in path[..ComponentLength(path)];
        ComponentsAreClean(path[n..], max);
      }
    }
  }

  /** Resolution keeps stacks canonical and inside the buffer. */
  lemma {:induction false} ResolveIsGood(stack: seq<string>, comps: seq<string>, outlen: nat)
    requires GoodStack(stack) && |Render(stack)| < outlen
    requires forall i :: 0 <= i < |comps| ==> comps[i] != "" && '/' !in comps[i] && NUL !in comps[i]
    ensures match Resolve(stack, comps, outlen)
            case TooLong => true
            case Path(s) => GoodStack(s) && |Render(s)| < outlen
    decreases |comps|
  {
    if comps != [] {
      var next := Step(stack, comps[0]);
      if comps[0] == ".." && stack != [] {
        RenderPop(stack);
      }
      if !IsPush(comps[0]) || |Render(next)| < outlen {
        ResolveIsGood(next, comps[1..], outlen);
      }
    }
  }
}
