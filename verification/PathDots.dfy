/**
 What pathname resolution means for the components of a path: the result is the names that no
 later ".." takes back, and each kind of last component has its effect on the path and the
 directory flag.
 */
module PathDots {
  import opened Options
  import opened CString
  import opened Errno
  import opened PathSpec
  import opened PathLaws

  // --- From the right --------------------------------------------------------------------

  /** The names that are left, read from the right: `ups` counts the ".." that have not yet
      taken a name back. */
  function Kept(comps: seq<string>, ups: nat): seq<string>
  {
    if comps == [] then []
    else
      var front, c := comps[..|comps| - 1], comps[|comps| - 1];
      if c == "." then Kept(front, ups)
      else if c == ".." then Kept(front, ups + 1)
      else if ups > 0 then Kept(front, ups - 1)
      else Kept(front, 0) + [c]
  }

  function Dropped(s: seq<string>, n: nat): seq<string> { if n <= |s| then s[..|s| - n] else [] }

  lemma {:induction false} KeptIsFold(comps: seq<string>, ups: nat)
    ensures Kept(comps, ups) == Dropped(Fold([], comps), ups)
  {
    if comps != [] {
      var front, c := comps[..|comps| - 1], comps[|comps| - 1];
      KeptIsFold(front, if c == "." then ups else if c == ".." then ups + 1 else if ups > 0 then ups - 1 else 0);
    }
  }

  lemma {:induction false} FoldConcat(a: seq<string>, b: seq<string>)
    ensures Fold([], a + b) == Fold(Fold([], a), b)
    decreases |b|
  {
    if b == [] {
      assert a + b == a;
    } else {
      assert (a + b)[..|a + b| - 1] == a + b[..|b| - 1];
      FoldConcat(a, b[..|b| - 1]);
    }
  }

  /** Resolution that does not overflow leaves exactly the names that no later ".." takes back;
      ".." at the root takes nothing back. */
  lemma ResolveIsKept(stack: seq<string>, comps: seq<string>, outlen: nat)
    requires GoodStack(stack) && Resolve(stack, comps, outlen).Path?
    ensures Resolve(stack, comps, outlen).stack == Kept(stack + comps, 0)
  {
    ResolveIsFold(stack, comps, outlen);
    FoldOfNames(stack);
    FoldConcat(stack, comps);
    KeptIsFold(stack + comps, 0);
    hide Fold;
    hide Resolve;
  }

  // --- One component more ----------------------------------------------------------------

  /** A component as it stands between slashes; nothing at all stands for a last slash. */
  predicate IsComponent(c: string) { c == "" || c == "." || c == ".." || GoodName(c) }

  /** The result of going on from `stack` to the component `c`, where `slash` says whether there
      is a slash in front of it. */
  function Onward(stack: seq<string>, c: string, slash: bool, outlen: nat): AbsPath
  {
    if c == "" || c == "." then Abs(stack, slash || stack == [])
    else if c == ".." then Abs(if stack == [] then [] else stack[..|stack| - 1], |stack| <= 1)
    else if |Render(stack)| + (if stack == [] then 0 else 1) + |c| >= outlen then Err(-ENAMETOOLONG)
    else Abs(stack + [c], false)
  }

  lemma OneComponent(c: string, max: nat)
    requires IsComponent(c) && |c| < max
    ensures Components(c, max) == (if c == "" then [] else [c])
    ensures SlashAfter(c, max, false) == false
    ensures SlashAfter(c, max, true) == (c == "" || c == ".")
  {
    if c != "" {
      ComponentLengthBound(c, |c|);
      assert c[..|c|] == c && c[|c|..] == [];
    }
  }

  lemma ResolveOne(stack: seq<string>, c: string, slash: bool, outlen: nat)
    requires IsComponent(c)
    ensures Finish(Resolve(stack, if c == "" then [] else [c], outlen), slash && (c == "" || c == ".")) ==
            Onward(stack, c, slash, outlen)
  {
    if c != "" {
      RenderPush(stack, c);
      assert [c][1..] == [];
      hide Render;
    }
  }

  /** The path p/c, when p resolves: a last slash and "." stay there, ".." goes to the parent and
      at the root stays there, and a name is appended or does not fit. */
  lemma ExtendPath(cwd: seq<string>, p: string, c: string, outlen: nat, max: nat)
    requires max >= 1 && IsComponent(c) && |p| + 1 + |c| < max - 1 && PathToAbs(cwd, Some(p), outlen, max).Abs?
    ensures PathToAbs(cwd, Some(p + "/" + c), outlen, max) ==
            Onward(PathToAbs(cwd, Some(p), outlen, max).stack, c, true, outlen)
  {
    var start, p' := if p[0] == '/' then [] else cwd, if p[0] == '/' then p[1..] else p;
    var path := p + "/" + c;
    assert path[0] == p[0] && |path| == |p| + 1 + |c|;
    assert p[0] == '/' ==> path[1..] == p' + "/" + c;
    ExtendFrom(start, p', c, outlen, max);
    hide ResolveFrom;
    hide Onward;
    hide IsComponent;
    hide Render;
  }

  lemma ExtendFrom(stack: seq<string>, p: string, c: string, outlen: nat, max: nat)
    requires max >= 1 && IsComponent(c) && |c| < max
    ensures var r := ResolveFrom(stack, p, outlen, max);
            ResolveFrom(stack, p + "/" + c, outlen, max) == if r.Abs? then Onward(r.stack, c, true, outlen) else r
  {
    hide Components;
    hide SlashAfter;
    hide Resolve;
    hide Onward;
    OneComponent(c, max);
    ComponentsConcat(p, c, max);
    ResolveConcat(stack, Components(p, max), Components(c, max), outlen);
    SlashAfterConcat(p, c, max, false);
    var r := Resolve(stack, Components(p, max), outlen);
    if r.Path? {
      ResolveOne(r.stack, c, true, outlen);
    }
  }

  /** If p does not fit, p/c does not fit either. */
  lemma TooLongStays(cwd: seq<string>, p: string, c: string, outlen: nat, max: nat)
    requires max >= 1 && IsComponent(c) && p != "" && |p| + 1 + |c| < max - 1
    requires PathToAbs(cwd, Some(p), outlen, max).Err?
    ensures PathToAbs(cwd, Some(p), outlen, max) == PathToAbs(cwd, Some(p + "/" + c), outlen, max) ==
            Err(-ENAMETOOLONG)
  {
    var start, p' := if p[0] == '/' then [] else cwd, if p[0] == '/' then p[1..] else p;
    var path := p + "/" + c;
    assert path[0] == p[0] && |path| == |p| + 1 + |c|;
    assert p[0] == '/' ==> path[1..] == p' + "/" + c;
    ExtendFrom(start, p', c, outlen, max);
    hide Render;
  }

  /** A path of one component, from the working directory. */
  lemma FirstComponentPath(cwd: seq<string>, c: string, outlen: nat, max: nat)
    requires IsComponent(c) && c != "" && |c| < max - 1
    ensures PathToAbs(cwd, Some(c), outlen, max) ==
            if |Render(cwd)| + 1 >= outlen then Err(-ENAMETOOLONG) else Onward(cwd, c, false, outlen)
  {
    OneComponent(c, max);
    ResolveOne(cwd, c, false, outlen);
    hide Components;
    hide SlashAfter;
    hide Resolve;
    hide Onward;
    hide Render;
  }

  /** A path of a slash and one component, from the root. */
  lemma FirstComponentAbsolute(cwd: seq<string>, c: string, outlen: nat, max: nat)
    requires IsComponent(c) && 1 + |c| < max - 1
    ensures PathToAbs(cwd, Some("/" + c), outlen, max) ==
            if outlen < 2 then Err(-ENAMETOOLONG) else Onward([], c, false, outlen)
  {
    OneComponent(c, max);
    ResolveOne([], c, false, outlen);
    assert ("/" + c)[1..] == c;
    hide Components;
    hide SlashAfter;
    hide Resolve;
    hide Render;
  }

  // --- Up and down ------------------------------------------------------------------------

  /** ".." names the parent, and the root's parent is the root. */
  lemma ParentOf(stack: seq<string>, outlen: nat, max: nat)
    requires GoodStack(stack) && |Render(stack)| + 1 < outlen && max > 3
    ensures PathToAbs(stack, Some(".."), outlen, max) ==
            if stack == [] then Abs([], true) else Abs(stack[..|stack| - 1], |stack| == 1)
  {
    FirstComponentPath(stack, "..", outlen, max);
    hide PathToAbs;
    hide Render;
  }

  /** Going down to a name and up again leads back; so does staying. */
  lemma DownAndUp(cwd: seq<string>, p: string, c: string, outlen: nat, max: nat)
    requires max >= 1 && GoodName(c) && |p| + 1 + |c| + 3 < max - 1
    requires PathToAbs(cwd, Some(p), outlen, max).Abs? && PathToAbs(cwd, Some(p + "/" + c), outlen, max).Abs?
    ensures PathOf(PathToAbs(cwd, Some(p + "/" + c + "/.."), outlen, max)) ==
            PathOf(PathToAbs(cwd, Some(p), outlen, max))
    ensures PathOf(PathToAbs(cwd, Some(p + "/."), outlen, max)) == PathOf(PathToAbs(cwd, Some(p), outlen, max))
  {
    hide PathToAbs;
    hide Render;
    ExtendPath(cwd, p, c, outlen, max);
    ExtendPath(cwd, p, ".", outlen, max);
    ExtendPath(cwd, p + "/" + c, "..", outlen, max);
    assert p + "/" + c + "/.." == p + "/" + c + "/" + ".." && p + "/." == p + "/" + ".";
  }

  /** Which errors there are: no path, an empty one, and one that is too long. */
  lemma PathErrors(cwd: seq<string>, path: Option<string>, outlen: nat, max: nat)
    requires max >= 1
    ensures var r := PathToAbs(cwd, path, outlen, max);
            && (path.None? <==> r == Err(-EFAULT)) && (path == Some("") <==> r == Err(-EINVAL))
            && (path.Some? && path.value != "" ==> r.Abs? || r == Err(-ENAMETOOLONG))
            && (path.Some? && |path.value| >= max - 1 ==> r.Err?)
  {
    hide Resolve;
    hide Components;
    hide SlashAfter;
  }

  // --- Working directories ------------------------------------------------------------------

  /** A process starts in the directory of its parent, or in /root; chdir moves it alone, to where
      its path resolves from where it is, and only there; no other process moves. */
  lemma CwdEffect(cwds: map<nat, seq<string>>, step: CwdStep, max: nat)
    requires CwdEnabled(cwds, step) && max >= 1
    ensures var after := CwdApply(cwds, step, max);
            && (forall q :: q in cwds && q != step.pid ==> q in after && after[q] == cwds[q])
            && (forall q :: q in after && q != step.pid ==> q in cwds)
            && (step.Exit? <==> step.pid !in after)
            && (step.Create? ==>
                  if step.parent.Some? then after[step.pid] == cwds[step.parent.value]
                  else Render(after[step.pid]) == "/root")
            && (step.Chdir? ==>
                  var r := PathToAbs(cwds[step.pid], step.path, max, max);
                  after[step.pid] == if step.found && r.Abs? then r.stack else cwds[step.pid])
  {
    RenderPush([], "root");
    assert [] + ["root"] == ["root"];
    hide PathToAbs;
    hide Render;
  }
}
