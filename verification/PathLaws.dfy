/**
 Laws of pathname resolution: the overflow condition against an unbounded fold, canonical
 paths as fixed points, resolving p and then q as resolving p/q, and the working directory
 of every process over every run.
 */
module PathLaws {
  import opened Options
  import opened CString
  import opened PathSpec

  // --- The bounded fold against the unbounded one -----------------------------------

  /** Resolution with no limit on the length. */
  function Fold(stack: seq<string>, comps: seq<string>): seq<string>
  {
    if comps == [] then stack else Step(Fold(stack, comps[..|comps| - 1]), comps[|comps| - 1])
  }

  lemma {:induction false} FoldFirst(stack: seq<string>, comps: seq<string>)
    requires comps != []
    ensures Fold(stack, comps) == Fold(Step(stack, comps[0]), comps[1..])
  {
    var n := |comps| - 1;
    if n > 0 {
      assert comps[..n][1..] == comps[1..][..n - 1];
      FoldFirst(stack, comps[..n]);
    }
  }

  /** The push of component `k` renders to `outlen` characters or more. */
  predicate Overflows(stack: seq<string>, comps: seq<string>, outlen: nat, k: nat)
    requires k < |comps|
  {
    IsPush(comps[k]) && |Render(Fold(stack, comps[..k + 1]))| >= outlen
  }

  /** Resolution fails exactly when some push renders to `outlen` or more, and otherwise
      gives the unbounded result. */
  lemma {:induction false} ResolveIsFold(stack: seq<string>, comps: seq<string>, outlen: nat)
    ensures Resolve(stack, comps, outlen).TooLong? <==>
              exists k :: 0 <= k < |comps| && Overflows(stack, comps, outlen, k)
    ensures Resolve(stack, comps, outlen).Path? ==> Resolve(stack, comps, outlen).stack == Fold(stack, comps)
    decreases |comps|
  {
    hide Render;
    hide Fold;
    if comps == [] {
      FoldNothing(stack);
    } else {
      var next := Step(stack, comps[0]);
      FoldFirst(stack, comps);
      ResolveIsFold(next, comps[1..], outlen);
      OverflowsFirst(stack, comps, outlen);
      forall k | 0 <= k < |comps| - 1
        ensures Overflows(stack, comps, outlen, k + 1) <==> Overflows(next, comps[1..], outlen, k)
      {
        OverflowsLater(stack, comps, outlen, k);
      }
      hide Overflows;
      forall k | 0 < k < |comps| && Overflows(stack, comps, outlen, k)
        ensures Overflows(next, comps[1..], outlen, k - 1)
      {
        assert Overflows(stack, comps, outlen, k - 1 + 1);
      }
    }
  }

  lemma FoldNothing(stack: seq<string>)
    ensures Fold(stack, []) == stack
  {
  }

  lemma OverflowsFirst(stack: seq<string>, comps: seq<string>, outlen: nat)
    requires comps != []
    ensures Overflows(stack, comps, outlen, 0) <==> IsPush(comps[0]) && |Render(Step(stack, comps[0]))| >= outlen
  {
    hide Render;
    FoldFirst(stack, comps[..1]);
    FoldNothing(Step(stack, comps[0]));
  }

  lemma OverflowsLater(stack: seq<string>, comps: seq<string>, outlen: nat, k: nat)
    requires k < |comps| - 1
    ensures Overflows(stack, comps, outlen, k + 1) <==> Overflows(Step(stack, comps[0]), comps[1..], outlen, k)
  {
    hide Render;
    FoldFirst(stack, comps[..k + 2]);
    assert comps[..k + 2][1..] == comps[1..][..k + 1];
  }

  // --- Sequencing -----------------------------------------------------------------------

  lemma {:induction false} ComponentLengthConcat(p: string, q: string)
    ensures ComponentLength(p + "/" + q) == ComponentLength(p)
  {
    if p != [] && p[0] != '/' {
      ComponentLengthConcat(p[1..], q);
      assert (p + "/" + q)[1..] == p[1..] + "/" + q;
    } else if p == [] {
      assert p + "/" + q == "/" + q;
    }
  }

  lemma {:induction false} ComponentsConcat(p: string, q: string, max: nat)
    requires max >= 1
    ensures Components(p + "/" + q, max) == Components(p, max) + Components(q, max)
    decreases |p|
  {
    hide ComponentLength;
    hide Components;
    var s := p + "/" + q;
    if p == [] {
      assert s[0] == '/' && s[1..] == q;
      SkipSlash(s, max);
      assert Components(p, max) == [] by { NoComponents(max); }
    } else if p[0] == '/' {
      ComponentsConcat(p[1..], q, max);
      assert s[0] == '/' && s[1..] == p[1..] + "/" + q;
      SkipSlash(s, max);
      SkipSlash(p, max);
    } else {
      var n := Min(ComponentLength(p), max);
      ComponentLengthConcat(p, q);
      ComponentsConcat(p[n..], q, max);
      FirstComponent(p, max);
      FirstComponent(s, max);
      assert s[n..] == p[n..] + "/" + q && s[..n] == p[..n];
      assert [p[..n]] + (Components(p[n..], max) + Components(q, max)) ==
             [p[..n]] + Components(p[n..], max) + Components(q, max);
    }
  }

  lemma NoComponents(max: nat)
    requires max >= 1
    ensures Components("", max) == []
  {
  }

  lemma SkipSlash(s: string, max: nat)
    requires max >= 1 && s != "" && s[0] == '/'
    ensures Components(s, max) == Components(s[1..], max)
  {
  }

  lemma FirstComponent(s: string, max: nat)
    requires max >= 1 && s != "" && s[0] != '/'
    ensures var n := Min(ComponentLength(s), max);
            n <= |s| && Components(s, max) == [s[..n]] + Components(s[n..], max)
  {
  }

  lemma {:induction false} ResolveConcat(stack: seq<string>, a: seq<string>, b: seq<string>, outlen: nat)
    ensures Resolve(stack, a + b, outlen) ==
            match Resolve(stack, a, outlen) case TooLong => TooLong case Path(s) => Resolve(s, b, outlen)
    decreases |a|
  {
    if a == [] {
      assert a + b == b;
    } else {
      assert (a + b)[1..] == a[1..] + b;
      ResolveConcat(Step(stack, a[0]), a[1..], b, outlen);
    }
  }

  /** The path that a resolution gives, without the directory flag. */
  function PathOf(r: AbsPath): Resolved
  {
    match r case Err(_) => TooLong case Abs(stack, _) => Path(stack)
  }

  /** Resolving p, and then a relative q from there, is resolving p/q: same path, or both too
      long.  What is excluded is a first result that fills the buffer to its last character,
      which the second call refuses as a starting point. */
  lemma ResolveThenResolve(cwd: seq<string>, p: string, q: string, outlen: nat, max: nat)
    requires max >= 1 && q != "" && q[0] != '/' && |p| + 1 + |q| < max - 1
    requires PathToAbs(cwd, Some(p), outlen, max).Abs?
    requires |Render(PathToAbs(cwd, Some(p), outlen, max).stack)| + 1 < outlen
    ensures var first := PathToAbs(cwd, Some(p), outlen, max).stack;
            PathOf(PathToAbs(first, Some(q), outlen, max)) == PathOf(PathToAbs(cwd, Some(p + "/" + q), outlen, max))
  {
    var start := if p[0] == '/' then [] else cwd;
    var p' := if p[0] == '/' then p[1..] else p;
    assert p[0] == '/' ==> (p + "/" + q)[1..] == p' + "/" + q;
    ComponentsConcat(p', q, max);
    ResolveConcat(start, Components(p', max), Components(q, max), outlen);
  }

  // --- Canonical paths are fixed points -----------------------------------------------------

  lemma PrefixFits(stack: seq<string>, k: nat)
    requires GoodStack(stack) && k <= |stack|
    ensures |Render(stack[..k])| <= |Render(stack)|
    decreases |stack| - k
  {
    if k < |stack| {
      RenderPop(stack[..k + 1]);
      assert stack[..k + 1][..k] == stack[..k];
      PrefixFits(stack, k + 1);
    } else {
      assert stack[..k] == stack;
    }
  }

  lemma {:induction false} FoldOfNames(stack: seq<string>)
    requires GoodStack(stack)
    ensures Fold([], stack) == stack
  {
    if stack != [] {
      FoldOfNames(stack[..|stack| - 1]);
    }
  }

  lemma {:induction false} TailComponents(stack: seq<string>, max: nat)
    requires GoodStack(stack) && max >= 1 && |Tail(stack)| <= max
    ensures Components(Tail(stack), max) == stack && !SlashAfter(Tail(stack), max, false)
  {
    if stack != [] {
      var n := |stack| - 1;
      var rest, c := stack[..n], stack[n];
      TailComponents(rest, max);
      ComponentsConcat(Tail(rest), c, max);
      ComponentLengthBound(c, |c|);
      assert c[..|c|] == c && c[|c|..] == [];
      assert Components(c, max) == [c];
      SlashAfterConcat(Tail(rest), c, max, false);
    }
  }

  lemma {:induction false} SlashAfterConcat(p: string, q: string, max: nat, d: bool)
    requires max >= 1
    ensures SlashAfter(p + "/" + q, max, d) == SlashAfter(q, max, true)
    decreases |p|
  {
    if p == [] {
      assert p + "/" + q == "/" + q && (p + "/" + q)[1..] == q;
    } else if p[0] == '/' {
      assert (p + "/" + q)[1..] == p[1..] + "/" + q;
      SlashAfterConcat(p[1..], q, max, true);
    } else {
      ComponentLengthConcat(p, q);
      var n := Min(ComponentLength(p), max);
      assert (p + "/" + q)[n..] == p[n..] + "/" + q && (p + "/" + q)[..n] == p[..n];
      SlashAfterConcat(p[n..], q, max, d && p[..n] == ".");
    }
  }

  lemma {:induction false} SlashAfterMono(path: string, max: nat)
    requires max >= 1
    ensures SlashAfter(path, max, false) ==> SlashAfter(path, max, true)
    decreases |path|
  {
    if path != [] && path[0] != '/' {
      var n := Min(ComponentLength(path), max);
      if path[..n] == "." { SlashAfterMono(path[n..], max); }
    }
  }

  /** Resolving a canonical path that passes the length check gives it back. */
  lemma CanonicalIsFixed(cwd: seq<string>, stack: seq<string>, outlen: nat, max: nat)
    requires GoodStack(stack) && |Render(stack)| + 1 < max && |Render(stack)| < outlen
    ensures PathToAbs(cwd, Some(Render(stack)), outlen, max) == Abs(stack, stack == [])
  {
    RenderIsLong(stack);
    if stack != [] {
      RenderComponents(stack, max);
      NamesResolve(stack, outlen);
      hide Components;
      hide Resolve;
      hide Tail;
      hide SlashAfter;
    }
  }

  lemma RenderComponents(stack: seq<string>, max: nat)
    requires GoodStack(stack) && stack != [] && |Render(stack)| <= max
    ensures Render(stack)[0] == '/'
    ensures Components(Render(stack)[1..], max) == stack && !SlashAfter(Render(stack)[1..], max, false)
  {
    RenderIsLong(stack);
    TailComponents(stack, max);
    hide Tail;
    var path := Render(stack);
    assert Components(path, max) == Components(path[1..], max);
    assert SlashAfter(path, max, false) == SlashAfter(path[1..], max, true);
    SlashAfterMono(path[1..], max);
  }

  lemma NamesResolve(stack: seq<string>, outlen: nat)
    requires GoodStack(stack) && |Render(stack)| < outlen
    ensures Resolve([], stack, outlen) == Path(stack)
  {
    hide Render;
    hide Fold;
    hide Resolve;
    hide GoodName;
    ResolveIsFold([], stack, outlen);
    FoldOfNames(stack);
    forall k | 0 <= k < |stack| ensures !Overflows([], stack, outlen, k) {
      FoldOfNames(stack[..k + 1]);
      PrefixFits(stack, k + 1);
    }
  }

  // --- Working directories over runs --------------------------------------------------------

  /** What can happen to working directories: process creation, chdir with the outcome of its
      lookup, and the end of a process.  Every buffer has `max` characters. */
  datatype CwdStep =
    | Create(pid: nat, parent: Option<nat>)
    | Chdir(pid: nat, path: Option<string>, found: bool)
    | Exit(pid: nat)

  predicate CwdEnabled(cwds: map<nat, seq<string>>, step: CwdStep)
  {
    match step
    case Create(pid, parent) => pid !in cwds && (parent.Some? ==> parent.value in cwds)
    case Chdir(pid, path, _) => pid in cwds && (path.Some? ==> IsCString(path.value))
    case Exit(pid) => pid in cwds
  }

  function CwdApply(cwds: map<nat, seq<string>>, step: CwdStep, max: nat): map<nat, seq<string>>
    requires CwdEnabled(cwds, step) && max >= 1
  {
    match step
    case Create(pid, None) => cwds[pid := ["root"]]
    case Create(pid, Some(parent)) => cwds[pid := cwds[parent]]
    case Chdir(pid, path, found) =>
      var r := PathToAbs(cwds[pid], path, max, max);
      if r.Abs? && found then cwds[pid := r.stack] else cwds
    case Exit(pid) => cwds - {pid}
  }

  /** A working directory is a canonical absolute path that fits its buffer. */
  predicate CwdOk(stack: seq<string>, max: nat) { GoodStack(stack) && |Render(stack)| < max }

  predicate CwdsOk(cwds: map<nat, seq<string>>, max: nat) { forall pid :: pid in cwds ==> CwdOk(cwds[pid], max) }

  lemma PathToAbsIsGood(cwd: seq<string>, path: Option<string>, outlen: nat, max: nat)
    requires CwdOk(cwd, max) && (path.Some? ==> IsCString(path.value)) && max >= 1
    ensures var r := PathToAbs(cwd, path, outlen, max); r.Abs? ==> CwdOk(r.stack, outlen)
  {
    if PathToAbs(cwd, path, outlen, max).Abs? {
      var absolute := path.value[0] == '/';
      var text := if absolute then path.value[1..] else path.value;
      ComponentsAreClean(text, max);
      ResolveIsGood(if absolute then [] else cwd, Components(text, max), outlen);
    }
  }

  /** In every reachable state every working directory is canonical and fits. */
  lemma {:induction false} EveryCwdIsCanonical(states: seq<map<nat, seq<string>>>, steps: seq<CwdStep>, max: nat,
                                               n: nat)
    requires max > 5 && |states| == |steps| + 1 && states[0] == map[] && n < |states|
    requires forall i :: 0 <= i < |steps| ==>
               CwdEnabled(states[i], steps[i]) && states[i + 1] == CwdApply(states[i], steps[i], max)
    ensures CwdsOk(states[n], max)
  {
    if n > 0 {
      EveryCwdIsCanonical(states, steps, max, n - 1);
      assert states[n - 1 + 1] == CwdApply(states[n - 1], steps[n - 1], max);
      CwdStepOk(states[n - 1], steps[n - 1], max);
    }
  }

  lemma CwdStepOk(cwds: map<nat, seq<string>>, step: CwdStep, max: nat)
    requires CwdEnabled(cwds, step) && max > 5 && CwdsOk(cwds, max)
    ensures CwdsOk(CwdApply(cwds, step, max), max)
  {
    hide CwdOk;
    hide PathToAbs;
    match step
    case Create(pid, parent) => RootIsOk(max);
    case Chdir(pid, path, _) => PathToAbsIsGood(cwds[pid], path, max, max);
    case Exit(_) =>
  }

  lemma RootIsOk(max: nat)
    requires max > 5
    ensures CwdOk(["root"], max)
  {
    RenderPush([], "root");
    assert [] + ["root"] == ["root"];
  }
}
