/** Rebuilding the tree of cross-program invocations from the runtime's flat list
    (graced/src/transaction/instruction.rs). */
module CpiTree {
  import opened Primitives

  datatype CompiledInstruction = CompiledInstruction(programIdIndex: u8, accounts: seq<u8>, data: seq<u8>)

  /** One entry of the flat list. A height is only ever compared with another height. */
  datatype IxWithStackHeight = IxWithStackHeight(ix: CompiledInstruction, height: Option<nat>)

  type Path = seq<u8>

  datatype StackIx = StackIx(ix: CompiledInstruction, inner: seq<StackIx>, path: Path)

  /** An open node on the builder's stack, with the u8 index its next child will get. */
  datatype Frame = Frame(node: StackIx, height: Option<nat>, count: u8)

  /** `count += 1` on a u8, which wraps in a release build. */
  function Bump(count: u8): u8 {
    (count + 1) % 256
  }

  /** A missing height is a barrier: it is neither a parent nor a child. */
  predicate CanParent(parent: Option<nat>, child: Option<nat>) {
    parent.Some? && child.Some? && child.value > parent.value
  }

  // ---------------------------------------------------------------------------
  // Reference definition of the tree
  // ---------------------------------------------------------------------------

  /** How many leading items are nested below a node of the given height. */
  function Run(height: Option<nat>, items: seq<IxWithStackHeight>): (n: nat)
    ensures n <= |items|
  {
    if items == [] || !CanParent(height, items[0].height) then 0 else 1 + Run(height, items[1..])
  }

  /** The sibling nodes that `items` stand for: each node owns the run of higher items after it.
      `next` is the child index of the first of them. */
  function Forest(items: seq<IxWithStackHeight>, prefix: Path, next: u8): seq<StackIx>
    decreases |items|
  {
    if items == [] then [] else
      var n := Run(items[0].height, items[1..]);
      var path := prefix + [next];
      [StackIx(items[0].ix, Forest(items[1..1 + n], path, 0), path)] + Forest(items[1 + n..], prefix, Bump(next))
  }

  /** The tree that a root instruction and its flat list stand for. */
  function Tree(ix: CompiledInstruction, items: seq<IxWithStackHeight>, index: u8): StackIx {
    StackIx(ix, Forest(items, [index], 0), [index])
  }

  // ---------------------------------------------------------------------------
  // The stack machine
  // ---------------------------------------------------------------------------

  /** What the builder's state becomes once `rest` has been read and every scope is closed:
      the top frame takes its run of `rest`, is handed to the frame below it, and so on. */
  ghost function Complete(frames: seq<Frame>, roots: seq<StackIx>, rootCount: u8,
                          rest: seq<IxWithStackHeight>, rootPath: Path): seq<StackIx>
    decreases |frames|
  {
    if frames == [] then roots + Forest(rest, rootPath, rootCount) else
      var top := frames[|frames| - 1];
      var n := Run(top.height, rest);
      var node := top.node.(inner := top.node.inner + Forest(rest[..n], top.node.path, top.count));
      var (frames', roots', rootCount') := HandOver(frames[..|frames| - 1], roots, rootCount, node);
      Complete(frames', roots', rootCount', rest[n..], rootPath)
  }

  /** A finished node joins the children of the frame below it, or the root's children. */
  ghost function HandOver(frames: seq<Frame>, roots: seq<StackIx>, rootCount: u8, node: StackIx)
    : (r: (seq<Frame>, seq<StackIx>, u8))
    ensures |r.0| == |frames|
  {
    if frames == [] then (frames, roots + [node], Bump(rootCount)) else
      var top := |frames| - 1;
      var parent := frames[top];
      (frames[top := Frame(parent.node.(inner := parent.node.inner + [node]), parent.height, Bump(parent.count))],
       roots, rootCount)
  }

  lemma {:induction false} RunOfPrefix(height: Option<nat>, items: seq<IxWithStackHeight>, m: nat)
    requires m <= |items|
    ensures Run(height, items[..m]) == Min(m, Run(height, items))
  {
    if m > 0 && CanParent(height, items[0].height) {
      assert items[..m][1..] == items[1..][..m - 1];
      RunOfPrefix(height, items[1..], m - 1);
    }
  }

  lemma {:induction false} RunMembers(height: Option<nat>, items: seq<IxWithStackHeight>)
    ensures forall k :: 0 <= k < Run(height, items) ==> CanParent(height, items[k].height)
    ensures Run(height, items) < |items| ==> !CanParent(height, items[Run(height, items)].height)
  {
    if items != [] && CanParent(height, items[0].height) {
      RunMembers(height, items[1..]);
      forall k | 0 <= k < Run(height, items) ensures CanParent(height, items[k].height) {
        if k > 0 { assert items[k] == items[1..][k - 1]; }
      }
    }
  }

  /** A parent's run contains the whole run of any child in it. */
  lemma {:induction false} RunContainsInner(outer: Option<nat>, inner: Option<nat>, items: seq<IxWithStackHeight>)
    requires CanParent(outer, inner)
    ensures Run(outer, items) == Run(inner, items) + Run(outer, items[Run(inner, items)..])
  {
    if items != [] && CanParent(inner, items[0].height) {
      RunContainsInner(outer, inner, items[1..]);
      assert items[Run(inner, items)..] == items[1..][Run(inner, items[1..])..];
    }
  }

  /** Forest, one node at a time: an item, the items nested below it, and what follows. */
  lemma {:induction false} ForestCons(x: IxWithStackHeight, run: seq<IxWithStackHeight>, others: seq<IxWithStackHeight>,
                                      prefix: Path, next: u8)
    requires Run(x.height, run + others) == |run|
    ensures Forest([x] + (run + others), prefix, next)
            == [StackIx(x.ix, Forest(run, prefix + [next], 0), prefix + [next])] + Forest(others, prefix, Bump(next))
  {
    var items := [x] + (run + others);
    assert items[1..] == run + others;
    assert items[1..1 + |run|] == run;
    assert items[1 + |run|..] == others;
  }

  lemma SplitRun<T>(rest: seq<T>, n: nat, m: nat)
    requires 1 + n <= m <= |rest|
    ensures rest[1..][n..] == rest[1 + n..]
    ensures rest[1..1 + n] + rest[1 + n..m] == rest[1..][..m - 1]
    ensures [rest[0]] + (rest[1..1 + n] + rest[1 + n..m]) == rest[..m]
  {
  }

  /** The first child of a parent's run owns its own run; the parent keeps the rest. */
  lemma {:induction false} FirstOfRun(parent: Option<nat>, rest: seq<IxWithStackHeight>, prefix: Path, next: u8)
    requires rest != [] && CanParent(parent, rest[0].height)
    ensures var n, m := Run(rest[0].height, rest[1..]), Run(parent, rest);
            1 + n <= m && m == 1 + n + Run(parent, rest[1 + n..])
            && Forest(rest[..m], prefix, next)
               == [StackIx(rest[0].ix, Forest(rest[1..1 + n], prefix + [next], 0), prefix + [next])]
                  + Forest(rest[1 + n..m], prefix, Bump(next))
  {
    var x, tail := rest[0], rest[1..];
    var n, m := Run(x.height, tail), Run(parent, rest);
    assert m == 1 + Run(parent, tail);
    hide Forest, Run;
    RunContainsInner(parent, x.height, tail);
    SplitRun(rest, n, m);
    RunOfPrefix(x.height, tail, m - 1);
    ForestCons(x, rest[1..1 + n], rest[1 + n..m], prefix, next);
  }

  /** The root that takes the next node as its child goes on to take the rest of the list. */
  lemma {:induction false} TakeRootChild(roots: seq<StackIx>, rootCount: u8, rest: seq<IxWithStackHeight>,
                                         rootPath: Path)
    requires rest != []
    ensures var n := Run(rest[0].height, rest[1..]);
            var node := StackIx(rest[0].ix, Forest(rest[1..][..n], rootPath + [rootCount], 0), rootPath + [rootCount]);
            roots + [node] + Forest(rest[1..][n..], rootPath, Bump(rootCount))
            == roots + Forest(rest, rootPath, rootCount)
  {
    hide Forest;
    var x, tail := rest[0], rest[1..];
    var n := Run(x.height, tail);
    assert tail == tail[..n] + tail[n..] && rest == [x] + tail;
    ForestCons(x, tail[..n], tail[n..], rootPath, rootCount);
  }

  /** The frame that takes the next node as its child goes on to take the rest of the same run. */
  lemma {:induction false} TakeChild(below: seq<Frame>, parent: Frame, node: StackIx, roots: seq<StackIx>,
                                     rootCount: u8, rest: seq<IxWithStackHeight>, rootPath: Path)
    requires rest != [] && CanParent(parent.height, rest[0].height)
    requires var n, path := Run(rest[0].height, rest[1..]), parent.node.path + [parent.count];
             node == StackIx(rest[0].ix, Forest(rest[1..1 + n], path, 0), path)
    ensures var parent' := Frame(parent.node.(inner := parent.node.inner + [node]), parent.height, Bump(parent.count));
            Complete(below + [parent'], roots, rootCount, rest[1 + Run(rest[0].height, rest[1..])..], rootPath)
            == Complete(below + [parent], roots, rootCount, rest, rootPath)
  {
    hide Complete, Forest;
    var parent' := Frame(parent.node.(inner := parent.node.inner + [node]), parent.height, Bump(parent.count));
    var n, m := Run(rest[0].height, rest[1..]), Run(parent.height, rest);
    var left := rest[1 + n..];
    var done := parent.node.(inner := parent.node.inner + Forest(rest[..m], parent.node.path, parent.count));
    assert m == 1 + n + Run(parent.height, left)
        && parent'.node.(inner := parent'.node.inner + Forest(left[..m - 1 - n], parent.node.path, parent'.count))
             == done by {
      FirstOfRun(parent.height, rest, parent.node.path, parent.count);
      assert left[..m - 1 - n] == rest[1 + n..m];
    }
    assert left[m - 1 - n..] == rest[m..];
    CompleteTop(below, parent, roots, rootCount, rest, rootPath);
    CompleteTop(below, parent', roots, rootCount, left, rootPath);
  }

  /** Complete, with no frame left. */
  lemma CompleteRoots(roots: seq<StackIx>, rootCount: u8, rest: seq<IxWithStackHeight>, rootPath: Path)
    ensures Complete([], roots, rootCount, rest, rootPath) == roots + Forest(rest, rootPath, rootCount)
  {
  }

  /** Complete, one frame at a time. */
  lemma {:induction false} CompleteTop(below: seq<Frame>, top: Frame, roots: seq<StackIx>, rootCount: u8,
                                       rest: seq<IxWithStackHeight>, rootPath: Path)
    ensures var n := Run(top.height, rest);
            var (frames', roots', rootCount') := HandOver(below, roots, rootCount,
              top.node.(inner := top.node.inner + Forest(rest[..n], top.node.path, top.count)));
            Complete(below + [top], roots, rootCount, rest, rootPath)
              == Complete(frames', roots', rootCount', rest[n..], rootPath)
  {
    assert (below + [top])[..|below|] == below;
  }

  /** Opening a scope for the next item does not change what the state will become. */
  lemma {:induction false} OpenScope(frames: seq<Frame>, roots: seq<StackIx>, rootCount: u8,
                                     rest: seq<IxWithStackHeight>, rootPath: Path)
    requires rest != []
    requires frames == [] || CanParent(frames[|frames| - 1].height, rest[0].height)
    ensures var path := if frames == [] then rootPath + [rootCount]
                        else frames[|frames| - 1].node.path + [frames[|frames| - 1].count];
            Complete(frames + [Frame(StackIx(rest[0].ix, [], path), rest[0].height, 0)],
                     roots, rootCount, rest[1..], rootPath)
            == Complete(frames, roots, rootCount, rest, rootPath)
  {
    hide Forest, Complete;
    var x, tail := rest[0], rest[1..];
    var n := Run(x.height, tail);
    var path := if frames == [] then rootPath + [rootCount]
                else frames[|frames| - 1].node.path + [frames[|frames| - 1].count];
    CompleteTop(frames, Frame(StackIx(x.ix, [], path), x.height, 0), roots, rootCount, tail, rootPath);
    assert [] + Forest(tail[..n], path, 0) == Forest(tail[..n], path, 0);
    if frames == [] {
      CompleteRoots(roots, rootCount, rest, rootPath);
      CompleteRoots(roots + [StackIx(x.ix, Forest(tail[..n], path, 0), path)], Bump(rootCount), tail[n..], rootPath);
      TakeRootChild(roots, rootCount, rest, rootPath);
    } else {
      assert tail[..n] == rest[1..1 + n] && tail[n..] == rest[1 + n..];
      var below, parent := frames[..|frames| - 1], frames[|frames| - 1];
      var node := StackIx(x.ix, Forest(tail[..n], path, 0), path);
      assert frames == below + [parent];
      TakeChild(below, parent, node, roots, rootCount, rest, rootPath);
      assert HandOver(frames, roots, rootCount, node).0
          == below + [Frame(parent.node.(inner := parent.node.inner + [node]), parent.height, Bump(parent.count))];
    }
  }

  /** Closing the top scope is what Complete does when nothing more belongs to it. */
  lemma {:induction false} CloseScope(frames: seq<Frame>, roots: seq<StackIx>, rootCount: u8,
                                      rest: seq<IxWithStackHeight>, rootPath: Path)
    requires frames != []
    requires rest == [] || !CanParent(frames[|frames| - 1].height, rest[0].height)
    ensures var (frames', roots', rootCount') :=
              HandOver(frames[..|frames| - 1], roots, rootCount, frames[|frames| - 1].node);
            Complete(frames, roots, rootCount, rest, rootPath) == Complete(frames', roots', rootCount', rest, rootPath)
  {
    var top := frames[|frames| - 1];
    assert rest[..0] == [] && rest[0..] == rest;
    assert top.node.(inner := top.node.inner + []) == top.node;
  }

  /** `build_ix_stack`. */
  method BuildIxStack(ix: CompiledInstruction, innerIxs: seq<IxWithStackHeight>, index: u8) returns (root: StackIx)
    ensures root == Tree(ix, innerIxs, index)
  {
    var rootPath: Path := [index];
    var stack: seq<Frame> := [];
    var rootInner: seq<StackIx> := [];
    var rootChildCount: u8 := 0;
    ghost var all := Forest(innerIxs, rootPath, 0);

    assert innerIxs[0..] == innerIxs;
    for i := 0 to |innerIxs|
      invariant Complete(stack, rootInner, rootChildCount, innerIxs[i..], rootPath) == all
    {
      var instruction, height := innerIxs[i].ix, innerIxs[i].height;
      // 1. Close scopes
      while stack != [] && !CanParent(stack[|stack| - 1].height, height)
        invariant Complete(stack, rootInner, rootChildCount, innerIxs[i..], rootPath) == all
        decreases |stack|
      {
        CloseScope(stack, rootInner, rootChildCount, innerIxs[i..], rootPath);
        var finished := stack[|stack| - 1].node;
        stack := stack[..|stack| - 1];
        if stack != [] {
          var parent := stack[|stack| - 1];
          var node := parent.node.(inner := parent.node.inner + [finished]);
          stack := stack[|stack| - 1 := Frame(node, parent.height, Bump(parent.count))];
        } else {
          rootInner := rootInner + [finished];
          rootChildCount := Bump(rootChildCount);
        }
      }
      // 2. Determine the path of the new node
      var path: Path;
      if stack != [] {
        var parent := stack[|stack| - 1];
        path := parent.node.path + [parent.count];
      } else {
        path := rootPath + [rootChildCount];
      }
      // 3. Create and push the new node
      OpenScope(stack, rootInner, rootChildCount, innerIxs[i..], rootPath);
      assert innerIxs[i..][1..] == innerIxs[i + 1..];
      stack := stack + [Frame(StackIx(instruction, [], path), height, 0)];
    }

    // 4. Drain; the root's own counter is no longer maintained
    ghost var count := rootChildCount;
    assert innerIxs[|innerIxs|..] == [];
    while stack != []
      invariant Complete(stack, rootInner, count, [], rootPath) == all
      decreases |stack|
    {
      CloseScope(stack, rootInner, count, [], rootPath);
      var finished := stack[|stack| - 1].node;
      stack := stack[..|stack| - 1];
      if stack != [] {
        var parent := stack[|stack| - 1];
        var node := parent.node.(inner := parent.node.inner + [finished]);
        stack := stack[|stack| - 1 := Frame(node, parent.height, Bump(parent.count))];
      } else {
        rootInner := rootInner + [finished];
        count := Bump(count);
      }
    }
    assert rootInner + [] == rootInner;
    root := StackIx(ix, rootInner, rootPath);
  }
}
