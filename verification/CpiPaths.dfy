/** Paths as addresses: `StackIx::trace`, `trace_ix_call` and `root_instructions`
    (graced/src/transaction/instruction.rs, graced/src/util/logs.rs, graced/src/transaction.rs). */
module CpiPaths {
  import opened Primitives
  import opened CpiTree
  import opened CpiTreeLaws

  /** A call in the parsed log, with the calls it made. */
  datatype InstructionCall = InstructionCall(programId: Pubkey, invocations: seq<InstructionCall>)

  /** A position names a node of a forest by the true index to take at every level. */
  ghost predicate ValidPos(nodes: seq<StackIx>, pos: seq<nat>)
    decreases |pos|
  {
    pos != [] && pos[0] < |nodes| && (|pos| == 1 || ValidPos(nodes[pos[0]].inner, pos[1..]))
  }

  ghost function NodeAt(nodes: seq<StackIx>, pos: seq<nat>): StackIx
    requires ValidPos(nodes, pos)
    decreases |pos|
  {
    if |pos| == 1 then nodes[pos[0]] else NodeAt(nodes[pos[0]].inner, pos[1..])
  }

  /** Nowhere are there more siblings than a u8 can number. */
  ghost predicate Narrow(nodes: seq<StackIx>) {
    |nodes| <= 256 && forall i :: 0 <= i < |nodes| ==> Narrow(nodes[i].inner)
  }

  function Wrapped(pos: seq<nat>): Path {
    seq(|pos|, i requires 0 <= i < |pos| => pos[i] % 256)
  }

  // ---------------------------------------------------------------------------
  // Walking by path
  // ---------------------------------------------------------------------------

  /** Following child indices down from a node. */
  function Descend(node: StackIx, path: Path): Option<StackIx>
    decreases |path|
  {
    if path == [] then Some(node)
    else if path[0] < |node.inner| then Descend(node.inner[path[0]], path[1..])
    else None
  }

  /** `StackIx::trace`. */
  method Trace(self: StackIx, path: Path) returns (found: Option<StackIx>)
    ensures found == Descend(self, path)
  {
    var curr := self;
    for i := 0 to |path|
      invariant Descend(curr, path[i..]) == Descend(self, path)
    {
      assert path[i..][1..] == path[i + 1..];
      if path[i] >= |curr.inner| {
        return None;
      }
      curr := curr.inner[path[i]];
    }
    return Some(curr);
  }

  function DescendCalls(calls: seq<InstructionCall>, path: Path): Option<InstructionCall>
    decreases |path|
  {
    if path == [] || path[0] >= |calls| then None
    else if |path| == 1 then Some(calls[path[0]])
    else DescendCalls(calls[path[0]].invocations, path[1..])
  }

  /** `trace_ix_call`. */
  method TraceIxCall(ixs: seq<InstructionCall>, path: Path) returns (found: Option<InstructionCall>)
    ensures found == DescendCalls(ixs, path)
  {
    if path == [] || path[0] >= |ixs| {
      return None;
    }
    var curr := ixs[path[0]];
    for i := 1 to |path|
      invariant DescendCalls(ixs, path) == if i == |path| then Some(curr) else DescendCalls(curr.invocations, path[i..])
    {
      assert path[i..][1..] == path[i + 1..];
      if path[i] >= |curr.invocations| {
        return None;
      }
      curr := curr.invocations[path[i]];
    }
    return Some(curr);
  }

  predicate IsChild(node: StackIx, i: u8, child: StackIx) {
    i < |node.inner| && node.inner[i] == child
  }

  /** The nodes met by taking the path's child indices one after the other, from the starting node to the found
      one. */
  ghost predicate NodeChain(node: StackIx, path: Path, found: StackIx, chain: seq<StackIx>) {
    |chain| == |path| + 1 && chain[0] == node && chain[|path|] == found
    && forall k :: 0 <= k < |path| ==> IsChild(chain[k], path[k], chain[k + 1])
  }

  lemma {:induction false} ChainGrows(node: StackIx, path: Path, found: StackIx, below: seq<StackIx>)
    requires path != [] && path[0] < |node.inner| && NodeChain(node.inner[path[0]], path[1..], found, below)
    ensures NodeChain(node, path, found, [node] + below)
  {
    var chain := [node] + below;
    forall k | 0 <= k < |path| ensures IsChild(chain[k], path[k], chain[k + 1]) {
      assert k > 0 ==> IsChild(below[k - 1], path[1..][k - 1], below[k]);
    }
  }

  lemma {:induction false} ChainTail(node: StackIx, path: Path, found: StackIx, chain: seq<StackIx>)
    requires path != [] && NodeChain(node, path, found, chain)
    ensures path[0] < |node.inner| && NodeChain(node.inner[path[0]], path[1..], found, chain[1..])
  {
    assert IsChild(chain[0], path[0], chain[1]);
    forall k | 0 <= k < |path| - 1 ensures IsChild(chain[1..][k], path[1..][k], chain[1..][k + 1]) {
      assert IsChild(chain[k + 1], path[k + 1], chain[k + 2]);
    }
  }

  lemma ChainOfNone(node: StackIx, found: StackIx)
    ensures (exists chain :: NodeChain(node, [], found, chain)) <==> found == node
  {
    assert NodeChain(node, [], node, [node]);
  }

  /** Descending finds the end of the chain of children that the path names, and nothing when an index on the way
      is out of range. */
  lemma {:induction false} DescendExactly(node: StackIx, path: Path, found: StackIx)
    ensures Descend(node, path) == Some(found) <==> exists chain :: NodeChain(node, path, found, chain)
    decreases |path|
  {
    if path == [] {
      ChainOfNone(node, found);
    } else if path[0] < |node.inner| {
      DescendExactly(node.inner[path[0]], path[1..], found);
      if below :| NodeChain(node.inner[path[0]], path[1..], found, below) {
        ChainGrows(node, path, found, below);
      }
      if chain :| NodeChain(node, path, found, chain) {
        ChainTail(node, path, found, chain);
      }
    } else if chain :| NodeChain(node, path, found, chain) {
      ChainTail(node, path, found, chain);
    }
  }

  predicate IsCallOf(caller: InstructionCall, i: u8, call: InstructionCall) {
    i < |caller.invocations| && caller.invocations[i] == call
  }

  /** The calls met by taking the path's indices one after the other, the first among the roots. */
  ghost predicate CallChain(calls: seq<InstructionCall>, path: Path, found: InstructionCall,
                            chain: seq<InstructionCall>) {
    path != [] && |chain| == |path| && path[0] < |calls| && chain[0] == calls[path[0]] && chain[|path| - 1] == found
    && forall k :: 0 <= k < |path| - 1 ==> IsCallOf(chain[k], path[k + 1], chain[k + 1])
  }

  lemma {:induction false} CallChainGrows(calls: seq<InstructionCall>, path: Path, found: InstructionCall,
                                          below: seq<InstructionCall>)
    requires |path| > 1 && path[0] < |calls| && CallChain(calls[path[0]].invocations, path[1..], found, below)
    ensures CallChain(calls, path, found, [calls[path[0]]] + below)
  {
    var chain := [calls[path[0]]] + below;
    forall k | 0 <= k < |path| - 1 ensures IsCallOf(chain[k], path[k + 1], chain[k + 1]) {
      assert path[1..][k] == path[k + 1];
      assert k > 0 ==> IsCallOf(below[k - 1], path[1..][k], below[k]);
    }
  }

  lemma {:induction false} CallChainTail(calls: seq<InstructionCall>, path: Path, found: InstructionCall,
                                         chain: seq<InstructionCall>)
    requires |path| > 1 && CallChain(calls, path, found, chain)
    ensures path[0] < |calls| && CallChain(calls[path[0]].invocations, path[1..], found, chain[1..])
  {
    assert IsCallOf(chain[0], path[1], chain[1]);
    forall k | 0 <= k < |path| - 2 ensures IsCallOf(chain[1..][k], path[1..][k + 1], chain[1..][k + 1]) {
      assert IsCallOf(chain[k + 1], path[k + 2], chain[k + 2]);
    }
  }

  lemma {:induction false} CallChainOfOne(calls: seq<InstructionCall>, path: Path, found: InstructionCall)
    requires |path| == 1
    ensures (exists chain :: CallChain(calls, path, found, chain)) <==> path[0] < |calls| && calls[path[0]] == found
  {
    assert path[0] < |calls| ==> CallChain(calls, path, calls[path[0]], [calls[path[0]]]);
  }

  /** The same for the log forest, which may be shorter than the trace: an index past what was logged, at any level,
      finds nothing, and so does the empty path. */
  lemma {:induction false} DescendCallsExactly(calls: seq<InstructionCall>, path: Path, found: InstructionCall)
    ensures DescendCalls(calls, path) == Some(found) <==> exists chain :: CallChain(calls, path, found, chain)
    decreases |path|
  {
    if |path| == 1 {
      CallChainOfOne(calls, path, found);
    } else if path != [] && path[0] < |calls| {
      hide CallChain;
      DescendCallsExactly(calls[path[0]].invocations, path[1..], found);
      if below :| CallChain(calls[path[0]].invocations, path[1..], found, below) {
        CallChainGrows(calls, path, found, below);
      }
      if chain :| CallChain(calls, path, found, chain) {
        CallChainTail(calls, path, found, chain);
      }
    }
  }

  /** `SolanaTx::root_instructions`: the cast of the index to u8 wraps after 256 instructions. */
  function RootInstructions(instructions: seq<CompiledInstruction>, inner: map<u8, seq<IxWithStackHeight>>)
    : (r: seq<StackIx>)
    ensures |r| == |instructions|
  {
    seq(|instructions|, i requires 0 <= i < |instructions| =>
      var idx: u8 := i % 256;
      Tree(instructions[i], if idx in inner then inner[idx] else [], idx))
  }

  lemma {:induction false} RootsAreNumbered(instructions: seq<CompiledInstruction>,
                                            inner: map<u8, seq<IxWithStackHeight>>)
    ensures Numbered(RootInstructions(instructions, inner), [], 0)
  {
    var roots := RootInstructions(instructions, inner);
    forall i | 0 <= i < |roots| ensures NumberedAt(roots, [], 0, i) {
      var idx: u8 := i % 256;
      ForestIsNumbered(if idx in inner then inner[idx] else [], [idx], 0);
      assert [] + [(0 + i) % 256] == roots[i].path;
    }
  }

  /** Root `i` is the `i`th instruction, its path is `i` as a u8, and below it are exactly the instructions recorded
      under that key, in order, each under its nearest enclosing one. */
  lemma {:induction false} RootHoldsRecorded(instructions: seq<CompiledInstruction>,
                                             inner: map<u8, seq<IxWithStackHeight>>, i: nat)
    requires i < |instructions|
    ensures var root := RootInstructions(instructions, inner)[i];
            var recorded := if i % 256 in inner then inner[i % 256] else [];
            var parents := Parents(root.inner, 0, None);
            root.ix == instructions[i] && root.path == [i % 256]
            && Ixs(FlatInnerInstructions(root)) == ItemIxs(recorded)
            && |parents| == |recorded| && ParentsFrom(recorded, 0, parents)
  {
    hide Forest, FlatInnerInstructions, ParentsFrom;
    var recorded := if i % 256 in inner then inner[i % 256] else [];
    ListToTreeToList(instructions[i], recorded, i % 256);
    ParentIsNearestEnclosing(instructions[i], recorded, i % 256);
  }

  // ---------------------------------------------------------------------------
  // Stored paths are positions
  // ---------------------------------------------------------------------------

  lemma {:induction false} PathIsPosition(nodes: seq<StackIx>, prefix: Path, pos: seq<nat>)
    requires Numbered(nodes, prefix, 0) && ValidPos(nodes, pos)
    ensures NodeAt(nodes, pos).path == prefix + Wrapped(pos)
    decreases |pos|
  {
    var child := nodes[pos[0]];
    assert NumberedAt(nodes, prefix, 0, pos[0]);
    if |pos| == 1 {
      assert Wrapped(pos) == [pos[0] % 256];
    } else {
      PathIsPosition(child.inner, child.path, pos[1..]);
      assert Wrapped(pos) == [pos[0] % 256] + Wrapped(pos[1..]);
      assert (prefix + [pos[0] % 256]) + Wrapped(pos[1..]) == prefix + Wrapped(pos);
    }
  }

  /** In a narrow forest a position survives the cast to u8. */
  lemma {:induction false} NarrowPosition(nodes: seq<StackIx>, pos: seq<nat>)
    requires Narrow(nodes) && ValidPos(nodes, pos)
    ensures forall i :: 0 <= i < |pos| ==> pos[i] < 256
    decreases |pos|
  {
    if |pos| > 1 {
      NarrowPosition(nodes[pos[0]].inner, pos[1..]);
      forall i | 0 <= i < |pos| ensures pos[i] < 256 {
        if i > 0 { assert pos[i] == pos[1..][i - 1]; }
      }
    }
  }

  /** Every index of the position fits in a u8. */
  ghost predicate SmallPos(pos: seq<nat>) {
    forall i :: 0 <= i < |pos| ==> pos[i] < 256
  }

  lemma {:induction false} DescendReaches(node: StackIx, pos: seq<nat>)
    requires ValidPos(node.inner, pos) && SmallPos(pos)
    ensures Descend(node, Wrapped(pos)) == Some(NodeAt(node.inner, pos))
    decreases |pos|
  {
    assert Wrapped(pos)[1..] == Wrapped(pos[1..]);
    var child := node.inner[pos[0]];
    if |pos| == 1 {
      assert Wrapped(pos[1..]) == [];
    } else {
      DescendReaches(child, pos[1..]);
    }
  }

  /** A node's stored path is the root index and its position, each index as a u8. While the position fits, which
      it does in every tree with at most 256 children per node, tracing the root by the rest of the path reaches
      that very node. */
  lemma {:induction false} TraceReachesNode(ix: CompiledInstruction, items: seq<IxWithStackHeight>, index: u8,
                                            pos: seq<nat>)
    requires ValidPos(Tree(ix, items, index).inner, pos)
    ensures var root := Tree(ix, items, index);
            var node := NodeAt(root.inner, pos);
            node.path == [index] + Wrapped(pos)
            && (SmallPos(pos) <==> node.path == [index] + pos)
            && (SmallPos(pos) ==> Descend(root, node.path[1..]) == Some(node))
            && (Narrow(root.inner) ==> SmallPos(pos))
  {
    var root := Tree(ix, items, index);
    ForestIsNumbered(items, [index], 0);
    PathIsPosition(root.inner, [index], pos);
    assert ([index] + Wrapped(pos))[1..] == Wrapped(pos);
    WrappedIsPosition(pos);
    if Wrapped(pos) != pos { assert ([index] + pos)[1..] == pos; }
    if SmallPos(pos) { DescendReaches(root, pos); }
    if Narrow(root.inner) { NarrowPosition(root.inner, pos); }
  }

  lemma {:induction false} DescendKeepsPath(node: StackIx, path: Path)
    requires Numbered(node.inner, node.path, 0)
    ensures Descend(node, path).Some? ==> Descend(node, path).value.path == node.path + path
    decreases |path|
  {
    if path == [] {
      assert node.path + path == node.path;
    } else if path[0] < |node.inner| {
      assert NumberedAt(node.inner, node.path, 0, path[0]);
      DescendKeepsPath(node.inner[path[0]], path[1..]);
      assert node.path + [path[0]] + path[1..] == node.path + path;
    }
  }

  /** Whatever tracing finds, in any tree and for any path, stores exactly the path it was asked for. */
  lemma {:induction false} TraceFindsAskedPath(ix: CompiledInstruction, items: seq<IxWithStackHeight>, index: u8,
                                               path: Path)
    ensures var found := Descend(Tree(ix, items, index), path);
            found.Some? ==> found.value.path == [index] + path
  {
    ForestIsNumbered(items, [index], 0);
    DescendKeepsPath(Tree(ix, items, index), path);
  }

  lemma {:induction false} WrappedIsPosition(pos: seq<nat>)
    ensures Wrapped(pos) == pos <==> SmallPos(pos)
  {
    if Wrapped(pos) == pos {
      forall i | 0 <= i < |pos| ensures pos[i] < 256 {
        assert pos[i] == Wrapped(pos)[i];
      }
    }
  }

  // ---------------------------------------------------------------------------
  // The log forest
  // ---------------------------------------------------------------------------

  /** The log recorded a call for every instruction, nested the same way. */
  ghost predicate SameShape(nodes: seq<StackIx>, calls: seq<InstructionCall>) {
    |nodes| == |calls| && forall i :: 0 <= i < |nodes| ==> SameShape(nodes[i].inner, calls[i].invocations)
  }

  ghost function CallAt(nodes: seq<StackIx>, calls: seq<InstructionCall>, pos: seq<nat>): InstructionCall
    requires ValidPos(nodes, pos) && SameShape(nodes, calls)
    decreases |pos|
  {
    if |pos| == 1 then calls[pos[0]] else CallAt(nodes[pos[0]].inner, calls[pos[0]].invocations, pos[1..])
  }

  lemma {:induction false} DescendCallsReaches(nodes: seq<StackIx>, calls: seq<InstructionCall>, pos: seq<nat>)
    requires SmallPos(pos) && SameShape(nodes, calls) && ValidPos(nodes, pos)
    ensures DescendCalls(calls, Wrapped(pos)) == Some(CallAt(nodes, calls, pos))
    decreases |pos|
  {
    if |pos| > 1 {
      assert Wrapped(pos)[1..] == Wrapped(pos[1..]);
      DescendCallsReaches(nodes[pos[0]].inner, calls[pos[0]].invocations, pos[1..]);
    }
  }

  /** A node whose position fits in u8 indices finds its own call in the log by its stored path. */
  lemma {:induction false} LogsOfNode(instructions: seq<CompiledInstruction>, inner: map<u8, seq<IxWithStackHeight>>,
                                      calls: seq<InstructionCall>, pos: seq<nat>)
    requires var roots := RootInstructions(instructions, inner);
             SmallPos(pos) && SameShape(roots, calls) && ValidPos(roots, pos)
    ensures var roots := RootInstructions(instructions, inner);
            DescendCalls(calls, NodeAt(roots, pos).path) == Some(CallAt(roots, calls, pos))
  {
    var roots := RootInstructions(instructions, inner);
    RootsAreNumbered(instructions, inner);
    PathIsPosition(roots, [], pos);
    DescendCallsReaches(roots, calls, pos);
    assert [] + Wrapped(pos) == Wrapped(pos);
  }

  // ---------------------------------------------------------------------------
  // No two nodes share a path
  // ---------------------------------------------------------------------------

  ghost predicate DistinctPaths(nodes: seq<StackIx>) {
    forall pos, pos' ::
      ValidPos(nodes, pos) && ValidPos(nodes, pos') && NodeAt(nodes, pos).path == NodeAt(nodes, pos').path
      ==> pos == pos'
  }

  /** A crowded level holds two nodes 256 apart. */
  lemma {:induction false} CrowdedLevel(nodes: seq<StackIx>) returns (pos: seq<nat>, pos': seq<nat>)
    requires !Narrow(nodes)
    ensures ValidPos(nodes, pos) && ValidPos(nodes, pos') && pos != pos' && Wrapped(pos) == Wrapped(pos')
    decreases nodes
  {
    if |nodes| > 256 {
      pos, pos' := [0], [256];
    } else {
      var i :| 0 <= i < |nodes| && !Narrow(nodes[i].inner);
      var below, below' := CrowdedLevel(nodes[i].inner);
      pos, pos' := [i] + below, [i] + below';
      assert pos[1..] == below && pos'[1..] == below';
      assert Wrapped(pos) == [i % 256] + Wrapped(below) && Wrapped(pos') == [i % 256] + Wrapped(below');
    }
  }

  lemma {:induction false} NarrowPathsDiffer(nodes: seq<StackIx>, pos: seq<nat>, pos': seq<nat>)
    requires Numbered(nodes, [], 0) && Narrow(nodes)
    requires ValidPos(nodes, pos) && ValidPos(nodes, pos') && NodeAt(nodes, pos).path == NodeAt(nodes, pos').path
    ensures pos == pos'
  {
    PathIsPosition(nodes, [], pos);
    PathIsPosition(nodes, [], pos');
    NarrowPosition(nodes, pos);
    NarrowPosition(nodes, pos');
    assert [] + Wrapped(pos) == Wrapped(pos) && [] + Wrapped(pos') == Wrapped(pos');
    assert |pos| == |Wrapped(pos)| == |Wrapped(pos')| == |pos'|;
    forall i | 0 <= i < |pos| ensures pos[i] == pos'[i] {
      assert pos[i] == Wrapped(pos)[i] && pos'[i] == Wrapped(pos')[i];
    }
  }

  /** No two nodes of a transaction share a path exactly when no level has more than 256 instructions. */
  lemma {:induction false} PathsAreDistinct(instructions: seq<CompiledInstruction>,
                                            inner: map<u8, seq<IxWithStackHeight>>)
    ensures DistinctPaths(RootInstructions(instructions, inner)) <==> Narrow(RootInstructions(instructions, inner))
  {
    var roots := RootInstructions(instructions, inner);
    RootsAreNumbered(instructions, inner);
    if Narrow(roots) {
      forall pos, pos' | ValidPos(roots, pos) && ValidPos(roots, pos')
                         && NodeAt(roots, pos).path == NodeAt(roots, pos').path
        ensures pos == pos'
      {
        NarrowPathsDiffer(roots, pos, pos');
      }
    } else {
      var pos, pos' := CrowdedLevel(roots);
      PathIsPosition(roots, [], pos);
      PathIsPosition(roots, [], pos');
    }
  }
}
