/** What the rebuilt tree means: it flattens back to the list, the list of a tree rebuilds the tree,
    parents are the nearest enclosing instructions, and stored paths lead to their nodes. */
module CpiTreeLaws {
  import opened Primitives
  import opened CpiTree

  // ---------------------------------------------------------------------------
  // List to tree to list
  // ---------------------------------------------------------------------------

  /** The nodes and everything below them, in preorder. */
  function Flat(nodes: seq<StackIx>): seq<StackIx> {
    if nodes == [] then [] else [nodes[0]] + Flat(nodes[0].inner) + Flat(nodes[1..])
  }

  /** `flat_inner_instructions`. */
  function FlatInnerInstructions(root: StackIx): seq<StackIx> {
    Flat(root.inner)
  }

  function Ixs(nodes: seq<StackIx>): seq<CompiledInstruction> {
    seq(|nodes|, i requires 0 <= i < |nodes| => nodes[i].ix)
  }

  function ItemIxs(items: seq<IxWithStackHeight>): seq<CompiledInstruction> {
    seq(|items|, i requires 0 <= i < |items| => items[i].ix)
  }

  /** The first node of a forest, the items nested below it and the items after those. */
  lemma {:induction false} ForestStep(items: seq<IxWithStackHeight>, prefix: Path, next: u8)
    returns (run: seq<IxWithStackHeight>, others: seq<IxWithStackHeight>, first: StackIx)
    requires items != []
    ensures |run| == Run(items[0].height, items[1..])
    ensures run == items[1..1 + |run|] && others == items[1 + |run|..]
    ensures first == StackIx(items[0].ix, Forest(run, prefix + [next], 0), prefix + [next])
    ensures Forest(items, prefix, next) == [first] + Forest(others, prefix, Bump(next))
  {
    var n := Run(items[0].height, items[1..]);
    run, others := items[1..1 + n], items[1 + n..];
    first := StackIx(items[0].ix, Forest(run, prefix + [next], 0), prefix + [next]);
  }

  lemma ForestOfNone(prefix: Path, next: u8)
    ensures Forest([], prefix, next) == []
  {
  }

  lemma FlatOfNone()
    ensures Flat([]) == []
  {
  }

  lemma {:induction false} FlatCons(node: StackIx, others: seq<StackIx>)
    ensures Flat([node] + others) == [node] + Flat(node.inner) + Flat(others)
  {
    assert ([node] + others)[1..] == others;
  }

  lemma {:induction false} IxsOfPieces(node: StackIx, below: seq<StackIx>, after: seq<StackIx>)
    ensures Ixs([node] + below + after) == [node.ix] + Ixs(below) + Ixs(after)
  {
  }

  lemma {:induction false} ForestFlattensToItems(items: seq<IxWithStackHeight>, prefix: Path, next: u8)
    ensures Ixs(Flat(Forest(items, prefix, next))) == ItemIxs(items)
    ensures |Flat(Forest(items, prefix, next))| == |items|
    decreases |items|
  {
    hide Forest, Flat, Run;
    if items == [] {
      ForestOfNone(prefix, next);
      FlatOfNone();
    } else {
      var run, others, first := ForestStep(items, prefix, next);
      ForestFlattensToItems(run, prefix + [next], 0);
      ForestFlattensToItems(others, prefix, Bump(next));
      FlatCons(first, Forest(others, prefix, Bump(next)));
      IxsOfPieces(first, Flat(first.inner), Flat(Forest(others, prefix, Bump(next))));
      assert ItemIxs(items) == [items[0].ix] + ItemIxs(run) + ItemIxs(others);
    }
  }

  /** Flattening the rebuilt tree gives back the list, whatever heights are known or missing. */
  lemma {:induction false} ListToTreeToList(ix: CompiledInstruction, items: seq<IxWithStackHeight>, index: u8)
    ensures Ixs(FlatInnerInstructions(Tree(ix, items, index))) == ItemIxs(items)
  {
    ForestFlattensToItems(items, [index], 0);
  }

  // ---------------------------------------------------------------------------
  // Stored paths
  // ---------------------------------------------------------------------------

  /** Every node's path is its parent's path followed by its position among its siblings, as a u8. */
  ghost predicate Numbered(nodes: seq<StackIx>, prefix: Path, next: u8)
    decreases nodes, 1
  {
    forall i :: 0 <= i < |nodes| ==> NumberedAt(nodes, prefix, next, i)
  }

  ghost predicate NumberedAt(nodes: seq<StackIx>, prefix: Path, next: u8, i: nat)
    requires i < |nodes|
    decreases nodes, 0
  {
    nodes[i].path == prefix + [(next + i) % 256] && Numbered(nodes[i].inner, nodes[i].path, 0)
  }

  lemma {:induction false} ForestIsNumbered(items: seq<IxWithStackHeight>, prefix: Path, next: u8)
    ensures Numbered(Forest(items, prefix, next), prefix, next)
    decreases |items|
  {
    hide Forest, Run;
    if items == [] {
      ForestOfNone(prefix, next);
    } else {
      var run, others, first := ForestStep(items, prefix, next);
      ForestIsNumbered(run, prefix + [next], 0);
      ForestIsNumbered(others, prefix, Bump(next));
      NumberedCons(first, Forest(others, prefix, Bump(next)), prefix, next);
    }
  }

  lemma {:induction false} NumberedCons(node: StackIx, others: seq<StackIx>, prefix: Path, next: u8)
    requires node.path == prefix + [next] && Numbered(node.inner, prefix + [next], 0)
             && Numbered(others, prefix, Bump(next))
    ensures Numbered([node] + others, prefix, next)
  {
    var nodes := [node] + others;
    forall i | 0 <= i < |nodes| ensures NumberedAt(nodes, prefix, next, i) {
      if i > 0 {
        assert NumberedAt(others, prefix, Bump(next), i - 1);
      }
    }
  }

  lemma {:induction false} NumberedTail(nodes: seq<StackIx>, prefix: Path, next: u8)
    requires nodes != [] && Numbered(nodes, prefix, next)
    ensures nodes[0].path == prefix + [next] && Numbered(nodes[0].inner, prefix + [next], 0)
    ensures Numbered(nodes[1..], prefix, Bump(next))
  {
    assert NumberedAt(nodes, prefix, next, 0);
    forall i | 0 <= i < |nodes| - 1 ensures NumberedAt(nodes[1..], prefix, Bump(next), i) {
      assert NumberedAt(nodes, prefix, next, i + 1);
    }
  }

  // ---------------------------------------------------------------------------
  // Tree to list to tree
  // ---------------------------------------------------------------------------

  /** The runtime's flat list for these nodes, whose own stack height is `height`. */
  function Listing(nodes: seq<StackIx>, height: nat): seq<IxWithStackHeight> {
    if nodes == [] then [] else
      [IxWithStackHeight(nodes[0].ix, Some(height))] + Listing(nodes[0].inner, height + 1) + Listing(nodes[1..], height)
  }

  lemma {:induction false} ListingHeights(nodes: seq<StackIx>, height: nat)
    ensures forall k :: 0 <= k < |Listing(nodes, height)| ==>
              Listing(nodes, height)[k].height.Some? && Listing(nodes, height)[k].height.value >= height
    ensures nodes != [] ==> Listing(nodes, height)[0].height == Some(height)
    decreases nodes
  {
    if nodes != [] {
      ListingHeights(nodes[0].inner, height + 1);
      ListingHeights(nodes[1..], height);
    }
  }

  lemma {:induction false} RunOfHigher(height: Option<nat>, run: seq<IxWithStackHeight>, others: seq<IxWithStackHeight>)
    requires forall k :: 0 <= k < |run| ==> CanParent(height, run[k].height)
    requires others == [] || !CanParent(height, others[0].height)
    ensures Run(height, run + others) == |run|
  {
    if run == [] {
      assert run + others == others;
    } else {
      assert (run + others)[1..] == run[1..] + others;
      RunOfHigher(height, run[1..], others);
    }
  }

  /** In a listing, the run of a node is the listing of what is below it. */
  lemma {:induction false} ListingRun(nodes: seq<StackIx>, height: nat)
    requires nodes != []
    ensures var run, others := Listing(nodes[0].inner, height + 1), Listing(nodes[1..], height);
            Run(Some(height), run + others) == |run|
  {
    ListingHeights(nodes[0].inner, height + 1);
    ListingHeights(nodes[1..], height);
    RunOfHigher(Some(height), Listing(nodes[0].inner, height + 1), Listing(nodes[1..], height));
  }

  lemma {:induction false} ForestOfListing(nodes: seq<StackIx>, height: nat, prefix: Path, next: u8)
    requires Numbered(nodes, prefix, next)
    ensures Forest(Listing(nodes, height), prefix, next) == nodes
    decreases nodes
  {
    hide Forest, Numbered, Run;
    if nodes == [] {
      ForestOfNone(prefix, next);
    } else {
      var x := IxWithStackHeight(nodes[0].ix, Some(height));
      var run, others := Listing(nodes[0].inner, height + 1), Listing(nodes[1..], height);
      ListingRun(nodes, height);
      ForestCons(x, run, others, prefix, next);
      assert Listing(nodes, height) == [x] + (run + others);
      NumberedTail(nodes, prefix, next);
      ForestOfListing(nodes[0].inner, height + 1, prefix + [next], 0);
      ForestOfListing(nodes[1..], height, prefix, Bump(next));
    }
  }

  /** Listing a tree in preorder with height = depth + 1 and rebuilding it gives back exactly the same
      tree, paths included, if and only if the tree's paths were the u8 positions of its nodes. */
  lemma {:induction false} TreeToListToTree(root: StackIx, index: u8)
    ensures Tree(root.ix, Listing(root.inner, 2), index) == root
            <==> root.path == [index] && Numbered(root.inner, [index], 0)
  {
    if root.path == [index] && Numbered(root.inner, [index], 0) {
      ForestOfListing(root.inner, 2, [index], 0);
    }
    ForestIsNumbered(Listing(root.inner, 2), [index], 0);
  }

  // ---------------------------------------------------------------------------
  // Parents
  // ---------------------------------------------------------------------------

  /** The preorder number of every node's parent; `base` is the number of the first node. */
  function Parents(nodes: seq<StackIx>, base: nat, parent: Option<nat>): (r: seq<Option<nat>>)
    decreases nodes
  {
    if nodes == [] then [] else
      var below := Parents(nodes[0].inner, base + 1, Some(base));
      [parent] + below + Parents(nodes[1..], base + 1 + |below|, parent)
  }

  /** Instruction `j` comes before `i`, is lower, and no height from `j` to `i` is missing. */
  ghost predicate Encloses(items: seq<IxWithStackHeight>, j: int, i: int)
    requires i < |items|
  {
    0 <= j < i
    && (forall k :: j <= k <= i ==> items[k].height.Some?)
    && items[j].height.value < items[i].height.value
  }

  /** The parent is the nearest enclosing instruction, or the root when there is none. */
  ghost predicate IsParent(items: seq<IxWithStackHeight>, i: nat, parent: Option<nat>)
    requires i < |items|
  {
    match parent
    case Some(j) => Encloses(items, j, i) && forall k :: j < k < i ==> !Encloses(items, k, i)
    case None => forall k :: 0 <= k < i ==> !Encloses(items, k, i)
  }

  /** The first position after a possible parent. */
  function After(parent: Option<nat>): nat {
    if parent.Some? then parent.value + 1 else 0
  }

  /** A sibling group starts at `lo`: its parent encloses it all and nothing nearer encloses its first node. */
  ghost predicate SiblingsAt(items: seq<IxWithStackHeight>, lo: nat, hi: nat, parent: Option<nat>)
    requires lo <= hi <= |items|
  {
    After(parent) <= lo
    && (parent.Some? ==> forall i :: lo <= i < hi ==> Encloses(items, parent.value, i))
    && (lo < hi ==> forall k :: After(parent) <= k < lo ==> !Encloses(items, k, lo))
  }

  /** The group is the part of the list that starts at `lo`. */
  ghost predicate GroupAt(items: seq<IxWithStackHeight>, lo: nat, group: seq<IxWithStackHeight>) {
    lo + |group| <= |items| && forall k :: 0 <= k < |group| ==> group[k] == items[lo + k]
  }

  lemma {:induction false} NextSiblings(items: seq<IxWithStackHeight>, lo: nat, group: seq<IxWithStackHeight>,
                                        parent: Option<nat>)
    requires group != [] && GroupAt(items, lo, group) && SiblingsAt(items, lo, lo + |group|, parent)
    ensures var n := Run(group[0].height, group[1..]);
            GroupAt(items, lo + 1, group[1..1 + n]) && SiblingsAt(items, lo + 1, lo + 1 + n, Some(lo))
            && GroupAt(items, lo + 1 + n, group[1 + n..]) && SiblingsAt(items, lo + 1 + n, lo + |group|, parent)
            && IsParent(items, lo, parent)
  {
    var n := Run(group[0].height, group[1..]);
    RunMembers(group[0].height, group[1..]);
    forall i | lo < i < lo + 1 + n ensures CanParent(items[lo].height, items[i].height) {
      assert items[i] == group[i - lo] == group[1..][i - lo - 1];
    }
    var lo' := lo + 1 + n;
    if 1 + n < |group| {
      assert !CanParent(items[lo].height, items[lo'].height) by { assert items[lo'] == group[1 + n] == group[1..][n]; }
      forall k | After(parent) <= k < lo' ensures !Encloses(items, k, lo') {
        assert Encloses(items, k, lo') && k < lo ==> Encloses(items, k, lo);
      }
    }
  }

  /** From the items of a sibling group to the parents of the nodes built from them. */
  ghost predicate ParentsFrom(items: seq<IxWithStackHeight>, lo: nat, parents: seq<Option<nat>>)
    requires lo + |parents| <= |items|
  {
    forall k :: 0 <= k < |parents| ==> IsParent(items, lo + k, parents[k])
  }

  lemma {:induction false} ParentsFromPieces(items: seq<IxWithStackHeight>, lo: nat, parent: Option<nat>,
                                             below: seq<Option<nat>>, after: seq<Option<nat>>)
    requires lo + 1 + |below| + |after| <= |items|
    requires IsParent(items, lo, parent) && ParentsFrom(items, lo + 1, below)
    requires ParentsFrom(items, lo + 1 + |below|, after)
    ensures ParentsFrom(items, lo, [parent] + below + after)
  {
    var r := [parent] + below + after;
    forall k | 0 <= k < |r| ensures IsParent(items, lo + k, r[k]) {
      if 0 < k <= |below| {
        assert IsParent(items, lo + 1 + (k - 1), below[k - 1]);
      } else if k > |below| {
        assert IsParent(items, lo + 1 + |below| + (k - 1 - |below|), after[k - 1 - |below|]);
      }
    }
  }

  lemma ParentsOfNone(base: nat, parent: Option<nat>)
    ensures Parents([], base, parent) == []
  {
  }

  lemma {:induction false} ParentsCons(node: StackIx, others: seq<StackIx>, base: nat, parent: Option<nat>)
    ensures var below := Parents(node.inner, base + 1, Some(base));
            Parents([node] + others, base, parent) == [parent] + below + Parents(others, base + 1 + |below|, parent)
  {
    assert ([node] + others)[1..] == others;
  }

  lemma {:induction false} ForestParents(items: seq<IxWithStackHeight>, lo: nat, group: seq<IxWithStackHeight>,
                                         parent: Option<nat>, prefix: Path, next: u8)
    requires GroupAt(items, lo, group) && SiblingsAt(items, lo, lo + |group|, parent)
    ensures var r := Parents(Forest(group, prefix, next), lo, parent);
            |r| == |group| && ParentsFrom(items, lo, r)
    decreases |group|
  {
    hide Forest, Parents, IsParent, SiblingsAt;
    if group == [] {
      ForestOfNone(prefix, next);
      ParentsOfNone(lo, parent);
    } else {
      var run, others, first := ForestStep(group, prefix, next);
      var mid := lo + 1 + |run|;
      NextSiblings(items, lo, group, parent);
      ForestParents(items, lo + 1, run, Some(lo), prefix + [next], 0);
      ForestParents(items, mid, others, parent, prefix, Bump(next));
      var below, siblings := Parents(first.inner, lo + 1, Some(lo)), Forest(others, prefix, Bump(next));
      ParentsCons(first, siblings, lo, parent);
      ParentsFromPieces(items, lo, parent, below, Parents(siblings, mid, parent));
    }
  }

  /** Every node hangs below the nearest earlier instruction that encloses it, else below the root;
      a node whose height is missing is a childless child of the root. */
  lemma {:induction false} ParentIsNearestEnclosing(ix: CompiledInstruction, items: seq<IxWithStackHeight>, index: u8)
    ensures var parents := Parents(Tree(ix, items, index).inner, 0, None);
            |parents| == |items|
            && ParentsFrom(items, 0, parents)
            && (forall i :: 0 <= i < |items| && items[i].height == None ==>
                  parents[i] == None && Some(i) !in parents)
  {
    ForestParents(items, 0, items, None, [index], 0);
    var parents := Parents(Tree(ix, items, index).inner, 0, None);
    forall i | 0 <= i < |items| && items[i].height == None ensures parents[i] == None && Some(i) !in parents {
      assert IsParent(items, 0 + i, parents[i]);
      forall k | 0 <= k < |items| ensures parents[k] != Some(i) {
        assert IsParent(items, 0 + k, parents[k]);
      }
    }
  }

  // ---------------------------------------------------------------------------
  // Path length and stack height
  // ---------------------------------------------------------------------------

  /** Heights as the runtime reports them, for siblings at the given height. */
  ghost predicate RisesByOne(items: seq<IxWithStackHeight>, height: nat) {
    (items != [] ==> items[0].height == Some(height))
    && (forall i :: 0 <= i < |items| ==> items[i].height.Some? && items[i].height.value >= height)
    && (forall i, j :: 0 <= i && j == i + 1 < |items| ==>
          items[i].height.Some? && items[j].height.Some? && items[j].height.value <= items[i].height.value + 1)
  }

  function PathLengths(nodes: seq<StackIx>): seq<nat> {
    var flat := Flat(nodes);
    seq(|flat|, i requires 0 <= i < |flat| => |flat[i].path|)
  }

  lemma {:induction false} PathLengthsCons(node: StackIx, others: seq<StackIx>)
    ensures PathLengths([node] + others) == [|node.path|] + PathLengths(node.inner) + PathLengths(others)
  {
    FlatCons(node, others);
  }

  /** Preorder path lengths start at the siblings' own, never go below it and rise by at most one. */
  lemma {:induction false} PathLengthsRiseByOne(nodes: seq<StackIx>, prefix: Path, next: u8)
    requires Numbered(nodes, prefix, next)
    ensures var lens := PathLengths(nodes);
            (nodes != [] ==> lens != [] && lens[0] == |prefix| + 1)
            && (nodes == [] ==> lens == [])
            && (forall i :: 0 <= i < |lens| ==> lens[i] >= |prefix| + 1)
            && (forall i :: 0 <= i < |lens| - 1 ==> lens[i + 1] <= lens[i] + 1)
    decreases nodes
  {
    if nodes != [] {
      assert nodes == [nodes[0]] + nodes[1..];
      NumberedTail(nodes, prefix, next);
      PathLengthsRiseByOne(nodes[0].inner, nodes[0].path, 0);
      PathLengthsRiseByOne(nodes[1..], prefix, Bump(next));
      PathLengthsCons(nodes[0], nodes[1..]);
    }
  }

  lemma {:induction false} PathLengthsAreHeights(items: seq<IxWithStackHeight>, prefix: Path, next: u8)
    requires RisesByOne(items, |prefix| + 1)
    ensures var lens := PathLengths(Forest(items, prefix, next));
            |lens| == |items| && forall i :: 0 <= i < |items| ==> items[i].height == Some(lens[i])
    decreases |items|
  {
    hide Forest, Run, Flat;
    if items == [] {
      ForestOfNone(prefix, next);
      FlatOfNone();
    } else {
      var run, others, first := ForestStep(items, prefix, next);
      RisesWithin(items, |run|, |prefix| + 1);
      PathLengthsAreHeights(run, prefix + [next], 0);
      PathLengthsAreHeights(others, prefix, Bump(next));
      PathLengthsCons(first, Forest(others, prefix, Bump(next)));
      assert items == [items[0]] + run + others;
    }
  }

  /** A well-formed trace is well formed one level down in each node's run, and after it. */
  lemma {:induction false} RisesWithin(items: seq<IxWithStackHeight>, n: nat, height: nat)
    requires items != [] && RisesByOne(items, height)
    requires n == Run(items[0].height, items[1..])
    ensures RisesByOne(items[1..1 + n], height + 1) && RisesByOne(items[1 + n..], height)
  {
    hide Run;
    RunMembers(items[0].height, items[1..]);
    forall i | 1 <= i < 1 + n ensures CanParent(items[0].height, items[i].height) {
      assert items[i] == items[1..][i - 1];
    }
    if 1 + n < |items| { assert items[1 + n] == items[1..][n]; }
  }

  /** Path length equals stack height at every node exactly when the trace starts at height 2,
      never goes below it and rises by at most one. */
  lemma {:induction false} PathLengthIsStackHeight(ix: CompiledInstruction, items: seq<IxWithStackHeight>, index: u8)
    ensures var flat := FlatInnerInstructions(Tree(ix, items, index));
            |flat| == |items|
            && ((forall i :: 0 <= i < |items| ==> items[i].height == Some(|flat[i].path|)) <==> RisesByOne(items, 2))
  {
    hide Forest;
    var forest := Forest(items, [index], 0);
    ForestFlattensToItems(items, [index], 0);
    ForestIsNumbered(items, [index], 0);
    PathLengthsRiseByOne(forest, [index], 0);
    var lens := PathLengths(forest);
    if RisesByOne(items, 2) {
      PathLengthsAreHeights(items, [index], 0);
      assert forall i :: 0 <= i < |items| ==> items[i].height == Some(lens[i]);
    }
    assert forall i :: 0 <= i < |items| ==> lens[i] == |Flat(forest)[i].path|;
  }
}
