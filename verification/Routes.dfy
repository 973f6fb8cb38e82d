/** Orienting the undecoded legs of an aggregator route (graced/src/parse/aggregator/mod.rs). */
module Routes {
  import opened Primitives
  import opened SwapGraph

  datatype MintAmount = MintAmount(mint: Pubkey, amount: u64)

  /** A leg is a known swap, or two dominant mints whose direction is not yet known. */
  datatype LegShape = Known(swap: Swap) | Candidates(a: MintAmount, b: MintAmount)

  datatype Route = Decoded(swap: Swap) | Undecoded(transfers: seq<TokenTransfer>)

  datatype RouteError = AmbiguousTransfers | UnresolvedLeg(leg: nat) | UnknownMint | Resolution(error: SwapGraphError)

  /** `resolve`: orient two candidates by the mint they share with a neighbouring leg. */
  function Resolve(a: MintAmount, b: MintAmount, held: Pubkey, asInput: bool): Option<Swap> {
    if a.mint != held && b.mint != held then None else
      var (matched, other) := if a.mint == held then (a, b) else (b, a);
      Some(if asInput then Swap(matched.mint, other.mint, matched.amount, other.amount)
           else Swap(other.mint, matched.mint, other.amount, matched.amount))
  }

  // ---------------------------------------------------------------------------
  // Candidates of an undecoded leg
  // ---------------------------------------------------------------------------

  ghost predicate MintsKnown(transfers: seq<TokenTransfer>) {
    forall i :: 0 <= i < |transfers| ==> transfers[i].mint.Some?
  }

  /** The mints that the transfers move. */
  function Mints(transfers: seq<TokenTransfer>): set<Pubkey> {
    set i | 0 <= i < |transfers| && transfers[i].mint.Some? :: transfers[i].mint.value
  }

  /** The total moved of one mint, as the unchecked u64 sum. */
  function Total(transfers: seq<TokenTransfer>, mint: Pubkey): u64 {
    if transfers == [] then 0 else
      var last := transfers[|transfers| - 1];
      var before := Total(transfers[..|transfers| - 1], mint);
      if last.mint == Some(mint) then WrapAdd(before, last.amount) else before
  }

  /** Two mints, with their totals, that no other mint's total exceeds. */
  ghost predicate Dominant(transfers: seq<TokenTransfer>, a: MintAmount, b: MintAmount) {
    a.mint != b.mint && {a.mint, b.mint} <= Mints(transfers)
    && a.amount == Total(transfers, a.mint) && b.amount == Total(transfers, b.mint)
    && a.amount >= b.amount
    && forall m :: m in Mints(transfers) && m != a.mint ==> Total(transfers, m) <= b.amount
  }

  predicate Descending(items: seq<MintAmount>) {
    forall i, j :: 0 <= i < j < |items| ==> items[i].amount >= items[j].amount
  }

  ghost predicate DistinctMints(items: seq<MintAmount>) {
    forall i, j :: 0 <= i < j < |items| ==> items[i].mint != items[j].mint
  }

  /** Each mint of the set is listed once, with its total. */
  ghost predicate Lists(items: seq<MintAmount>, mints: set<Pubkey>, totals: map<Pubkey, u64>)
    requires mints <= totals.Keys
  {
    && (forall item :: item in items ==> item.mint in mints && item.amount == totals[item.mint])
    && (forall m :: m in mints ==> MintAmount(m, totals[m]) in items)
  }

  /** `into_iter().collect()` in whatever order the hash map yields, then the sort by descending amount. */
  method SortedTotals(totals: map<Pubkey, u64>) returns (sorted: seq<MintAmount>)
    ensures Lists(sorted, totals.Keys, totals) && DistinctMints(sorted) && Descending(sorted)
  {
    sorted := [];
    var rest := totals.Keys;
    while rest != {}
      invariant rest <= totals.Keys
      invariant Lists(sorted, totals.Keys - rest, totals) && DistinctMints(sorted) && Descending(sorted)
      decreases rest
    {
      var mint :| mint in rest;
      var item := MintAmount(mint, totals[mint]);
      var k := |sorted|;
      while k > 0 && sorted[k - 1].amount < item.amount
        invariant 0 <= k <= |sorted|
        invariant forall i :: k <= i < |sorted| ==> sorted[i].amount < item.amount
      {
        k := k - 1;
      }
      ghost var was := sorted;
      sorted := sorted[..k] + [item] + sorted[k..];
      InsertedLists(was, k, item, totals.Keys - rest, totals);
      InsertedDescends(was, k, item);
      InsertedDistinct(was, k, item);
      assert totals.Keys - (rest - {mint}) == (totals.Keys - rest) + {mint};
      rest := rest - {mint};
    }
    assert totals.Keys - rest == totals.Keys;
  }

  lemma {:induction false} InsertedLists(items: seq<MintAmount>, k: nat, item: MintAmount, mints: set<Pubkey>,
                                         totals: map<Pubkey, u64>)
    requires k <= |items| && mints <= totals.Keys && Lists(items, mints, totals)
    requires item.mint in totals && item.mint !in mints && item.amount == totals[item.mint]
    ensures Lists(items[..k] + [item] + items[k..], mints + {item.mint}, totals)
  {
    assert items == items[..k] + items[k..];
  }

  lemma {:induction false} InsertedDistinct(items: seq<MintAmount>, k: nat, item: MintAmount)
    requires k <= |items| && DistinctMints(items)
    requires forall i :: 0 <= i < |items| ==> items[i].mint != item.mint
    ensures DistinctMints(items[..k] + [item] + items[k..])
  {
  }

  lemma InsertedDescends(items: seq<MintAmount>, k: nat, item: MintAmount)
    requires k <= |items| && Descending(items)
    requires k > 0 ==> items[k - 1].amount >= item.amount
    requires forall i :: k <= i < |items| ==> items[i].amount < item.amount
    ensures Descending(items[..k] + [item] + items[k..])
  {
  }

  /** One more transfer adds its mint and its amount. */
  lemma {:induction false} TotalsStep(transfers: seq<TokenTransfer>, i: nat)
    requires i < |transfers| && transfers[i].mint.Some?
    ensures Mints(transfers[..i + 1]) == Mints(transfers[..i]) + {transfers[i].mint.value}
    ensures forall m :: Total(transfers[..i + 1], m)
              == if transfers[i].mint == Some(m) then WrapAdd(Total(transfers[..i], m), transfers[i].amount)
                 else Total(transfers[..i], m)
  {
    var longer, shorter := transfers[..i + 1], transfers[..i];
    assert longer[..i] == shorter && longer[i] == transfers[i];
    forall m | m in Mints(shorter) ensures m in Mints(longer) {
      var k :| 0 <= k < i && shorter[k].mint == Some(m);
      assert longer[k].mint == Some(m);
    }
  }

  /** The first two of the sorted totals dominate. */
  lemma {:induction false} TopTwoDominate(transfers: seq<TokenTransfer>, totals: map<Pubkey, u64>,
                                          sorted: seq<MintAmount>)
    requires totals.Keys == Mints(transfers) && forall m :: m in totals ==> totals[m] == Total(transfers, m)
    requires Lists(sorted, totals.Keys, totals) && DistinctMints(sorted) && Descending(sorted) && |sorted| >= 2
    ensures Dominant(transfers, sorted[0], sorted[1])
  {
    hide Mints, Total;
    forall m | m in totals && m != sorted[0].mint ensures totals[m] <= sorted[1].amount {
      var k :| 0 <= k < |sorted| && sorted[k] == MintAmount(m, totals[m]);
    }
    assert sorted[0] in sorted && sorted[1] in sorted;
  }

  /** Some transfer does not name its mint. */
  ghost predicate MintUnknown(transfers: seq<TokenTransfer>) {
    exists i :: 0 <= i < |transfers| && transfers[i].mint == None
  }

  /** Every transfer names its mint, and no two name different ones. */
  ghost predicate OneMintAtMost(transfers: seq<TokenTransfer>) {
    !MintUnknown(transfers)
    && forall i, j :: 0 <= i < j < |transfers| ==> transfers[i].mint == transfers[j].mint
  }

  lemma {:induction false} PairFits<T>(a: T, b: T, s: set<T>)
    requires a != b && a in s && b in s
    ensures |s| >= 2
  {
    assert a in s - {b};
    assert s == (s - {b}) + {b};
  }

  /** There are fewer than two mints exactly when no two transfers differ in theirs. */
  lemma {:induction false} FewMints(transfers: seq<TokenTransfer>)
    requires MintsKnown(transfers)
    ensures |Mints(transfers)| < 2 <==> OneMintAtMost(transfers)
  {
    if OneMintAtMost(transfers) {
      var mints := Mints(transfers);
      assert mints <= if transfers == [] then {} else {transfers[0].mint.value};
      assert transfers == [] || mints == {} || mints == {transfers[0].mint.value};
    } else {
      var i, j :| 0 <= i < j < |transfers| && transfers[i].mint != transfers[j].mint;
      PairFits(transfers[i].mint.value, transfers[j].mint.value, Mints(transfers));
    }
  }

  lemma NothingMoved()
    ensures Mints([]) == {} && forall m :: Total([], m) == 0
  {
  }

  /** `candidates_from_transfers`. */
  method CandidatesFromTransfers(transfers: seq<TokenTransfer>) returns (r: Result<LegShape, RouteError>)
    ensures r.Ok? <==> ShapeError(Undecoded(transfers)) == None
    ensures r.Ok? ==> ShapeOf(Undecoded(transfers), r.value)
    ensures r.Err? ==> ShapeError(Undecoded(transfers)) == Some(r.error)
    ensures r == Err(UnknownMint) <==> MintUnknown(transfers)
    ensures r == Err(AmbiguousTransfers) <==> OneMintAtMost(transfers)
    ensures r.Ok? <==> !MintUnknown(transfers) && !OneMintAtMost(transfers)
  {
    hide Mints, Total, Dominant;
    var totals: map<Pubkey, u64> := map[];
    assert transfers[..0] == [];
    NothingMoved();
    for i := 0 to |transfers|
      invariant MintsKnown(transfers[..i])
      invariant totals.Keys == Mints(transfers[..i])
      invariant forall m :: Total(transfers[..i], m) == if m in totals then totals[m] else 0
    {
      if transfers[i].mint == None {
        assert MintUnknown(transfers);
        return Err(UnknownMint);
      }
      TotalsStep(transfers, i);
      var mint := transfers[i].mint.value;
      totals := totals[mint := WrapAdd(if mint in totals then totals[mint] else 0, transfers[i].amount)];
    }
    assert transfers[..|transfers|] == transfers;
    var sorted := SortedTotals(totals);
    SizeOfListing(sorted, totals.Keys, totals);
    FewMints(transfers);
    if |sorted| < 2 {
      return Err(AmbiguousTransfers);
    }
    TopTwoDominate(transfers, totals, sorted);
    return Ok(Candidates(sorted[0], sorted[1]));
  }

  lemma {:induction false} SizeOfListing(items: seq<MintAmount>, mints: set<Pubkey>, totals: map<Pubkey, u64>)
    requires mints <= totals.Keys && Lists(items, mints, totals) && DistinctMints(items)
    ensures |items| == |mints|
    decreases |items|
  {
    if items == [] {
      assert mints == {};
    } else {
      var n := |items| - 1;
      var mint := items[n].mint;
      forall m | m in mints - {mint} ensures MintAmount(m, totals[m]) in items[..n] {
        var k :| 0 <= k < |items| && items[k] == MintAmount(m, totals[m]);
        assert items[..n][k] == items[k];
      }
      SizeOfListing(items[..n], mints - {mint}, totals);
    }
  }

  // ---------------------------------------------------------------------------
  // The two passes
  // ---------------------------------------------------------------------------

  /** The mint a leg hands on to the next one, when it is known. */
  function OutOf(shape: LegShape): Option<Pubkey> {
    if shape.Known? then Some(shape.swap.outputMint) else None
  }

  /** The mint a leg takes from the previous one, when it is known. */
  function InOf(shape: LegShape): Option<Pubkey> {
    if shape.Known? then Some(shape.swap.inputMint) else None
  }

  /** What one pass makes of a leg, given the mint it holds when it gets there. */
  function Orient(shape: LegShape, held: Option<Pubkey>, asInput: bool): LegShape {
    if shape.Known? || held == None then shape else
      var resolved := Resolve(shape.a, shape.b, held.value, asInput);
      if resolved.Some? then Known(resolved.value) else shape
  }

  function Forward(shapes: seq<LegShape>, current: Option<Pubkey>): (r: seq<LegShape>)
    ensures |r| == |shapes|
  {
    if shapes == [] then [] else
      var leg := Orient(shapes[0], current, true);
      [leg] + Forward(shapes[1..], OutOf(leg))
  }

  function Backward(shapes: seq<LegShape>): (r: seq<LegShape>)
    ensures |r| == |shapes|
  {
    if shapes == [] then [] else
      var rest := Backward(shapes[1..]);
      [Orient(shapes[0], if rest == [] then None else InOf(rest[0]), false)] + rest
  }

  /** How many leading legs are known. */
  function KnownPrefix(shapes: seq<LegShape>): (n: nat)
    ensures n <= |shapes|
    ensures forall k :: 0 <= k < n ==> shapes[k].Known?
    ensures n < |shapes| ==> shapes[n].Candidates?
  {
    if shapes == [] || shapes[0].Candidates? then 0 else 1 + KnownPrefix(shapes[1..])
  }

  function Collected(shapes: seq<LegShape>): Result<seq<Swap>, RouteError> {
    var n := KnownPrefix(shapes);
    if n < |shapes| then Err(UnresolvedLeg(n))
    else Ok(seq(|shapes|, i requires 0 <= i < |shapes| => shapes[i].swap))
  }

  function ResolveAll(shapes: seq<LegShape>): Result<seq<Swap>, RouteError> {
    Collected(Backward(Forward(shapes, None)))
  }

  lemma ForwardHead(shapes: seq<LegShape>, current: Option<Pubkey>)
    requires shapes != []
    ensures var leg := Orient(shapes[0], current, true);
            Forward(shapes, current) == [leg] + Forward(shapes[1..], OutOf(leg))
  {
  }

  lemma ForwardNone(current: Option<Pubkey>)
    ensures Forward([], current) == []
  {
  }

  method ForwardPass(shapes: array<LegShape>)
    modifies shapes
    ensures shapes[..] == Forward(old(shapes[..]), None)
  {
    hide Resolve, Forward;
    var currentMint: Option<Pubkey> := None;
    ghost var was := shapes[..];
    for i := 0 to shapes.Length
      invariant shapes[i..] == was[i..]
      invariant shapes[..i] + Forward(was[i..], currentMint) == Forward(was, None)
    {
      ghost var held := currentMint;
      ForwardHead(was[i..], held);
      assert was[i..][1..] == was[i + 1..];
      match shapes[i] {
        case Known(s) => currentMint := Some(s.outputMint);
        case Candidates(a, b) =>
          var resolved := if currentMint.Some? then Resolve(a, b, currentMint.value, true) else None;
          if resolved.Some? {
            currentMint := Some(resolved.value.outputMint);
            shapes[i] := Known(resolved.value);
          } else {
            currentMint := None;
          }
      }
      assert shapes[i] == Orient(was[i], held, true) && currentMint == OutOf(shapes[i]);
      assert shapes[..i + 1] == shapes[..i] + [shapes[i]];
    }
    ForwardNone(currentMint);
    assert was[shapes.Length..] == [] && shapes[..shapes.Length] == shapes[..];
  }

  method BackwardPass(shapes: array<LegShape>)
    modifies shapes
    ensures shapes[..] == Backward(old(shapes[..]))
  {
    hide Resolve;
    var nextMint: Option<Pubkey> := None;
    ghost var was := shapes[..];
    for i := shapes.Length downto 0
      invariant shapes[..i] == was[..i]
      invariant shapes[i..] == Backward(was[i..])
      invariant nextMint == if i == shapes.Length then None else InOf(shapes[i])
    {
      ghost var held := nextMint;
      assert was[i..][1..] == was[i + 1..];
      match shapes[i] {
        case Known(s) => nextMint := Some(s.inputMint);
        case Candidates(a, b) =>
          var resolved := if nextMint.Some? then Resolve(a, b, nextMint.value, false) else None;
          if resolved.Some? {
            nextMint := Some(resolved.value.inputMint);
            shapes[i] := Known(resolved.value);
          } else {
            nextMint := None;
          }
      }
      assert shapes[i] == Orient(was[i], held, false) && nextMint == InOf(shapes[i]);
      assert shapes[i..] == [shapes[i]] + shapes[i + 1..];
    }
    assert shapes[0..] == shapes[..];
  }

  // ---------------------------------------------------------------------------
  // to_swaps and Routes::swap
  // ---------------------------------------------------------------------------

  /** The error an undecoded leg gives before any pass is run. */
  ghost function ShapeError(route: Route): Option<RouteError> {
    if route.Decoded? then None
    else if !MintsKnown(route.transfers) then Some(UnknownMint)
    else if |Mints(route.transfers)| < 2 then Some(AmbiguousTransfers)
    else None
  }

  /** A shape that a route may get; ties between totals may fall either way. */
  ghost predicate ShapeOf(route: Route, shape: LegShape) {
    match route
    case Decoded(s) => shape == Known(s)
    case Undecoded(transfers) => shape.Candidates? && Dominant(transfers, shape.a, shape.b)
  }

  ghost predicate ShapesOf(routes: seq<Route>, shapes: seq<LegShape>) {
    |shapes| == |routes| && forall i :: 0 <= i < |routes| ==>
      ShapeError(routes[i]) == None && ShapeOf(routes[i], shapes[i])
  }

  /** The first leg whose transfers give an error. */
  ghost predicate FirstBadLeg(routes: seq<Route>, i: nat) {
    i < |routes| && ShapeError(routes[i]).Some? && forall j :: 0 <= j < i ==> ShapeError(routes[j]) == None
  }

  /** The results `to_swaps` may give. */
  ghost predicate MayGiveSwaps(routes: seq<Route>, r: Result<seq<Swap>, RouteError>) {
    (exists i: nat :: FirstBadLeg(routes, i) && r == Err(ShapeError(routes[i]).value))
    || (exists shapes :: ShapesOf(routes, shapes) && r == ResolveAll(shapes))
  }

  /** The initial shapes of `to_swaps`, or the error of the first leg that has none. */
  method InitialShapes(routes: seq<Route>) returns (shapes: array<LegShape>, error: Option<RouteError>)
    ensures fresh(shapes)
    ensures error == None ==> ShapesOf(routes, shapes[..])
    ensures error.Some? ==> exists i: nat :: FirstBadLeg(routes, i) && error == ShapeError(routes[i])
  {
    shapes := new LegShape[|routes|];
    for i := 0 to |routes|
      invariant forall j :: 0 <= j < i ==> ShapeError(routes[j]) == None && ShapeOf(routes[j], shapes[j])
    {
      match routes[i] {
        case Decoded(s) => shapes[i] := Known(s);
        case Undecoded(transfers) =>
          var candidates := CandidatesFromTransfers(transfers);
          if candidates.Err? {
            assert FirstBadLeg(routes, i);
            return shapes, Some(candidates.error);
          }
          shapes[i] := candidates.value;
      }
    }
    return shapes, None;
  }

  /** The final collection of `to_swaps`. */
  method Collect(shapes: array<LegShape>) returns (r: Result<seq<Swap>, RouteError>)
    ensures r == Collected(shapes[..])
  {
    var swaps: seq<Swap> := [];
    for i := 0 to shapes.Length
      invariant |swaps| == i
      invariant forall k :: 0 <= k < i ==> shapes[k] == Known(swaps[k])
    {
      match shapes[i] {
        case Known(s) => swaps := swaps + [s];
        case Candidates(_, _) =>
          ghost var n := KnownPrefix(shapes[..]);
          assert n <= i && shapes[..][n] == shapes[n];
          return Err(UnresolvedLeg(i));
      }
    }
    assert KnownPrefix(shapes[..]) == shapes.Length;
    assert swaps == Collected(shapes[..]).value;
    return Ok(swaps);
  }

  /** `to_swaps`. */
  method ToSwaps(routes: seq<Route>) returns (r: Result<seq<Swap>, RouteError>)
    ensures MayGiveSwaps(routes, r)
  {
    var shapes, error := InitialShapes(routes);
    if error.Some? {
      return Err(error.value);
    }
    ghost var initial := shapes[..];
    ForwardPass(shapes);
    BackwardPass(shapes);
    r := Collect(shapes);
    assert r == ResolveAll(initial);
  }

  function NetOf(r: Result<seq<Swap>, RouteError>): Result<Swap, RouteError> {
    if r.Err? then Err(r.error) else
      var net := Net(r.value);
      if net.Err? then Err(Resolution(net.error)) else Ok(net.value)
  }

  /** The results `Routes::swap` may give. */
  ghost predicate MayNetTo(routes: seq<Route>, r: Result<Swap, RouteError>) {
    exists swaps :: MayGiveSwaps(routes, swaps) && r == NetOf(swaps)
  }

  /** Legs that are all decoded pass through both passes unchanged. */
  lemma {:induction false} DecodedPassThrough(shapes: seq<LegShape>, current: Option<Pubkey>)
    requires forall i :: 0 <= i < |shapes| ==> shapes[i].Known?
    ensures Forward(shapes, current) == shapes && Backward(shapes) == shapes
  {
    if shapes != [] {
      DecodedPassThrough(shapes[1..], OutOf(shapes[0]));
    }
  }

  /** `Routes::swap`. */
  method RoutesSwap(routes: seq<Route>) returns (r: Result<Swap, RouteError>)
    ensures MayNetTo(routes, r)
  {
    var swaps: Result<seq<Swap>, RouteError>;
    if exists i :: 0 <= i < |routes| && !routes[i].Decoded? {
      swaps := ToSwaps(routes);
    } else {
      swaps := Ok(seq(|routes|, i requires 0 <= i < |routes| => routes[i].swap));
      ghost var shapes := seq(|routes|, i requires 0 <= i < |routes| => Known(routes[i].swap));
      DecodedPassThrough(shapes, None);
      assert ShapesOf(routes, shapes);
      assert KnownPrefix(shapes) == |shapes|;
      assert swaps.value == seq(|shapes|, i requires 0 <= i < |shapes| => shapes[i].swap);
      assert ResolveAll(shapes) == swaps;
    }
    if swaps.Err? {
      return Err(swaps.error);
    }
    var net := NetSwap(swaps.value);
    r := match net { case Ok(s) => Ok(s) case Err(e) => Err(Resolution(e)) };
    assert r == NetOf(swaps);
  }
}
