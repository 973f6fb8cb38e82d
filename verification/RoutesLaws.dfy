/** What orienting a route guarantees: soundness, exactly when it succeeds, recovery of hidden directions,
    and the end-to-end net swap. */
module RoutesLaws {
  import opened Primitives
  import opened SwapGraph
  import opened SwapGraphLaws
  import opened Routes

  // ---------------------------------------------------------------------------
  // The passes, leg by leg
  // ---------------------------------------------------------------------------

  lemma {:induction false} ForwardAt(shapes: seq<LegShape>, current: Option<Pubkey>, i: nat)
    requires i < |shapes|
    ensures var r := Forward(shapes, current);
            r[i] == Orient(shapes[i], if i == 0 then current else OutOf(r[i - 1]), true)
    decreases |shapes|
  {
    if i > 0 {
      ForwardAt(shapes[1..], OutOf(Orient(shapes[0], current, true)), i - 1);
    }
  }

  lemma {:induction false} BackwardAt(shapes: seq<LegShape>, i: nat)
    requires i < |shapes|
    ensures var r := Backward(shapes);
            r[i] == Orient(shapes[i], if i + 1 == |shapes| then None else InOf(r[i + 1]), false)
    decreases |shapes|
  {
    if i > 0 {
      BackwardAt(shapes[1..], i - 1);
    }
  }

  // ---------------------------------------------------------------------------
  // Soundness
  // ---------------------------------------------------------------------------

  /** The swap runs between the two candidates, one way or the other. */
  ghost predicate Orientation(s: Swap, a: MintAmount, b: MintAmount) {
    s == Swap(a.mint, b.mint, a.amount, b.amount) || s == Swap(b.mint, a.mint, b.amount, a.amount)
  }

  /** Decoded legs are untouched; every other leg comes out as an orientation of its two candidates
      that starts where the previous leg ended or ends where the next leg starts. */
  lemma {:induction false} OrientedLegsAreLinked(shapes: seq<LegShape>, i: nat)
    requires ResolveAll(shapes).Ok? && i < |shapes|
    ensures var swaps := ResolveAll(shapes).value;
            |swaps| == |shapes|
            && match shapes[i]
               case Known(s) => swaps[i] == s
               case Candidates(a, b) =>
                 Orientation(swaps[i], a, b)
                 && ((i > 0 && swaps[i].inputMint == swaps[i - 1].outputMint)
                     || (i + 1 < |swaps| && swaps[i].outputMint == swaps[i + 1].inputMint))
  {
    var fwd := Forward(shapes, None);
    var end := Backward(fwd);
    ForwardAt(shapes, None, i);
    BackwardAt(fwd, i);
    if i > 0 { BackwardAt(fwd, i - 1); }
  }

  /** The same for whole routes: the two mints of an oriented leg are dominant in its transfers. */
  lemma {:induction false} SwapsAreSound(routes: seq<Route>, swaps: seq<Swap>, i: nat)
    requires MayGiveSwaps(routes, Ok(swaps)) && i < |routes|
    ensures |swaps| == |routes|
    ensures match routes[i]
            case Decoded(s) => swaps[i] == s
            case Undecoded(transfers) =>
              (exists a, b :: Dominant(transfers, a, b) && Orientation(swaps[i], a, b))
              && ((i > 0 && swaps[i].inputMint == swaps[i - 1].outputMint)
                  || (i + 1 < |swaps| && swaps[i].outputMint == swaps[i + 1].inputMint))
  {
    var shapes: seq<LegShape> :| ShapesOf(routes, shapes) && Ok(swaps) == ResolveAll(shapes);
    assert ShapeOf(routes[i], shapes[i]);
    OrientedLegsAreLinked(shapes, i);
  }

  // ---------------------------------------------------------------------------
  // Failure
  // ---------------------------------------------------------------------------

  ghost predicate NoMint(route: Route) {
    route.Undecoded? && MintUnknown(route.transfers)
  }

  ghost predicate NoPair(route: Route) {
    route.Undecoded? && OneMintAtMost(route.transfers)
  }

  lemma {:induction false} ShapeErrorExactly(route: Route)
    ensures ShapeError(route) == Some(UnknownMint) <==> NoMint(route)
    ensures ShapeError(route) == Some(AmbiguousTransfers) <==> NoPair(route)
    ensures ShapeError(route) in {None, Some(UnknownMint), Some(AmbiguousTransfers)}
  {
    if route.Undecoded? && MintsKnown(route.transfers) {
      FewMints(route.transfers);
    }
  }

  /** Leg `i` is the first one that has an unnamed mint or no two mints. */
  ghost predicate FirstWithoutPair(routes: seq<Route>, i: nat) {
    i < |routes| && (NoMint(routes[i]) || NoPair(routes[i]))
    && forall j :: 0 <= j < i ==> !NoMint(routes[j]) && !NoPair(routes[j])
  }

  /** `to_swaps` fails for the first leg whose transfers leave a mint unnamed or do not name two mints, with that leg's
      error and whatever the other legs are; without such a leg it succeeds or names an unresolved leg. */
  lemma {:induction false} FirstBadLegDecides(routes: seq<Route>, r: Result<seq<Swap>, RouteError>)
    requires MayGiveSwaps(routes, r)
    ensures forall i: nat :: FirstWithoutPair(routes, i) ==>
              r == Err(if NoMint(routes[i]) then UnknownMint else AmbiguousTransfers)
    ensures (forall i :: 0 <= i < |routes| ==> !NoMint(routes[i]) && !NoPair(routes[i])) ==>
              r.Ok? || r.error.UnresolvedLeg?
  {
    hide NoMint, NoPair, ResolveAll;
    forall i | 0 <= i < |routes|
      ensures ShapeError(routes[i]) == None <==> !NoMint(routes[i]) && !NoPair(routes[i])
    {
      ShapeErrorExactly(routes[i]);
    }
    forall i: nat | FirstWithoutPair(routes, i)
      ensures r == Err(if NoMint(routes[i]) then UnknownMint else AmbiguousTransfers)
    {
      ShapeErrorExactly(routes[i]);
      assert !exists shapes :: ShapesOf(routes, shapes) && r == ResolveAll(shapes);
      var j: nat :| FirstBadLeg(routes, j) && r == Err(ShapeError(routes[j]).value);
      assert !(i < j) && !(j < i);
    }
    if forall i :: 0 <= i < |routes| ==> !NoMint(routes[i]) && !NoPair(routes[i]) {
      var shapes: seq<LegShape> :| ShapesOf(routes, shapes) && r == ResolveAll(shapes);
      ResolvingFails(shapes);
    }
  }

  lemma ResolvingFails(shapes: seq<LegShape>)
    ensures ResolveAll(shapes).Ok? || ResolveAll(shapes).error.UnresolvedLeg?
  {
  }

  /** `Routes::swap` passes the error of `to_swaps` on and wraps that of netting; otherwise its answer is the net of
      swaps that `to_swaps` may give. */
  lemma {:induction false} NettedExactly(routes: seq<Route>, r: Result<Swap, RouteError>)
    ensures MayNetTo(routes, r)
            <==> match r
                 case Err(Resolution(e)) => exists swaps :: MayGiveSwaps(routes, Ok(swaps)) && Net(swaps) == Err(e)
                 case Err(e) => MayGiveSwaps(routes, Err(e))
                 case Ok(s) => exists swaps :: MayGiveSwaps(routes, Ok(swaps)) && Net(swaps) == Ok(s)
  {
    hide MayGiveSwaps, Net;
    forall e | MayGiveSwaps(routes, Err(e)) ensures !e.Resolution? {
      FailsBeforeNetting(routes, e);
    }
  }

  lemma {:induction false} FailsBeforeNetting(routes: seq<Route>, e: RouteError)
    requires MayGiveSwaps(routes, Err(e))
    ensures !e.Resolution?
  {
    hide ResolveAll;
    if shapes: seq<LegShape> :| ShapesOf(routes, shapes) && Err(e) == ResolveAll(shapes) {
      ResolvingFails(shapes);
    }
  }

  /** A fully decoded route nets to the net of its legs, an empty one to the empty-route error. */
  lemma {:induction false} DecodedRouteNets(swaps: seq<Swap>, r: Result<Swap, RouteError>)
    requires MayNetTo(seq(|swaps|, i requires 0 <= i < |swaps| => Decoded(swaps[i])), r)
    ensures match Net(swaps)
            case Ok(s) => r == Ok(s)
            case Err(e) => r == Err(Resolution(e))
    ensures swaps == [] ==> r == Err(Resolution(EmptyRoute))
  {
    hide Net, ResolveAll;
    var routes := seq(|swaps|, i requires 0 <= i < |swaps| => Decoded(swaps[i]));
    var known := seq(|swaps|, i requires 0 <= i < |swaps| => Known(swaps[i]));
    var given :| MayGiveSwaps(routes, given) && r == NetOf(given);
    var shapes: seq<LegShape> :| ShapesOf(routes, shapes) && given == ResolveAll(shapes);
    assert shapes == known;
    DecodedAreCollected(swaps, known);
    assert [] == swaps ==> Net(swaps) == Err(EmptyRoute) by { NetFailsExactly(swaps, Pubkey(0), 0); }
  }

  lemma {:induction false} DecodedAreCollected(swaps: seq<Swap>, shapes: seq<LegShape>)
    requires |shapes| == |swaps| && forall i :: 0 <= i < |swaps| ==> shapes[i] == Known(swaps[i])
    ensures ResolveAll(shapes) == Ok(swaps)
  {
    DecodedPassThrough(shapes, None);
    CollectedKnown(swaps, shapes);
  }

  // ---------------------------------------------------------------------------
  // Completeness
  // ---------------------------------------------------------------------------

  /** The leg is undecoded and moves from one of the two mints to the other. */
  ghost predicate Traverses(shape: LegShape, from: Pubkey, to: Pubkey) {
    shape.Candidates?
    && ((shape.a.mint == from && shape.b.mint == to) || (shape.b.mint == from && shape.a.mint == to))
  }

  /** An unbroken chain of shared mints from the known leg `j` up to leg `i`; `mints[k]` leaves leg `j + k`. */
  ghost predicate ForwardLink(shapes: seq<LegShape>, j: nat, i: nat, mints: seq<Pubkey>) {
    j <= i < |shapes| && |mints| == i - j + 1
    && shapes[j].Known? && mints[0] == shapes[j].swap.outputMint
    && forall k :: j < k <= i ==> Traverses(shapes[k], mints[k - j - 1], mints[k - j])
  }

  /** An unbroken chain of shared mints from the known leg `j` down to leg `i`; `mints[k]` enters leg `j - k`. */
  ghost predicate BackwardLink(shapes: seq<LegShape>, j: nat, i: nat, mints: seq<Pubkey>) {
    i <= j < |shapes| && |mints| == j - i + 1
    && shapes[j].Known? && mints[0] == shapes[j].swap.inputMint
    && forall k :: i <= k < j ==> Traverses(shapes[k], mints[j - k - 1], mints[j - k])
  }

  lemma {:induction false} ForwardFollowsLink(shapes: seq<LegShape>, j: nat, i: nat, mints: seq<Pubkey>)
    requires ForwardLink(shapes, j, i, mints)
    ensures OutOf(Forward(shapes, None)[i]) == Some(mints[i - j])
    decreases i
  {
    ForwardAt(shapes, None, i);
    if j < i {
      forall k | j < k <= i - 1 ensures Traverses(shapes[k], mints[..i - j][k - j - 1], mints[..i - j][k - j]) {
        assert Traverses(shapes[k], mints[k - j - 1], mints[k - j]);
      }
      ForwardFollowsLink(shapes, j, i - 1, mints[..i - j]);
      assert Traverses(shapes[i], mints[i - j - 1], mints[i - j]);
    }
  }

  lemma {:induction false} ForwardHasLink(shapes: seq<LegShape>, i: nat) returns (j: nat, mints: seq<Pubkey>)
    requires i < |shapes| && Forward(shapes, None)[i].Known?
    ensures ForwardLink(shapes, j, i, mints) && OutOf(Forward(shapes, None)[i]) == Some(mints[i - j])
    decreases i
  {
    ForwardAt(shapes, None, i);
    if shapes[i].Known? {
      j, mints := i, [shapes[i].swap.outputMint];
    } else {
      var before;
      j, before := ForwardHasLink(shapes, i - 1);
      mints := before + [Forward(shapes, None)[i].swap.outputMint];
      forall k | j < k <= i ensures Traverses(shapes[k], mints[k - j - 1], mints[k - j]) {
        if k < i { assert Traverses(shapes[k], before[k - j - 1], before[k - j]); }
      }
    }
  }

  lemma {:induction false} BackwardFollowsLink(shapes: seq<LegShape>, j: nat, i: nat, mints: seq<Pubkey>)
    requires BackwardLink(shapes, j, i, mints)
    ensures InOf(Backward(shapes)[i]) == Some(mints[j - i])
    decreases j - i
  {
    BackwardAt(shapes, i);
    if i < j {
      forall k | i + 1 <= k < j ensures Traverses(shapes[k], mints[..j - i][j - k - 1], mints[..j - i][j - k]) {
        assert Traverses(shapes[k], mints[j - k - 1], mints[j - k]);
      }
      BackwardFollowsLink(shapes, j, i + 1, mints[..j - i]);
      assert Traverses(shapes[i], mints[j - i - 1], mints[j - i]);
    }
  }

  lemma {:induction false} BackwardHasLink(shapes: seq<LegShape>, i: nat) returns (j: nat, mints: seq<Pubkey>)
    requires i < |shapes| && Backward(shapes)[i].Known?
    ensures BackwardLink(shapes, j, i, mints) && InOf(Backward(shapes)[i]) == Some(mints[j - i])
    decreases |shapes| - i
  {
    BackwardAt(shapes, i);
    if shapes[i].Known? {
      j, mints := i, [shapes[i].swap.inputMint];
    } else {
      var after;
      j, after := BackwardHasLink(shapes, i + 1);
      mints := after + [Backward(shapes)[i].swap.inputMint];
      forall k | i <= k < j ensures Traverses(shapes[k], mints[j - k - 1], mints[j - k]) {
        if i < k { assert Traverses(shapes[k], after[j - k - 1], after[j - k]); }
      }
    }
  }

  /** After the forward pass a leg is known exactly when a chain leads to it from an earlier decoded leg. */
  lemma {:induction false} ForwardKnownExactly(shapes: seq<LegShape>, i: nat)
    requires i < |shapes|
    ensures Forward(shapes, None)[i].Known? <==> exists j, mints :: ForwardLink(shapes, j, i, mints)
  {
    if Forward(shapes, None)[i].Known? {
      var j, mints := ForwardHasLink(shapes, i);
    }
    if j: nat, mints :| ForwardLink(shapes, j, i, mints) {
      ForwardFollowsLink(shapes, j, i, mints);
    }
  }

  /** Which way an undecoded leg comes out: along a chain from an earlier decoded leg whenever there is one, from the
      mint that the chain brings to the next; otherwise towards the leg after it. */
  lemma {:induction false} EarlierChainDecides(shapes: seq<LegShape>, i: nat)
    requires ResolveAll(shapes).Ok? && i < |shapes| && shapes[i].Candidates?
    ensures var swaps := ResolveAll(shapes).value;
            |swaps| == |shapes|
            && (forall j, mints :: ForwardLink(shapes, j, i, mints) ==>
                  swaps[i].inputMint == mints[i - j - 1] && swaps[i].outputMint == mints[i - j])
            && ((forall j, mints :: !ForwardLink(shapes, j, i, mints)) ==>
                  i + 1 < |swaps| && swaps[i].outputMint == swaps[i + 1].inputMint)
  {
    var fwd := Forward(shapes, None);
    var swaps := ResolveAll(shapes).value;
    ForwardAt(shapes, None, i);
    BackwardAt(fwd, i);
    ForwardKnownExactly(shapes, i);
    forall j: nat, mints | ForwardLink(shapes, j, i, mints)
      ensures swaps[i].inputMint == mints[i - j - 1] && swaps[i].outputMint == mints[i - j]
    {
      ForwardFollowsLink(shapes, j, i, mints);
      LinkBefore(shapes, j, i, mints);
      assert Traverses(shapes[i], mints[i - j - 1], mints[i - j]);
    }
  }

  /** The chain up to the leg before. */
  lemma {:induction false} LinkBefore(shapes: seq<LegShape>, j: nat, i: nat, mints: seq<Pubkey>)
    requires ForwardLink(shapes, j, i, mints) && j < i
    ensures OutOf(Forward(shapes, None)[i - 1]) == Some(mints[i - j - 1])
  {
    forall k | j < k <= i - 1 ensures Traverses(shapes[k], mints[..i - j][k - j - 1], mints[..i - j][k - j]) {
      assert Traverses(shapes[k], mints[k - j - 1], mints[k - j]);
    }
    ForwardFollowsLink(shapes, j, i - 1, mints[..i - j]);
  }

  /** A chain leads to the leg from a leg at or after it that the forward pass left known. */
  ghost predicate Reached(shapes: seq<LegShape>, i: nat) {
    exists j, mints :: BackwardLink(Forward(shapes, None), j, i, mints)
  }

  lemma {:induction false} BackwardKnownExactly(shapes: seq<LegShape>, i: nat)
    requires i < |shapes|
    ensures Backward(Forward(shapes, None))[i].Known? <==> Reached(shapes, i)
  {
    var fwd := Forward(shapes, None);
    if Backward(fwd)[i].Known? {
      var j, mints := BackwardHasLink(fwd, i);
    }
    if j: nat, mints :| BackwardLink(fwd, j, i, mints) {
      BackwardFollowsLink(fwd, j, i, mints);
    }
  }

  /** The passes fail at leg `i` exactly when it is the least leg that no chain reaches, and succeed
      exactly when every leg is reached. */
  lemma {:induction false} UnresolvedExactly(shapes: seq<LegShape>)
    ensures forall i: nat :: ResolveAll(shapes) == Err(UnresolvedLeg(i))
              <==> i < |shapes| && !Reached(shapes, i) && forall k: nat :: k < i ==> Reached(shapes, k)
    ensures ResolveAll(shapes).Ok? <==> forall k: nat :: k < |shapes| ==> Reached(shapes, k)
  {
    var end := Backward(Forward(shapes, None));
    forall k: nat | k < |shapes| ensures end[k].Known? <==> Reached(shapes, k) {
      BackwardKnownExactly(shapes, k);
    }
  }

  // ---------------------------------------------------------------------------
  // Hidden directions
  // ---------------------------------------------------------------------------

  /** Each leg's output mint is the next leg's input mint. */
  ghost predicate Connected(chain: seq<Swap>) {
    forall i, j :: 0 <= i && j == i + 1 < |chain| ==> chain[i].outputMint == chain[j].inputMint
  }

  /** The shape is the leg itself, or its two different mints in either order. */
  ghost predicate Hides(s: Swap, shape: LegShape) {
    match shape
    case Known(k) => k == s
    case Candidates(a, b) => s.inputMint != s.outputMint && Orientation(s, a, b)
  }

  ghost predicate HidesChain(chain: seq<Swap>, shapes: seq<LegShape>) {
    |chain| == |shapes| && forall i :: 0 <= i < |chain| ==> Hides(chain[i], shapes[i])
  }

  ghost predicate SomeKnown(shapes: seq<LegShape>) {
    exists i :: 0 <= i < |shapes| && shapes[i].Known?
  }

  lemma {:induction false} ForwardRecovers(chain: seq<Swap>, shapes: seq<LegShape>, current: Option<Pubkey>)
    requires chain != [] && Connected(chain) && HidesChain(chain, shapes)
    requires current.Some? ==> current.value == chain[0].inputMint
    ensures var r := Forward(shapes, current);
            HidesChain(chain, r) && (r[|r| - 1].Known? <==> current.Some? || SomeKnown(shapes))
    decreases |chain|
  {
    var leg := Orient(shapes[0], current, true);
    assert Hides(chain[0], leg);
    if |chain| > 1 {
      assert chain[0].outputMint == chain[1].inputMint;
      ForwardRecovers(chain[1..], shapes[1..], OutOf(leg));
      assert SomeKnown(shapes) <==> shapes[0].Known? || SomeKnown(shapes[1..]) by {
        forall i | 1 <= i < |shapes| ensures shapes[i] == shapes[1..][i - 1] {}
      }
    } else {
      assert shapes[1..] == [];
    }
  }

  lemma {:induction false} BackwardRecovers(chain: seq<Swap>, shapes: seq<LegShape>)
    requires chain != [] && Connected(chain) && HidesChain(chain, shapes)
    requires shapes[|shapes| - 1].Known?
    ensures var r := Backward(shapes); forall i :: 0 <= i < |chain| ==> r[i] == Known(chain[i])
    decreases |chain|
  {
    if |chain| > 1 {
      assert chain[0].outputMint == chain[1].inputMint;
      BackwardRecovers(chain[1..], shapes[1..]);
      var rest := Backward(shapes[1..]);
      assert rest[0] == Known(chain[1]);
      forall i | 0 <= i < |chain| ensures Backward(shapes)[i] == Known(chain[i]) {
        if i > 0 { assert rest[i - 1] == Known(chain[1..][i - 1]); }
      }
    } else {
      assert Backward(shapes[1..]) == [];
    }
  }

  lemma {:induction false} AllHiddenStaysHidden(shapes: seq<LegShape>)
    requires !SomeKnown(shapes)
    ensures Forward(shapes, None) == shapes && Backward(shapes) == shapes
  {
    if shapes != [] {
      assert !shapes[0].Known?;
      forall i | 0 <= i < |shapes[1..]| ensures !shapes[1..][i].Known? {
        assert shapes[1..][i] == shapes[i + 1];
      }
      AllHiddenStaysHidden(shapes[1..]);
    }
  }

  lemma CollectedKnown(chain: seq<Swap>, shapes: seq<LegShape>)
    requires |shapes| == |chain| && forall i :: 0 <= i < |chain| ==> shapes[i] == Known(chain[i])
    ensures Collected(shapes) == Ok(chain)
  {
    assert KnownPrefix(shapes) == |chain|;
    assert Collected(shapes).value == chain;
  }

  /** Whatever subset of a connected chain's directions is hidden, the passes return the chain itself
      if and only if some leg stayed known; with all of them hidden the first leg is unresolved. */
  lemma {:induction false} HiddenDirectionsAreRecovered(chain: seq<Swap>, shapes: seq<LegShape>)
    requires chain != [] && Connected(chain) && HidesChain(chain, shapes)
    ensures ResolveAll(shapes) == if SomeKnown(shapes) then Ok(chain) else Err(UnresolvedLeg(0))
  {
    hide Forward, Backward;
    if SomeKnown(shapes) {
      var fwd := Forward(shapes, None);
      ForwardRecovers(chain, shapes, None);
      BackwardRecovers(chain, fwd);
      CollectedKnown(chain, Backward(fwd));
    } else {
      AllHiddenStaysHidden(shapes);
      assert !shapes[0].Known?;
    }
  }

  // ---------------------------------------------------------------------------
  // Hash order
  // ---------------------------------------------------------------------------

  /** Only two mints can be dominant: every third total is strictly below the second. */
  ghost predicate ClearPair(transfers: seq<TokenTransfer>) {
    forall a, b, m :: Dominant(transfers, a, b) && m in Mints(transfers) && m != a.mint && m != b.mint
      ==> Total(transfers, m) < b.amount
  }

  /** The same leg, up to the order of its candidates. */
  ghost predicate SameLeg(x: LegShape, y: LegShape) {
    x == y || (x.Candidates? && x.a.mint != x.b.mint && y == Candidates(x.b, x.a))
  }

  ghost predicate SameLegs(xs: seq<LegShape>, ys: seq<LegShape>) {
    |xs| == |ys| && forall i :: 0 <= i < |xs| ==> SameLeg(xs[i], ys[i])
  }

  lemma {:induction false} ForwardIgnoresOrder(xs: seq<LegShape>, ys: seq<LegShape>, current: Option<Pubkey>)
    requires SameLegs(xs, ys)
    ensures SameLegs(Forward(xs, current), Forward(ys, current))
    decreases |xs|
  {
    if xs != [] {
      var x, y := Orient(xs[0], current, true), Orient(ys[0], current, true);
      assert SameLeg(x, y) && OutOf(x) == OutOf(y);
      ForwardIgnoresOrder(xs[1..], ys[1..], OutOf(x));
    }
  }

  lemma {:induction false} BackwardIgnoresOrder(xs: seq<LegShape>, ys: seq<LegShape>)
    requires SameLegs(xs, ys)
    ensures SameLegs(Backward(xs), Backward(ys))
    decreases |xs|
  {
    if xs != [] {
      BackwardIgnoresOrder(xs[1..], ys[1..]);
    }
  }

  lemma {:induction false} CollectedIgnoresOrder(xs: seq<LegShape>, ys: seq<LegShape>)
    requires SameLegs(xs, ys)
    ensures Collected(xs) == Collected(ys)
  {
    assert KnownPrefix(xs) == KnownPrefix(ys);
    if KnownPrefix(xs) == |xs| {
      assert Collected(xs).value == Collected(ys).value;
    }
  }

  lemma {:induction false} ClearPairIsOneLeg(transfers: seq<TokenTransfer>, x: LegShape, y: LegShape)
    requires ClearPair(transfers) && ShapeOf(Undecoded(transfers), x) && ShapeOf(Undecoded(transfers), y)
    ensures SameLeg(x, y)
  {
    assert Dominant(transfers, x.a, x.b) && Dominant(transfers, y.a, y.b);
  }

  /** A clear pair is exactly what makes an undecoded leg's candidates the same in every hash order. */
  lemma {:induction false} ClearPairExactly(transfers: seq<TokenTransfer>)
    ensures ClearPair(transfers)
            <==> forall x, y :: ShapeOf(Undecoded(transfers), x) && ShapeOf(Undecoded(transfers), y) ==> SameLeg(x, y)
  {
    if ClearPair(transfers) {
      forall x, y | ShapeOf(Undecoded(transfers), x) && ShapeOf(Undecoded(transfers), y) ensures SameLeg(x, y) {
        ClearPairIsOneLeg(transfers, x, y);
      }
    } else {
      var a, b, m :| Dominant(transfers, a, b) && m in Mints(transfers) && m != a.mint && m != b.mint
                     && Total(transfers, m) >= b.amount;
      var c := MintAmount(m, Total(transfers, m));
      assert Dominant(transfers, a, c);
      assert ShapeOf(Undecoded(transfers), Candidates(a, b)) && ShapeOf(Undecoded(transfers), Candidates(a, c));
      assert !SameLeg(Candidates(a, b), Candidates(a, c));
    }
  }

  /** The hash map's arbitrary order cannot show in the result while every undecoded leg has a clear pair. */
  lemma {:induction false} ClearPairsDetermineSwaps(routes: seq<Route>, r: Result<seq<Swap>, RouteError>,
                                                    r': Result<seq<Swap>, RouteError>)
    requires forall i :: 0 <= i < |routes| && routes[i].Undecoded? ==> ClearPair(routes[i].transfers)
    requires MayGiveSwaps(routes, r) && MayGiveSwaps(routes, r')
    ensures r == r'
  {
    if xs: seq<LegShape> :| ShapesOf(routes, xs) && r == ResolveAll(xs) {
      var ys: seq<LegShape> :| ShapesOf(routes, ys) && r' == ResolveAll(ys);
      forall i | 0 <= i < |routes| ensures SameLeg(xs[i], ys[i]) {
        if routes[i].Undecoded? { ClearPairIsOneLeg(routes[i].transfers, xs[i], ys[i]); }
      }
      ForwardIgnoresOrder(xs, ys, None);
      BackwardIgnoresOrder(Forward(xs, None), Forward(ys, None));
      CollectedIgnoresOrder(Backward(Forward(xs, None)), Backward(Forward(ys, None)));
    } else {
      var i: nat :| FirstBadLeg(routes, i) && r == Err(ShapeError(routes[i]).value);
      var j: nat :| FirstBadLeg(routes, j) && r' == Err(ShapeError(routes[j]).value);
      assert !(i < j) && !(j < i);
    }
  }

  /** While a route can be resolved, its result is the only one exactly when every undecoded leg has a clear pair. */
  lemma {:induction false} SwapsAreDeterminedExactly(routes: seq<Route>, swaps: seq<Swap>)
    requires MayGiveSwaps(routes, Ok(swaps))
    ensures (forall r :: MayGiveSwaps(routes, r) ==> r == Ok(swaps))
            <==> forall i :: 0 <= i < |routes| && routes[i].Undecoded? ==> ClearPair(routes[i].transfers)
  {
    if forall r :: MayGiveSwaps(routes, r) ==> r == Ok(swaps) {
      forall i | 0 <= i < |routes| && routes[i].Undecoded? ensures ClearPair(routes[i].transfers) {
        ForcedLegIsClear(routes, swaps, i);
      }
    }
    if forall i :: 0 <= i < |routes| && routes[i].Undecoded? ==> ClearPair(routes[i].transfers) {
      forall r | MayGiveSwaps(routes, r) ensures r == Ok(swaps) {
        ClearPairsDetermineSwaps(routes, r, Ok(swaps));
      }
    }
  }

  /** A leg that allowed another pair of mints would allow another result. */
  lemma {:induction false} ForcedLegIsClear(routes: seq<Route>, swaps: seq<Swap>, i: nat)
    requires MayGiveSwaps(routes, Ok(swaps)) && forall r :: MayGiveSwaps(routes, r) ==> r == Ok(swaps)
    requires i < |routes| && routes[i].Undecoded?
    ensures ClearPair(routes[i].transfers)
  {
    hide ResolveAll;
    var shapes: seq<LegShape> :| ShapesOf(routes, shapes) && Ok(swaps) == ResolveAll(shapes);
    var leg := shapes[i];
    assert ShapeOf(routes[i], leg);
    var transfers := routes[i].transfers;
    forall a, b | Dominant(transfers, a, b) ensures {a.mint, b.mint} == {leg.a.mint, leg.b.mint} {
      var shapes' := shapes[i := Candidates(a, b)];
      assert ShapesOf(routes, shapes');
      assert MayGiveSwaps(routes, ResolveAll(shapes'));
      OrientedLegsAreLinked(shapes, i);
      OrientedLegsAreLinked(shapes', i);
    }
    forall a, b, m | Dominant(transfers, a, b) && m in Mints(transfers) && m != a.mint && m != b.mint
      ensures Total(transfers, m) < b.amount
    {
      var c := MintAmount(m, Total(transfers, m));
      assert c.amount == b.amount ==> Dominant(transfers, a, c);
      assert m in {a.mint, m} && m !in {a.mint, b.mint};
    }
  }

  /** With three equal totals it does show: the same route may come out in two ways. */
  lemma TiesMayFallEitherWay(a: Pubkey, b: Pubkey, c: Pubkey, d: Pubkey, account: Pubkey)
    requires b != c && b != d && c != d
    ensures var moves := (m: Pubkey) => TokenTransfer(account, Some(m), account, account, 1, false);
            var routes := [Decoded(Swap(a, b, 1, 1)), Undecoded([moves(b), moves(c), moves(d)])];
            MayGiveSwaps(routes, Ok([Swap(a, b, 1, 1), Swap(b, c, 1, 1)]))
            && MayGiveSwaps(routes, Ok([Swap(a, b, 1, 1), Swap(b, d, 1, 1)]))
  {
    var moves := (m: Pubkey) => TokenTransfer(account, Some(m), account, account, 1, false);
    var transfers := [moves(b), moves(c), moves(d)];
    assert transfers[..2] == [moves(b), moves(c)] && transfers[..2][..1] == [moves(b)] && [moves(b)][..0] == [];
    assert Mints(transfers) == {b, c, d} by {
      assert transfers[0].mint == Some(b) && transfers[1].mint == Some(c) && transfers[2].mint == Some(d);
    }
    assert |{b, c, d}| == 3;
    forall m ensures Total(transfers, m) == if m in {b, c, d} then 1 else 0 {
      assert Total([moves(b)], m) == if m == b then 1 else 0;
      assert Total(transfers[..2], m) == if m == b || m == c then 1 else 0;
    }
    var routes := [Decoded(Swap(a, b, 1, 1)), Undecoded(transfers)];
    TieOutcome(routes, a, b, c);
    TieOutcome(routes, a, b, d);
  }

  lemma {:induction false} TieOutcome(routes: seq<Route>, a: Pubkey, b: Pubkey, m: Pubkey)
    requires |routes| == 2 && routes[0] == Decoded(Swap(a, b, 1, 1)) && routes[1].Undecoded? && b != m
    requires ShapeError(routes[1]) == None && Dominant(routes[1].transfers, MintAmount(b, 1), MintAmount(m, 1))
    ensures MayGiveSwaps(routes, Ok([Swap(a, b, 1, 1), Swap(b, m, 1, 1)]))
  {
    var shapes := [Known(Swap(a, b, 1, 1)), Candidates(MintAmount(b, 1), MintAmount(m, 1))];
    var chain := [Swap(a, b, 1, 1), Swap(b, m, 1, 1)];
    assert ShapesOf(routes, shapes);
    assert SomeKnown(shapes) by { assert shapes[0].Known?; }
    HiddenDirectionsAreRecovered(chain, shapes);
  }

  // ---------------------------------------------------------------------------
  // End to end
  // ---------------------------------------------------------------------------

  function Sum(transfers: seq<TokenTransfer>, mint: Pubkey): nat {
    if transfers == [] then 0 else
      var last := transfers[|transfers| - 1];
      Sum(transfers[..|transfers| - 1], mint) + (if last.mint == Some(mint) then last.amount else 0)
  }

  /** For any amounts the total is the sum modulo 2^64. */
  lemma {:induction false} TotalIsSumModulo(transfers: seq<TokenTransfer>, mint: Pubkey)
    ensures Total(transfers, mint) == Sum(transfers, mint) % TWO_64
    decreases |transfers|
  {
    if transfers != [] {
      TotalIsSumModulo(transfers[..|transfers| - 1], mint);
    }
  }

  lemma TotalIsSum(transfers: seq<TokenTransfer>, mint: Pubkey)
    requires Sum(transfers, mint) <= MAX_U64
    ensures Total(transfers, mint) == Sum(transfers, mint)
  {
    TotalIsSumModulo(transfers, mint);
  }

  /** The route is the decoded leg, or transfers whose sums are its two amounts and, for any other mint
      (a fee, say), less than both. */
  ghost predicate Witnesses(s: Swap, route: Route) {
    match route
    case Decoded(d) => d == s
    case Undecoded(transfers) =>
      s.inputMint != s.outputMint && MintsKnown(transfers) && {s.inputMint, s.outputMint} <= Mints(transfers)
      && Sum(transfers, s.inputMint) == s.inputAmount && Sum(transfers, s.outputMint) == s.outputAmount
      && forall m :: m in Mints(transfers) && m != s.inputMint && m != s.outputMint ==>
           Sum(transfers, m) < s.inputAmount && Sum(transfers, m) < s.outputAmount
  }

  lemma {:induction false} WitnessHides(s: Swap, route: Route, shape: LegShape)
    requires Witnesses(s, route)
    ensures ShapeError(route) == None
    ensures ShapeOf(route, shape) ==> Hides(s, shape)
  {
    if route.Undecoded? {
      var transfers := route.transfers;
      PairFits(s.inputMint, s.outputMint, Mints(transfers));
      TotalIsSum(transfers, s.inputMint);
      TotalIsSum(transfers, s.outputMint);
      forall m | m in Mints(transfers) && m != s.inputMint && m != s.outputMint
        ensures Total(transfers, m) < s.inputAmount && Total(transfers, m) < s.outputAmount
      {
        TotalIsSum(transfers, m);
      }
    }
  }

  /** A matched chain whose legs are decoded or witnessed by clean transfers, at least one of them decoded,
      nets to the first leg's input and the last leg's output, however ties between totals fall;
      with no leg decoded the direction of the whole chain is lost and the first leg is unresolved. */
  lemma {:induction false} ChainNetsEndToEnd(chain: seq<Swap>, routes: seq<Route>, r: Result<Swap, RouteError>)
    requires chain != [] && MatchedChain(chain) && |routes| == |chain|
    requires forall i :: 0 <= i < |chain| ==> Witnesses(chain[i], routes[i])
    requires MayNetTo(routes, r)
    ensures var first, last := chain[0], chain[|chain| - 1];
            r == if exists i :: 0 <= i < |routes| && routes[i].Decoded?
                 then Ok(Swap(first.inputMint, last.outputMint, first.inputAmount, last.outputAmount))
                 else Err(UnresolvedLeg(0))
  {
    hide Witnesses, Dominant, Hides, Net, ResolveAll, MintsKnown, Mints;
    forall i | 0 <= i < |routes| ensures ShapeError(routes[i]) == None {
      WitnessHides(chain[i], routes[i], Known(chain[i]));
    }
    var swaps :| MayGiveSwaps(routes, swaps) && r == NetOf(swaps);
    var shapes: seq<LegShape> :| ShapesOf(routes, shapes) && swaps == ResolveAll(shapes);
    forall i | 0 <= i < |chain| ensures Hides(chain[i], shapes[i]) && (shapes[i].Known? <==> routes[i].Decoded?) {
      WitnessHides(chain[i], routes[i], shapes[i]);
    }
    HiddenDirectionsAreRecovered(chain, shapes);
    MatchedChainNets(chain);
  }
}
