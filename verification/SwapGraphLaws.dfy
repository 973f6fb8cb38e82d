/** What netting a route means: conservation, least endowment, dust, matched chains and rewrites. */
module SwapGraphLaws {
  import opened Primitives
  import opened SwapGraph

  // ---------------------------------------------------------------------------
  // Conservation
  // ---------------------------------------------------------------------------

  /** What paying for a leg leaves of a mint's balance. */
  function Paid(s: Swap, mint: Pubkey, balance: u64): u64 {
    if mint != s.inputMint then balance else if balance < s.inputAmount then 0 else balance - s.inputAmount
  }

  /** What a leg makes of a mint's balance, when the leg goes through. */
  function Touch(s: Swap, mint: Pubkey, balance: u64): u64 {
    if mint == s.outputMint then WrapAdd(Paid(s, mint, balance), s.outputAmount) else Paid(s, mint, balance)
  }

  /** One leg of the walk, mint by mint. */
  lemma StepEffect(entry: Pubkey, l: Ledger, s: Swap)
    ensures Step(entry, l, s).Ok?
            <==> Shortfall(l, s) == 0 || s.inputMint == entry || IsDust(Shortfall(l, s), s.inputAmount)
    ensures Step(entry, l, s).Err? ==> Step(entry, l, s).error == ImbalancedRoute(s.inputMint, Shortfall(l, s))
    ensures Step(entry, l, s).Ok? ==>
              var l' := Step(entry, l, s).value;
              l'.netInput == SatAdd(l.netInput, if s.inputMint == entry then Shortfall(l, s) else 0)
              && l'.balance.Keys == l.balance.Keys + {s.inputMint, s.outputMint}
              && forall m :: Avail(l'.balance, m) == Touch(s, m, Avail(l.balance, m))
  {
  }

  /** Independent legs touch every balance the same in either order. */
  lemma TouchesCommute(s: Swap, t: Swap, mint: Pubkey, balance: u64)
    requires Independent(s, t)
    ensures Touch(t, mint, Touch(s, mint, balance)) == Touch(s, mint, Touch(t, mint, balance))
  {
  }

  lemma SameLedger(l1: Ledger, l2: Ledger)
    requires l1.netInput == l2.netInput && l1.balance.Keys == l2.balance.Keys
    requires forall m :: Avail(l1.balance, m) == Avail(l2.balance, m)
    ensures l1 == l2
  {
    assert forall m :: m in l1.balance ==>
             l1.balance[m] == Avail(l1.balance, m) == Avail(l2.balance, m) == l2.balance[m];
    assert l1.balance == l2.balance;
  }

  /** How much of `mint` the route needed beyond what it held, over the whole walk: outside capital
      for the entry mint, absorbed dust for every other mint. */
  ghost function Gap(entry: Pubkey, l: Ledger, swaps: seq<Swap>, mint: Pubkey): nat
    decreases |swaps|
  {
    if swaps == [] || Step(entry, l, swaps[0]).Err? then 0 else
      (if swaps[0].inputMint == mint then Shortfall(l, swaps[0]) else 0)
      + Gap(entry, Step(entry, l, swaps[0]).value, swaps[1..], mint)
  }

  /** How often the unchecked addition wraps the balance of `mint`. */
  ghost function Wraps(entry: Pubkey, l: Ledger, swaps: seq<Swap>, mint: Pubkey): nat
    decreases |swaps|
  {
    if swaps == [] || Step(entry, l, swaps[0]).Err? then 0 else
      (if swaps[0].outputMint == mint && Paid(swaps[0], mint, Avail(l.balance, mint)) + swaps[0].outputAmount > MAX_U64
       then 1 else 0)
      + Wraps(entry, Step(entry, l, swaps[0]).value, swaps[1..], mint)
  }

  lemma {:induction false} WalkHead(entry: Pubkey, l: Ledger, swaps: seq<Swap>)
    requires swaps != [] && Walk(entry, l, swaps).Ok?
    ensures Step(entry, l, swaps[0]).Ok?
    ensures Walk(entry, l, swaps) == Walk(entry, Step(entry, l, swaps[0]).value, swaps[1..])
  {
  }

  lemma WalkNone(entry: Pubkey, l: Ledger)
    ensures Walk(entry, l, []) == Ok(l)
  {
  }

  lemma {:induction false} WalkConserves(entry: Pubkey, l: Ledger, swaps: seq<Swap>, mint: Pubkey)
    requires Walk(entry, l, swaps).Ok?
    ensures Consumed(swaps, mint) + Avail(Walk(entry, l, swaps).value.balance, mint)
            + TWO_64 * Wraps(entry, l, swaps, mint)
            == Avail(l.balance, mint) + Produced(swaps, mint) + Gap(entry, l, swaps, mint)
    decreases |swaps|
  {
    hide Step, IsDust, Walk;
    WalkNone(entry, l);
    if swaps != [] {
      WalkHead(entry, l, swaps);
      StepEffect(entry, l, swaps[0]);
      WalkConserves(entry, Step(entry, l, swaps[0]).value, swaps[1..], mint);
    }
  }

  lemma {:induction false} NoWrapWhenProductionFits(entry: Pubkey, l: Ledger, swaps: seq<Swap>, mint: Pubkey)
    requires Avail(l.balance, mint) + Produced(swaps, mint) <= MAX_U64
    ensures Wraps(entry, l, swaps, mint) == 0
    decreases |swaps|
  {
    hide Step;
    if swaps != [] && Step(entry, l, swaps[0]).Ok? {
      StepEffect(entry, l, swaps[0]);
      NoWrapWhenProductionFits(entry, Step(entry, l, swaps[0]).value, swaps[1..], mint);
    }
  }

  lemma {:induction false} NetInputIsGap(entry: Pubkey, l: Ledger, swaps: seq<Swap>)
    requires Walk(entry, l, swaps).Ok?
    ensures Walk(entry, l, swaps).value.netInput == Min(l.netInput + Gap(entry, l, swaps, entry), MAX_U64)
    decreases |swaps|
  {
    hide Step, IsDust;
    if swaps != [] {
      StepEffect(entry, l, swaps[0]);
      NetInputIsGap(entry, Step(entry, l, swaps[0]).value, swaps[1..]);
    }
  }

  /** The final balance of a mint after a successful route. */
  ghost function Left(swaps: seq<Swap>, mint: Pubkey): u64
    requires Net(swaps).Ok?
  {
    Avail(Walk(swaps[0].inputMint, START, swaps).value.balance, mint)
  }

  /** Every successful route conserves every mint whose production fits in a u64: consumed plus left
      equals produced plus the gap, which is the net input (before saturation) at the entry mint. */
  lemma {:induction false} Conservation(swaps: seq<Swap>, mint: Pubkey)
    requires Net(swaps).Ok? && Produced(swaps, mint) <= MAX_U64
    ensures var entry, net := swaps[0].inputMint, Net(swaps).value;
            Consumed(swaps, mint) + Left(swaps, mint) == Produced(swaps, mint) + Gap(entry, START, swaps, mint)
            && net.inputMint == entry && net.inputAmount == Min(Gap(entry, START, swaps, entry), MAX_U64)
            && net.outputMint == swaps[|swaps| - 1].outputMint && net.outputAmount == Left(swaps, net.outputMint)
  {
    WalkConserves(swaps[0].inputMint, START, swaps, mint);
    NoWrapWhenProductionFits(swaps[0].inputMint, START, swaps, mint);
    NetInputIsGap(swaps[0].inputMint, START, swaps);
  }

  // ---------------------------------------------------------------------------
  // Least endowment
  // ---------------------------------------------------------------------------

  /** Replaying the route from `purse` units of the entry mint never runs short of that mint. */
  ghost predicate Affords(entry: Pubkey, purse: nat, swaps: seq<Swap>)
    decreases |swaps|
  {
    swaps == [] ||
      var s := swaps[0];
      Cost(s, entry) <= purse && Affords(entry, purse - Cost(s, entry) + Yield(s, entry), swaps[1..])
  }

  /** Without wrapping, one leg changes a balance by what it is short, takes and gives. */
  lemma BalanceAfter(entry: Pubkey, l: Ledger, s: Swap, mint: Pubkey)
    requires Step(entry, l, s).Ok? && Avail(l.balance, mint) + Yield(s, mint) <= MAX_U64
    ensures Avail(Step(entry, l, s).value.balance, mint)
            == Avail(l.balance, mint) + (if s.inputMint == mint then Shortfall(l, s) else 0)
               - Cost(s, mint) + Yield(s, mint)
    ensures s.inputMint == mint ==> Avail(l.balance, mint) + Shortfall(l, s) >= Cost(s, mint)
    ensures s.inputMint == mint && Shortfall(l, s) > 0 ==> Avail(l.balance, mint) + Shortfall(l, s) == Cost(s, mint)
  {
    StepEffect(entry, l, s);
  }

  lemma {:induction false} AffordsFromGap(entry: Pubkey, l: Ledger, swaps: seq<Swap>, extra: nat)
    requires Walk(entry, l, swaps).Ok?
    requires Avail(l.balance, entry) + Produced(swaps, entry) <= MAX_U64
    ensures Affords(entry, Avail(l.balance, entry) + extra, swaps) <==> extra >= Gap(entry, l, swaps, entry)
    decreases |swaps|
  {
    hide Step, Walk, Shortfall, Avail;
    if swaps != [] {
      WalkHead(entry, l, swaps);
      var s, l' := swaps[0], Step(entry, l, swaps[0]).value;
      BalanceAfter(entry, l, s, entry);
      var short := if s.inputMint == entry then Shortfall(l, s) else 0;
      if extra >= short {
        AffordsFromGap(entry, l', swaps[1..], extra - short);
      }
    }
  }

  lemma {:induction false} GapAtMostConsumed(entry: Pubkey, l: Ledger, swaps: seq<Swap>, mint: Pubkey)
    ensures Gap(entry, l, swaps, mint) <= Consumed(swaps, mint)
    decreases |swaps|
  {
    if swaps != [] && Step(entry, l, swaps[0]).Ok? {
      GapAtMostConsumed(entry, Step(entry, l, swaps[0]).value, swaps[1..], mint);
    }
  }

  /** In plain sums: no leg takes more of the entry mint than the purse and the legs before it gave,
      less what those legs took. */
  ghost predicate Covers(entry: Pubkey, purse: nat, swaps: seq<Swap>) {
    forall i :: 0 <= i < |swaps| && swaps[i].inputMint == entry ==> CoversAt(entry, purse, swaps, i)
  }

  ghost predicate CoversAt(entry: Pubkey, purse: nat, swaps: seq<Swap>, i: nat)
    requires i < |swaps|
  {
    Consumed(swaps[..i], entry) + swaps[i].inputAmount <= purse + Produced(swaps[..i], entry)
  }

  lemma {:induction false} CoversTail(entry: Pubkey, purse: nat, swaps: seq<Swap>)
    requires swaps != [] && Cost(swaps[0], entry) <= purse
    ensures Covers(entry, purse, swaps)
            <==> Covers(entry, purse - Cost(swaps[0], entry) + Yield(swaps[0], entry), swaps[1..])
  {
    var rest, purse' := swaps[1..], purse - Cost(swaps[0], entry) + Yield(swaps[0], entry);
    forall i | 0 < i < |swaps| ensures CoversAt(entry, purse, swaps, i) <==> CoversAt(entry, purse', rest, i - 1) {
      assert swaps[..i][1..] == rest[..i - 1] && swaps[..i][0] == swaps[0];
    }
    if Covers(entry, purse, swaps) {
      forall i | 0 <= i < |rest| && rest[i].inputMint == entry ensures CoversAt(entry, purse', rest, i) {
        assert CoversAt(entry, purse, swaps, i + 1);
      }
    }
    if Covers(entry, purse', rest) {
      forall i | 0 <= i < |swaps| && swaps[i].inputMint == entry ensures CoversAt(entry, purse, swaps, i) {
        if i > 0 {
          assert rest[i - 1] == swaps[i];
        }
      }
    }
  }

  /** A replay never runs short of the entry mint exactly when the purse covers every prefix of the route
      in plain sums. */
  lemma {:induction false} AffordsIsPrefixSums(entry: Pubkey, purse: nat, swaps: seq<Swap>)
    ensures Affords(entry, purse, swaps) <==> Covers(entry, purse, swaps)
    decreases |swaps|
  {
    if swaps != [] {
      if Cost(swaps[0], entry) <= purse {
        CoversTail(entry, purse, swaps);
        AffordsIsPrefixSums(entry, purse - Cost(swaps[0], entry) + Yield(swaps[0], entry), swaps[1..]);
      } else {
        assert !CoversAt(entry, purse, swaps, 0);
      }
    }
  }

  /** The returned input amount is the least starting balance of the entry mint from which the route
      never runs short of it: that balance and every larger one suffices, every smaller one fails.
      This is so exactly when some u64 covers the route's prefix sums; otherwise the result saturates. */
  lemma {:induction false} LeastEndowment(swaps: seq<Swap>)
    requires Net(swaps).Ok? && Produced(swaps, swaps[0].inputMint) <= MAX_U64
    ensures var entry, input := swaps[0].inputMint, Net(swaps).value.inputAmount;
            (forall purse: nat :: Affords(entry, purse, swaps) <==> purse >= input) <==> Covers(entry, MAX_U64, swaps)
    ensures !Covers(swaps[0].inputMint, MAX_U64, swaps) ==> Net(swaps).value.inputAmount == MAX_U64
    ensures Gap(swaps[0].inputMint, START, swaps, swaps[0].inputMint) <= Consumed(swaps, swaps[0].inputMint)
  {
    var entry := swaps[0].inputMint;
    var need := Gap(entry, START, swaps, entry);
    NetInputIsGap(entry, START, swaps);
    GapAtMostConsumed(entry, START, swaps, entry);
    forall purse: nat ensures Affords(entry, purse, swaps) <==> purse >= need {
      AffordsFromGap(entry, START, swaps, purse);
    }
    AffordsIsPrefixSums(entry, MAX_U64, swaps);
    assert Affords(entry, need, swaps);
  }

  /** A route that saturates: the returned amount does not pay for it. */
  lemma NetInputCanSaturate(a: Pubkey, b: Pubkey)
    requires a != b
    ensures var swaps := [Swap(a, b, MAX_U64, 0), Swap(a, b, 1, 0)];
            Net(swaps) == Ok(Swap(a, b, MAX_U64, 0)) && !Affords(a, MAX_U64, swaps)
  {
    var swaps := [Swap(a, b, MAX_U64, 0), Swap(a, b, 1, 0)];
    WalkTwo(a, START, swaps[0], swaps[1]);
    assert swaps[1..] == [swaps[1]];
  }

  // ---------------------------------------------------------------------------
  // Solvent routes
  // ---------------------------------------------------------------------------

  /** In plain sums: no leg takes more of a mint, other than the entry mint, than the ledger held and
      the legs before it produced, less what those legs took. */
  ghost predicate Solvent(entry: Pubkey, l: Ledger, swaps: seq<Swap>) {
    forall i :: 0 <= i < |swaps| && swaps[i].inputMint != entry ==> SolventAt(l, swaps, i)
  }

  ghost predicate SolventAt(l: Ledger, swaps: seq<Swap>, i: nat)
    requires i < |swaps|
  {
    var m := swaps[i].inputMint;
    Consumed(swaps[..i], m) + swaps[i].inputAmount <= Avail(l.balance, m) + Produced(swaps[..i], m)
  }

  ghost predicate Room(l: Ledger, swaps: seq<Swap>) {
    forall m :: Avail(l.balance, m) + Produced(swaps, m) <= MAX_U64
  }

  lemma {:induction false} SolventTail(entry: Pubkey, l: Ledger, swaps: seq<Swap>)
    requires swaps != [] && Room(l, swaps) && Step(entry, l, swaps[0]).Ok?
    requires swaps[0].inputMint != entry ==> Shortfall(l, swaps[0]) == 0
    ensures var l' := Step(entry, l, swaps[0]).value;
            Room(l', swaps[1..])
            && forall i :: 0 < i < |swaps| && swaps[i].inputMint != entry ==>
                 (SolventAt(l, swaps, i) <==> SolventAt(l', swaps[1..], i - 1))
  {
    hide Step, Shortfall, Avail;
    var l' := Step(entry, l, swaps[0]).value;
    forall m ensures Avail(l'.balance, m) + Produced(swaps[1..], m) <= MAX_U64 {
      assert Avail(l.balance, m) + Produced(swaps, m) <= MAX_U64;
      BalanceAfter(entry, l, swaps[0], m);
    }
    forall i | 0 < i < |swaps| && swaps[i].inputMint != entry
      ensures SolventAt(l, swaps, i) <==> SolventAt(l', swaps[1..], i - 1)
    {
      var m := swaps[i].inputMint;
      assert swaps[..i][1..] == swaps[1..][..i - 1] && swaps[..i][0] == swaps[0];
      assert Avail(l.balance, m) + Produced(swaps, m) <= MAX_U64;
      BalanceAfter(entry, l, swaps[0], m);
    }
  }

  /** No mint but the entry mint was ever short. */
  ghost predicate NoDust(entry: Pubkey, l: Ledger, swaps: seq<Swap>) {
    forall m :: m != entry ==> Gap(entry, l, swaps, m) == 0
  }

  lemma {:induction false} NoDustTail(entry: Pubkey, l: Ledger, swaps: seq<Swap>)
    requires swaps != [] && Step(entry, l, swaps[0]).Ok?
    ensures NoDust(entry, l, swaps)
            <==> (swaps[0].inputMint == entry || Shortfall(l, swaps[0]) == 0)
                 && NoDust(entry, Step(entry, l, swaps[0]).value, swaps[1..])
  {
    hide Step;
    var s, l' := swaps[0], Step(entry, l, swaps[0]).value;
    forall m ensures Gap(entry, l, swaps, m)
      == (if s.inputMint == m then Shortfall(l, s) else 0) + Gap(entry, l', swaps[1..], m) {}
    if NoDust(entry, l, swaps) {
      assert s.inputMint != entry ==> Gap(entry, l, swaps, s.inputMint) == 0;
      forall m | m != entry ensures Gap(entry, l', swaps[1..], m) == 0 {
        assert Gap(entry, l, swaps, m) == 0;
      }
    }
    if (s.inputMint == entry || Shortfall(l, s) == 0) && NoDust(entry, l', swaps[1..]) {
      forall m | m != entry ensures Gap(entry, l, swaps, m) == 0 {
        assert Gap(entry, l', swaps[1..], m) == 0;
      }
    }
  }

  lemma {:induction false} SolventWalk(entry: Pubkey, l: Ledger, swaps: seq<Swap>)
    requires Room(l, swaps)
    ensures Solvent(entry, l, swaps) <==> Walk(entry, l, swaps).Ok? && NoDust(entry, l, swaps)
    decreases |swaps|
  {
    hide Step, NoDust;
    if swaps == [] {
      NoDustNowhere(entry, l);
    } else {
      var s := swaps[0];
      StepEffect(entry, l, s);
      assert s.inputMint != entry ==> (SolventAt(l, swaps, 0) <==> Shortfall(l, s) == 0);
      if Step(entry, l, s).Ok? { NoDustTail(entry, l, swaps); }
      if s.inputMint == entry || Shortfall(l, s) == 0 {
        var l' := Step(entry, l, s).value;
        SolventTail(entry, l, swaps);
        SolventWalk(entry, l', swaps[1..]);
        forall i | 0 < i < |swaps| && swaps[i].inputMint != entry
          ensures SolventAt(l, swaps, i) <==> SolventAt(l', swaps[1..], i - 1) {}
        forall i | 0 <= i < |swaps| - 1 ensures swaps[1..][i] == swaps[i + 1] {}
      }
    }
  }

  lemma NoDustNowhere(entry: Pubkey, l: Ledger)
    ensures NoDust(entry, l, [])
  {
  }

  /** The running-balance walk succeeds without absorbing any dust exactly when the route is solvent in plain
      prefix sums. */
  lemma {:induction false} SolventRoutesNet(swaps: seq<Swap>)
    requires swaps != [] && forall m :: Produced(swaps, m) <= MAX_U64
    ensures var entry := swaps[0].inputMint;
            Solvent(entry, START, swaps) <==> Net(swaps).Ok? && NoDust(entry, START, swaps)
  {
    SolventWalk(swaps[0].inputMint, START, swaps);
  }

  // ---------------------------------------------------------------------------
  // Dust
  // ---------------------------------------------------------------------------

  /** Exactly what the saturating test accepts: the exact ratio, or two saturated sides. */
  lemma IsDustExactly(amount: u64, reference: u64)
    ensures IsDust(amount, reference)
            <==> 2000 * amount <= reference || (10_000 * amount >= MAX_U64 && 5 * reference >= MAX_U64)
  {
  }

  /** The saturating test is the exact one, for every gap a leg can have, just for references below MAX/5. */
  lemma {:induction false} DustTestIsExact(reference: u64)
    ensures (forall amount: u64 :: amount <= reference ==> (IsDust(amount, reference) <==> 2000 * amount <= reference))
            <==> reference < MAX_U64 / 5
  {
    if reference >= MAX_U64 / 5 {
      IsDustExactly(reference, reference);
    }
    forall amount: u64 | reference < MAX_U64 / 5 ensures IsDust(amount, reference) <==> 2000 * amount <= reference {
      IsDustExactly(amount, reference);
    }
  }

  /** Every leg that consumes the mint consumes less than MAX/5 of it. */
  ghost predicate ModestReferences(swaps: seq<Swap>, mint: Pubkey) {
    forall i :: 0 <= i < |swaps| && swaps[i].inputMint == mint ==> swaps[i].inputAmount < MAX_U64 / 5
  }

  lemma {:induction false} WalkDustBounded(entry: Pubkey, l: Ledger, swaps: seq<Swap>, mint: Pubkey)
    requires mint != entry && ModestReferences(swaps, mint)
    ensures 2000 * Gap(entry, l, swaps, mint) <= Consumed(swaps, mint)
    decreases |swaps|
  {
    if swaps != [] && Step(entry, l, swaps[0]).Ok? {
      IsDustExactly(Shortfall(l, swaps[0]), swaps[0].inputAmount);
      WalkDustBounded(entry, Step(entry, l, swaps[0]).value, swaps[1..], mint);
    }
  }

  /** The dust absorbed at a mint: what it took to make up for what was not produced. */
  ghost function Absorbed(swaps: seq<Swap>, mint: Pubkey): int
    requires Net(swaps).Ok?
  {
    Consumed(swaps, mint) + Left(swaps, mint) - Produced(swaps, mint)
  }

  /** Over a whole successful route the dust absorbed at a mint is at most 0.05% of what it consumed. */
  lemma {:induction false} DustIsBounded(swaps: seq<Swap>, mint: Pubkey)
    requires Net(swaps).Ok? && mint != swaps[0].inputMint && ModestReferences(swaps, mint)
    requires Produced(swaps, mint) <= MAX_U64
    ensures 0 <= 2000 * Absorbed(swaps, mint) <= Consumed(swaps, mint)
  {
    Conservation(swaps, mint);
    WalkDustBounded(swaps[0].inputMint, START, swaps, mint);
  }

  ghost function AbsorbedOver(swaps: seq<Swap>, mints: seq<Pubkey>): int
    requires Net(swaps).Ok?
  {
    if mints == [] then 0 else Absorbed(swaps, mints[0]) + AbsorbedOver(swaps, mints[1..])
  }

  function ConsumedOver(swaps: seq<Swap>, mints: seq<Pubkey>): nat {
    if mints == [] then 0 else Consumed(swaps, mints[0]) + ConsumedOver(swaps, mints[1..])
  }

  /** The same for any list of mints together, all the mints of the route in particular. */
  lemma {:induction false} RouteDustIsBounded(swaps: seq<Swap>, mints: seq<Pubkey>)
    requires Net(swaps).Ok?
    requires forall m :: m in mints ==>
               m != swaps[0].inputMint && ModestReferences(swaps, m) && Produced(swaps, m) <= MAX_U64
    ensures 0 <= 2000 * AbsorbedOver(swaps, mints) <= ConsumedOver(swaps, mints)
    decreases |mints|
  {
    if mints != [] {
      assert mints[0] in mints;
      DustIsBounded(swaps, mints[0]);
      assert forall m :: m in mints[1..] ==> m in mints;
      RouteDustIsBounded(swaps, mints[1..]);
    }
  }

  /** Without that bound the tolerance fails open: a mint the route never produced is accepted. */
  lemma HugeLegIsTakenForDust(a: Pubkey, b: Pubkey, c: Pubkey)
    requires a != c && b != c
    ensures var swaps := [Swap(a, b, 1, 1), Swap(c, b, MAX_U64 / 5, 1)];
            Produced(swaps, c) == 0 && Net(swaps) == Ok(Swap(a, b, 1, 2))
  {
    var swaps := [Swap(a, b, 1, 1), Swap(c, b, MAX_U64 / 5, 1)];
    var l1 := Step(a, START, swaps[0]).value;
    IsDustExactly(MAX_U64 / 5, MAX_U64 / 5);
    assert swaps[1..] == [swaps[1]] && swaps[1..][1..] == [];
    assert Produced(swaps[1..], c) == 0;
    assert Walk(a, l1, swaps[1..]) == Step(a, l1, swaps[1]);
  }

  // ---------------------------------------------------------------------------
  // Matched chains
  // ---------------------------------------------------------------------------

  /** Each leg hands its whole output to the next; mints may repeat and cycle. */
  ghost predicate MatchedChain(swaps: seq<Swap>) {
    forall i, j :: 0 <= i && j == i + 1 < |swaps| ==>
      swaps[i].outputMint == swaps[j].inputMint && swaps[i].outputAmount == swaps[j].inputAmount
  }

  /** The ledger holds the given amount of one mint and nothing else. */
  ghost predicate HoldsOnly(l: Ledger, mint: Pubkey, amount: u64) {
    forall m :: Avail(l.balance, m) == if m == mint then amount else 0
  }

  lemma {:induction false} ChainWalk(entry: Pubkey, l: Ledger, swaps: seq<Swap>)
    requires swaps != [] && MatchedChain(swaps)
    requires HoldsOnly(l, swaps[0].inputMint, swaps[0].inputAmount)
    ensures var end := Walk(entry, l, swaps);
            end.Ok? && end.value.netInput == l.netInput
            && HoldsOnly(end.value, swaps[|swaps| - 1].outputMint, swaps[|swaps| - 1].outputAmount)
    decreases |swaps|
  {
    StepEffect(entry, l, swaps[0]);
    assert Shortfall(l, swaps[0]) == 0;
    var l' := Step(entry, l, swaps[0]).value;
    assert HoldsOnly(l', swaps[0].outputMint, swaps[0].outputAmount);
    if |swaps| > 1 {
      assert swaps[0].outputMint == swaps[1].inputMint;
      ChainWalk(entry, l', swaps[1..]);
    }
  }

  /** A matched chain nets to its endpoints, whatever mints it passes through on the way. */
  lemma {:induction false} MatchedChainNets(swaps: seq<Swap>)
    requires swaps != [] && MatchedChain(swaps)
    ensures var first, last := swaps[0], swaps[|swaps| - 1];
            Net(swaps) == Ok(Swap(first.inputMint, last.outputMint, first.inputAmount, last.outputAmount))
  {
    var entry := swaps[0].inputMint;
    StepEffect(entry, START, swaps[0]);
    var l' := Step(entry, START, swaps[0]).value;
    assert l'.netInput == swaps[0].inputAmount;
    assert HoldsOnly(l', swaps[0].outputMint, swaps[0].outputAmount);
    if |swaps| > 1 {
      assert swaps[0].outputMint == swaps[1].inputMint;
      ChainWalk(entry, l', swaps[1..]);
      assert Walk(entry, START, swaps) == Walk(entry, l', swaps[1..]);
    } else {
      assert swaps[1..] == [];
      assert Walk(entry, START, swaps) == Ok(l');
    }
  }

  // ---------------------------------------------------------------------------
  // Rewrites
  // ---------------------------------------------------------------------------

  lemma {:induction false} WalkAppend(entry: Pubkey, l: Ledger, a: seq<Swap>, b: seq<Swap>)
    ensures Walk(entry, l, a + b)
            == if Walk(entry, l, a).Err? then Walk(entry, l, a) else Walk(entry, Walk(entry, l, a).value, b)
    decreases |a|
  {
    if a == [] {
      assert a + b == b;
    } else {
      assert (a + b)[1..] == a[1..] + b;
      if Step(entry, l, a[0]).Ok? {
        WalkAppend(entry, Step(entry, l, a[0]).value, a[1..], b);
      }
    }
  }

  lemma {:induction false} WalkTwo(entry: Pubkey, l: Ledger, s: Swap, t: Swap)
    ensures Walk(entry, l, [s]) == Step(entry, l, s)
    ensures Walk(entry, l, [s, t])
            == if Step(entry, l, s).Err? then Step(entry, l, s) else Step(entry, Step(entry, l, s).value, t)
  {
    assert [s][1..] == [] && [s, t][1..] == [t] && [t][1..] == [];
    var first := Step(entry, l, s);
    if first.Ok? {
      assert Walk(entry, first.value, [t]) == Step(entry, first.value, t);
    }
  }

  /** The leg is paid for in full, or draws on the entry mint. */
  predicate Funded(entry: Pubkey, l: Ledger, s: Swap) {
    s.inputMint == entry || Shortfall(l, s) == 0
  }

  /** Two legs that together are one leg. */
  ghost predicate Splits(s: Swap, s1: Swap, s2: Swap) {
    s.inputMint == s1.inputMint == s2.inputMint
    && s.outputMint == s1.outputMint == s2.outputMint
    && s.inputAmount == s1.inputAmount + s2.inputAmount
    && s.outputAmount == s1.outputAmount + s2.outputAmount
  }

  /** Two halves touch every balance as the whole does. */
  lemma TouchesAdd(s: Swap, s1: Swap, s2: Swap, mint: Pubkey, balance: u64)
    requires s.inputMint != s.outputMint && Splits(s, s1, s2)
    ensures Touch(s2, mint, Touch(s1, mint, balance)) == Touch(s, mint, balance)
  {
  }

  lemma {:induction false} SplitStep(entry: Pubkey, l: Ledger, s: Swap, s1: Swap, s2: Swap)
    requires s.inputMint != s.outputMint && Splits(s, s1, s2) && Funded(entry, l, s)
    ensures Walk(entry, l, [s1, s2]) == Walk(entry, l, [s])
  {
    hide Step, IsDust, Walk;
    WalkTwo(entry, l, s, s);
    WalkTwo(entry, l, s1, s2);
    StepEffect(entry, l, s);
    StepEffect(entry, l, s1);
    var l1 := Step(entry, l, s1).value;
    StepEffect(entry, l1, s2);
    assert Step(entry, l, s1).Ok? && Step(entry, l1, s2).Ok? && Step(entry, l, s).Ok?;
    assert Step(entry, l, s).value.netInput == Step(entry, l1, s2).value.netInput;
    hide Touch, Shortfall;
    forall m ensures Avail(Step(entry, l, s).value.balance, m) == Avail(Step(entry, l1, s2).value.balance, m) {
      TouchesAdd(s, s1, s2, m, Avail(l.balance, m));
    }
    SameLedger(Step(entry, l, s).value, Step(entry, l1, s2).value);
  }

  /** Replacing a part of the route that the walk cannot tell apart keeps the net swap. */
  lemma {:induction false} Rewrite(before: seq<Swap>, part: seq<Swap>, other: seq<Swap>, after: seq<Swap>)
    requires part != [] && other != []
    requires before == [] ==> part[0].inputMint == other[0].inputMint
    requires after == [] ==> part[|part| - 1].outputMint == other[|other| - 1].outputMint
    requires var entry := (before + part)[0].inputMint;
             Walk(entry, START, before).Ok? ==>
               var l := Walk(entry, START, before).value; Walk(entry, l, part) == Walk(entry, l, other)
    ensures Net(before + part + after) == Net(before + other + after)
  {
    var entry := (before + part)[0].inputMint;
    WalkAppend(entry, START, before + part, after);
    WalkAppend(entry, START, before + other, after);
    WalkAppend(entry, START, before, part);
    WalkAppend(entry, START, before, other);
  }

  /** Two dusty halves make a dusty whole, and leave nothing either way. */
  lemma {:induction false} MergeShortStep(entry: Pubkey, l: Ledger, s: Swap, s1: Swap, s2: Swap)
    requires s.inputMint != s.outputMint && Splits(s, s1, s2)
    requires !Funded(entry, l, s)
    requires Step(entry, l, s1).Ok? && Step(entry, Step(entry, l, s1).value, s2).Ok?
    ensures Step(entry, l, s) == Step(entry, Step(entry, l, s1).value, s2)
  {
    hide Step, IsDust;
    var l1 := Step(entry, l, s1).value;
    StepEffect(entry, l, s);
    StepEffect(entry, l, s1);
    StepEffect(entry, l1, s2);
    IsDustExactly(Shortfall(l, s1), s1.inputAmount);
    IsDustExactly(Shortfall(l1, s2), s2.inputAmount);
    IsDustExactly(Shortfall(l, s), s.inputAmount);
    SameLedger(Step(entry, l, s).value, Step(entry, l1, s2).value);
  }

  lemma {:induction false} MergeStep(entry: Pubkey, l: Ledger, s: Swap, s1: Swap, s2: Swap)
    requires s.inputMint != s.outputMint && Splits(s, s1, s2)
    requires Walk(entry, l, [s1, s2]).Ok?
    ensures Walk(entry, l, [s]) == Walk(entry, l, [s1, s2])
  {
    hide Step, Walk, IsDust;
    if Funded(entry, l, s) {
      SplitStep(entry, l, s, s1, s2);
    } else {
      WalkTwo(entry, l, s, s);
      WalkTwo(entry, l, s1, s2);
      MergeShortStep(entry, l, s, s1, s2);
    }
  }

  /** Merging the two halves of a leg is always safe, even when dust was absorbed in them. */
  lemma {:induction false} MergingKeepsNet(before: seq<Swap>, s: Swap, s1: Swap, s2: Swap, after: seq<Swap>)
    requires s.inputMint != s.outputMint && Splits(s, s1, s2)
    requires Net(before + [s1, s2] + after).Ok?
    ensures Net(before + [s] + after) == Net(before + [s1, s2] + after)
  {
    var entry := (before + [s])[0].inputMint;
    assert entry == (before + [s1, s2] + after)[0].inputMint;
    WalkAppend(entry, START, before + [s1, s2], after);
    WalkAppend(entry, START, before, [s1, s2]);
    MergeStep(entry, Walk(entry, START, before).value, s, s1, s2);
    Rewrite(before, [s], [s1, s2], after);
  }

  /** Whether the walk treats the halves like the whole. A leg that is not funded needs its dust to be dust for
      the second half alone, if the first half is funded; if it is not, both halves have to pass by themselves,
      the second with nothing left. */
  predicate SplitsAlike(entry: Pubkey, l: Ledger, s: Swap, s1: Swap, s2: Swap) {
    Funded(entry, l, s)
    || if Avail(l.balance, s.inputMint) >= s1.inputAmount
       then IsDust(Shortfall(l, s), s2.inputAmount) || !IsDust(Shortfall(l, s), s.inputAmount)
       else s2.inputAmount == 0 || (IsDust(Shortfall(l, s1), s1.inputAmount) && IsDust(s2.inputAmount, s2.inputAmount))
  }

  /** What the two halves of an unfunded leg meet. */
  lemma {:induction false} HalvesOfShortLeg(entry: Pubkey, l: Ledger, s: Swap, s1: Swap, s2: Swap)
    requires s.inputMint != s.outputMint && Splits(s, s1, s2) && !Funded(entry, l, s)
    ensures Step(entry, l, s1).Ok?
            <==> Avail(l.balance, s.inputMint) >= s1.inputAmount || IsDust(Shortfall(l, s1), s1.inputAmount)
    ensures Step(entry, l, s1).Err? ==> Step(entry, l, s1).error == ImbalancedRoute(s.inputMint, Shortfall(l, s1))
    ensures Step(entry, l, s1).Ok? ==>
              Shortfall(Step(entry, l, s1).value, s2)
              == if Avail(l.balance, s.inputMint) >= s1.inputAmount then Shortfall(l, s) else s2.inputAmount
  {
    hide Step, IsDust;
    StepEffect(entry, l, s1);
  }

  /** Exactly when the two halves of a leg leave what the whole leaves, or are refused with the same error. */
  lemma {:induction false} SplitStepExactly(entry: Pubkey, l: Ledger, s: Swap, s1: Swap, s2: Swap)
    requires s.inputMint != s.outputMint && Splits(s, s1, s2)
    ensures Walk(entry, l, [s1, s2]) == Walk(entry, l, [s]) <==> SplitsAlike(entry, l, s, s1, s2)
  {
    hide Step, Walk, IsDust;
    if Funded(entry, l, s) {
      SplitStep(entry, l, s, s1, s2);
    } else {
      if Walk(entry, l, [s1, s2]).Ok? {
        MergeStep(entry, l, s, s1, s2);
      }
      WalkTwo(entry, l, s, s);
      WalkTwo(entry, l, s1, s2);
      HalvesOfShortLeg(entry, l, s, s1, s2);
      StepEffect(entry, l, s);
      if Step(entry, l, s1).Ok? {
        StepEffect(entry, Step(entry, l, s1).value, s2);
      }
    }
  }

  /** The condition where the route before the leg leaves the walk, if it gets that far. */
  ghost predicate SplitsAlikeAfter(entry: Pubkey, before: seq<Swap>, s: Swap, s1: Swap, s2: Swap) {
    Walk(entry, START, before).Ok? ==> SplitsAlike(entry, Walk(entry, START, before).value, s, s1, s2)
  }

  /** Splitting a leg between two different mints keeps the result, errors included, when the walk treats the
      halves like the whole; for a route that nets, exactly then. */
  lemma {:induction false} SplittingKeepsNet(before: seq<Swap>, s: Swap, s1: Swap, s2: Swap, after: seq<Swap>)
    requires s.inputMint != s.outputMint && Splits(s, s1, s2)
    ensures var alike := SplitsAlikeAfter((before + [s])[0].inputMint, before, s, s1, s2);
            (alike ==> Net(before + [s1, s2] + after) == Net(before + [s] + after))
            && (Net(before + [s] + after).Ok? ==>
                  (Net(before + [s1, s2] + after) == Net(before + [s] + after) <==> alike))
  {
    hide Step, SplitsAlike;
    var entry := (before + [s])[0].inputMint;
    assert entry == (before + [s] + after)[0].inputMint == (before + [s1, s2] + after)[0].inputMint;
    if Walk(entry, START, before).Ok? {
      SplitStepExactly(entry, Walk(entry, START, before).value, s, s1, s2);
    }
    if SplitsAlikeAfter(entry, before, s, s1, s2) {
      Rewrite(before, [s], [s1, s2], after);
    } else if Net(before + [s1, s2] + after).Ok? {
      WalkAppend(entry, START, before + [s1, s2], after);
      WalkAppend(entry, START, before, [s1, s2]);
      MergeStep(entry, Walk(entry, START, before).value, s, s1, s2);
    }
  }

  /** For a leg below MAX/5 in a route that nets, in plain arithmetic: splitting keeps the result exactly when the
      leg is funded, the second half consumes nothing, or the first half is funded and the gap is at most 0.05%
      of the second. */
  lemma {:induction false} SplittingModestLeg(before: seq<Swap>, s: Swap, s1: Swap, s2: Swap, after: seq<Swap>)
    requires s.inputMint != s.outputMint && Splits(s, s1, s2) && s.inputAmount < MAX_U64 / 5
    requires Net(before + [s] + after).Ok?
    ensures var entry := (before + [s])[0].inputMint;
            Walk(entry, START, before).Ok?
            && var l := Walk(entry, START, before).value;
               Net(before + [s1, s2] + after) == Net(before + [s] + after)
               <==> Funded(entry, l, s) || s2.inputAmount == 0
                    || (Avail(l.balance, s.inputMint) >= s1.inputAmount && 2000 * Shortfall(l, s) <= s2.inputAmount)
  {
    hide Step, IsDust;
    var entry := (before + [s])[0].inputMint;
    assert entry == (before + [s] + after)[0].inputMint;
    WalkAppend(entry, START, before + [s], after);
    WalkAppend(entry, START, before, [s]);
    var l := Walk(entry, START, before).value;
    WalkTwo(entry, l, s, s);
    StepEffect(entry, l, s);
    SplittingKeepsNet(before, s, s1, s2, after);
    IsDustExactly(Shortfall(l, s), s2.inputAmount);
    IsDustExactly(s2.inputAmount, s2.inputAmount);
  }

  /** A leg that leans on dust and whose halves are not treated alike: the second one is refused. */
  lemma SplittingDustCanFail(a: Pubkey, b: Pubkey, c: Pubkey)
    requires a != b && b != c
    ensures Net([Swap(a, b, 1, 3999), Swap(b, c, 4000, 1)]) == Ok(Swap(a, c, 1, 1))
    ensures Net([Swap(a, b, 1, 3999), Swap(b, c, 3999, 1), Swap(b, c, 1, 0)]) == Err(ImbalancedRoute(b, 1))
  {
    var s0, s, s1, s2 := Swap(a, b, 1, 3999), Swap(b, c, 4000, 1), Swap(b, c, 3999, 1), Swap(b, c, 1, 0);
    var l := Step(a, START, s0).value;
    WalkTwo(a, l, s, s);
    WalkTwo(a, l, s1, s2);
    assert [s0, s][1..] == [s] && [s0, s1, s2][1..] == [s1, s2];
    IsDustExactly(1, 4000);
    IsDustExactly(1, 1);
  }

  /** Neither leg consumes what the other produces. */
  predicate Independent(s: Swap, t: Swap) {
    s.outputMint != t.inputMint && t.outputMint != s.inputMint
  }

  /** The walk lets the leg through. */
  predicate Accepted(entry: Pubkey, l: Ledger, s: Swap) {
    Funded(entry, l, s) || IsDust(Shortfall(l, s), s.inputAmount)
  }

  /** The walk lets the leg through after the given legs, if it gets that far. */
  ghost predicate AcceptedAfter(entry: Pubkey, before: seq<Swap>, s: Swap) {
    Walk(entry, START, before).Ok? ==> Accepted(entry, Walk(entry, START, before).value, s)
  }

  ghost predicate FundedAfter(entry: Pubkey, before: seq<Swap>, s: Swap) {
    Walk(entry, START, before).Ok? ==> Funded(entry, Walk(entry, START, before).value, s)
  }

  /** Independent legs that pass in both orders leave the same ledger. */
  lemma {:induction false} ExchangeStep(entry: Pubkey, l: Ledger, s: Swap, t: Swap)
    requires Independent(s, t)
    requires Walk(entry, l, [s, t]).Ok? && Walk(entry, l, [t, s]).Ok?
    ensures Walk(entry, l, [s, t]) == Walk(entry, l, [t, s])
  {
    hide Step, Walk, IsDust;
    WalkTwo(entry, l, s, t);
    WalkTwo(entry, l, t, s);
    StepEffect(entry, l, s);
    StepEffect(entry, l, t);
    var l1, l2 := Step(entry, l, s).value, Step(entry, l, t).value;
    StepEffect(entry, l1, t);
    StepEffect(entry, l2, s);
    var l12, l21 := Step(entry, l1, t).value, Step(entry, l2, s).value;
    forall m ensures Avail(l12.balance, m) == Avail(l21.balance, m) {
      TouchesCommute(s, t, m, Avail(l.balance, m));
    }
    assert l12.netInput == l21.netInput;
    SameLedger(l12, l21);
  }

  /** Two funded independent legs pass in either order. */
  lemma {:induction false} FundedPassBothWays(entry: Pubkey, l: Ledger, s: Swap, t: Swap)
    requires Independent(s, t) && Funded(entry, l, s)
    requires Step(entry, l, s).Ok? ==> Funded(entry, Step(entry, l, s).value, t)
    ensures Walk(entry, l, [s, t]).Ok? && Walk(entry, l, [t, s]).Ok?
  {
    hide Step, Walk, IsDust;
    WalkTwo(entry, l, s, t);
    WalkTwo(entry, l, t, s);
    StepEffect(entry, l, s);
    StepEffect(entry, l, t);
    StepEffect(entry, Step(entry, l, s).value, t);
    StepEffect(entry, Step(entry, l, t).value, s);
  }

  lemma {:induction false} PassingIsAccepted(entry: Pubkey, before: seq<Swap>, s: Swap, t: Swap)
    requires Walk(entry, START, before).Ok?
    ensures Walk(entry, Walk(entry, START, before).value, [s, t]).Ok?
            <==> AcceptedAfter(entry, before, s) && AcceptedAfter(entry, before + [s], t)
  {
    hide Step, Walk, IsDust;
    var l := Walk(entry, START, before).value;
    WalkAppend(entry, START, before, [s]);
    WalkTwo(entry, l, s, t);
    StepEffect(entry, l, s);
    if Step(entry, l, s).Ok? {
      StepEffect(entry, Step(entry, l, s).value, t);
    }
  }

  /** Exchanging independent adjacent interior legs keeps the result, errors included, when they are funded; in a
      route that nets, exactly when the walk lets them through in the other order as well. */
  lemma {:induction false} ExchangingKeepsNet(before: seq<Swap>, s: Swap, t: Swap, after: seq<Swap>)
    requires before != [] && after != [] && Independent(s, t)
    ensures var entry := before[0].inputMint;
            FundedAfter(entry, before, s) && FundedAfter(entry, before + [s], t)
            ==> Net(before + [s, t] + after) == Net(before + [t, s] + after)
    ensures var entry := before[0].inputMint;
            Net(before + [s, t] + after).Ok? ==>
              (Net(before + [t, s] + after) == Net(before + [s, t] + after)
               <==> AcceptedAfter(entry, before, t) && AcceptedAfter(entry, before + [t], s))
  {
    hide Step, AcceptedAfter, Funded;
    var entry := before[0].inputMint;
    assert entry == (before + [s, t] + after)[0].inputMint == (before + [t, s] + after)[0].inputMint;
    WalkAppend(entry, START, before + [s, t], after);
    WalkAppend(entry, START, before + [t, s], after);
    WalkAppend(entry, START, before, [s, t]);
    WalkAppend(entry, START, before, [t, s]);
    if Walk(entry, START, before).Ok? {
      var l := Walk(entry, START, before).value;
      PassingIsAccepted(entry, before, t, s);
      if FundedAfter(entry, before, s) && FundedAfter(entry, before + [s], t) {
        WalkAppend(entry, START, before, [s]);
        WalkTwo(entry, l, s, t);
        FundedPassBothWays(entry, l, s, t);
      }
      if Walk(entry, l, [s, t]).Ok? && Walk(entry, l, [t, s]).Ok? {
        ExchangeStep(entry, l, s, t);
        Rewrite(before, [s, t], [t, s], after);
      }
    } else {
      Rewrite(before, [s, t], [t, s], after);
    }
  }

  /** Legs that draw on different mints pass in the other order if they pass in one. */
  lemma {:induction false} OtherOrderPasses(entry: Pubkey, l: Ledger, s: Swap, t: Swap)
    requires Independent(s, t) && s.inputMint != t.inputMint && Walk(entry, l, [s, t]).Ok?
    ensures Walk(entry, l, [t, s]).Ok?
  {
    hide Step, Walk, IsDust;
    WalkTwo(entry, l, s, t);
    WalkTwo(entry, l, t, s);
    StepEffect(entry, l, s);
    StepEffect(entry, l, t);
    StepEffect(entry, Step(entry, l, s).value, t);
    StepEffect(entry, Step(entry, l, t).value, s);
  }

  /** The ledger after `before`, and the walk of two legs from it, in a route that nets. */
  lemma {:induction false} NettingPasses(before: seq<Swap>, s: Swap, t: Swap, after: seq<Swap>)
    requires before != [] && Net(before + [s, t] + after).Ok?
    ensures var entry := before[0].inputMint;
            Walk(entry, START, before).Ok? && Walk(entry, Walk(entry, START, before).value, [s, t]).Ok?
  {
    var entry := before[0].inputMint;
    assert entry == (before + [s, t] + after)[0].inputMint;
    WalkAppend(entry, START, before + [s, t], after);
    WalkAppend(entry, START, before, [s, t]);
  }

  /** Independent legs that draw on different mints can always be exchanged in a route that nets. */
  lemma {:induction false} ExchangingDifferentInputs(before: seq<Swap>, s: Swap, t: Swap, after: seq<Swap>)
    requires before != [] && after != [] && Independent(s, t) && s.inputMint != t.inputMint
    requires Net(before + [s, t] + after).Ok?
    ensures Net(before + [t, s] + after) == Net(before + [s, t] + after)
  {
    hide Step, Walk, AcceptedAfter;
    var entry := before[0].inputMint;
    NettingPasses(before, s, t, after);
    OtherOrderPasses(entry, Walk(entry, START, before).value, s, t);
    PassingIsAccepted(entry, before, t, s);
    ExchangingKeepsNet(before, s, t, after);
  }

  /** The plain condition for exchanging two legs that draw on the same mint, of which `avail` is there. */
  predicate EnoughForEither(avail: u64, x: u64, y: u64) {
    x + y <= avail || x == 0 || (y <= avail && 2000 * (x + y - avail) <= x)
  }

  lemma {:induction false} OtherOrderOfOneMint(entry: Pubkey, l: Ledger, s: Swap, t: Swap)
    requires Independent(s, t) && s.inputMint == t.inputMint != entry && Walk(entry, l, [s, t]).Ok?
    requires s.inputAmount < MAX_U64 / 5 && t.inputAmount < MAX_U64 / 5
    ensures Walk(entry, l, [t, s]).Ok?
            <==> EnoughForEither(Avail(l.balance, s.inputMint), s.inputAmount, t.inputAmount)
  {
    hide Step, Walk, IsDust;
    WalkTwo(entry, l, s, t);
    WalkTwo(entry, l, t, s);
    StepEffect(entry, l, s);
    StepEffect(entry, l, t);
    StepEffect(entry, Step(entry, l, s).value, t);
    IsDustExactly(Shortfall(l, t), t.inputAmount);
    if Step(entry, l, t).Ok? {
      var l2 := Step(entry, l, t).value;
      StepEffect(entry, l2, s);
      IsDustExactly(Shortfall(l2, s), s.inputAmount);
    }
  }

  /** For legs below MAX/5 in a route that nets, in plain arithmetic: exchanging keeps the result exactly when the
      legs draw on different mints or on the entry mint, both are funded, the first consumes nothing, or the second
      is funded alone and the gap is at most 0.05% of the first. */
  lemma {:induction false} ExchangingModestLegs(before: seq<Swap>, s: Swap, t: Swap, after: seq<Swap>)
    requires before != [] && after != [] && Independent(s, t)
    requires s.inputAmount < MAX_U64 / 5 && t.inputAmount < MAX_U64 / 5
    requires Net(before + [s, t] + after).Ok?
    ensures var entry := before[0].inputMint;
            Walk(entry, START, before).Ok?
            && var avail := Avail(Walk(entry, START, before).value.balance, s.inputMint);
               Net(before + [t, s] + after) == Net(before + [s, t] + after)
               <==> s.inputMint != t.inputMint || s.inputMint == entry
                    || EnoughForEither(avail, s.inputAmount, t.inputAmount)
  {
    hide Step, Walk, AcceptedAfter, EnoughForEither;
    var entry := before[0].inputMint;
    NettingPasses(before, s, t, after);
    var l := Walk(entry, START, before).value;
    PassingIsAccepted(entry, before, t, s);
    ExchangingKeepsNet(before, s, t, after);
    if s.inputMint != t.inputMint {
      OtherOrderPasses(entry, l, s, t);
    } else if s.inputMint == entry {
      EntryLegsPass(entry, l, t, s);
    } else {
      OtherOrderOfOneMint(entry, l, s, t);
    }
  }

  lemma {:induction false} EntryLegsPass(entry: Pubkey, l: Ledger, s: Swap, t: Swap)
    requires s.inputMint == t.inputMint == entry
    ensures Walk(entry, l, [s, t]).Ok?
  {
    hide Step, Walk, IsDust;
    WalkTwo(entry, l, s, t);
    StepEffect(entry, l, s);
    StepEffect(entry, Step(entry, l, s).value, t);
  }

  /** A route that nets and fails with its two middle legs exchanged: the gap is dust for the large leg only. */
  lemma {:induction false} ExchangingDustCanFail(a: Pubkey, b: Pubkey, c: Pubkey, d: Pubkey)
    requires a != b && b != c && b != d
    ensures var s, t := Swap(b, c, 1, 1), Swap(b, d, 3999, 1);
            Net([Swap(a, b, 1, 3999)] + [s, t] + [Swap(a, a, 0, 0)]).Ok?
            && Net([Swap(a, b, 1, 3999)] + [t, s] + [Swap(a, a, 0, 0)]) == Err(ImbalancedRoute(b, 1))
  {
    var s0, s, t, last := Swap(a, b, 1, 3999), Swap(b, c, 1, 1), Swap(b, d, 3999, 1), Swap(a, a, 0, 0);
    var l := Step(a, START, s0).value;
    WalkTwo(a, START, s0, s0);
    WalkTwo(a, l, s, t);
    WalkTwo(a, l, t, s);
    IsDustExactly(1, 3999);
    IsDustExactly(1, 1);
    WalkAppend(a, START, [s0], [s, t]);
    WalkAppend(a, START, [s0], [t, s]);
    WalkAppend(a, START, [s0] + [s, t], [last]);
    WalkAppend(a, START, [s0] + [t, s], [last]);
    WalkTwo(a, Walk(a, l, [s, t]).value, last, last);
  }
  // ---------------------------------------------------------------------------
  // Failure
  // ---------------------------------------------------------------------------

  /** The legs before leg `i` net, and leg `i` takes more of a mint other than the entry mint than they left; what is
      missing is no dust. */
  ghost predicate FailsAt(swaps: seq<Swap>, i: nat, mint: Pubkey, missing: u64) {
    0 < i < |swaps| && Net(swaps[..i]).Ok? && mint == swaps[i].inputMint && mint != swaps[0].inputMint
    && missing > 0 && Left(swaps[..i], mint) + missing == swaps[i].inputAmount
    && !IsDust(missing, swaps[i].inputAmount)
  }

  /** The leg at which a walk fails. */
  lemma {:induction false} FailingLeg(entry: Pubkey, l: Ledger, swaps: seq<Swap>) returns (i: nat)
    requires Walk(entry, l, swaps).Err?
    ensures i < |swaps| && Walk(entry, l, swaps[..i]).Ok?
    ensures Step(entry, Walk(entry, l, swaps[..i]).value, swaps[i]) == Err(Walk(entry, l, swaps).error)
    decreases |swaps|
  {
    hide Step;
    if Step(entry, l, swaps[0]).Err? {
      i := 0;
    } else {
      i := FailingLeg(entry, Step(entry, l, swaps[0]).value, swaps[1..]);
      i := i + 1;
      assert swaps[..i][1..] == swaps[1..][..i - 1];
    }
  }

  lemma {:induction false} FailureStops(swaps: seq<Swap>, i: nat, mint: Pubkey, missing: u64)
    requires FailsAt(swaps, i, mint, missing)
    ensures Net(swaps) == Err(ImbalancedRoute(mint, missing))
  {
    hide Step;
    var entry, before := swaps[0].inputMint, swaps[..i];
    var l := Walk(entry, START, before).value;
    StepEffect(entry, l, swaps[i]);
    WalkAppend(entry, START, before, swaps[i..]);
    assert swaps == before + swaps[i..];
  }

  /** Exactly when netting fails, and with what: an empty route, or the first leg that takes more of a mint other
      than the entry mint than is left, by more than dust; the error names the mint and what is missing, which in
      plain sums is what was consumed up to and with that leg, less what was produced and absorbed before it. */
  lemma {:induction false} NetFailsExactly(swaps: seq<Swap>, mint: Pubkey, missing: u64)
    ensures Net(swaps) == Err(EmptyRoute) <==> swaps == []
    ensures Net(swaps) == Err(ImbalancedRoute(mint, missing)) <==> exists i: nat :: FailsAt(swaps, i, mint, missing)
    ensures forall i: nat :: FailsAt(swaps, i, mint, missing) && Produced(swaps[..i], mint) <= MAX_U64 ==>
              Consumed(swaps[..i], mint) + swaps[i].inputAmount
              == Produced(swaps[..i], mint) + Gap(swaps[0].inputMint, START, swaps[..i], mint) + missing
  {
    hide Walk, Step, IsDust;
    if swaps != [] && Net(swaps).Err? {
      FailsSomewhere(swaps);
    }
    forall i: nat | FailsAt(swaps, i, mint, missing) ensures Net(swaps) == Err(ImbalancedRoute(mint, missing)) {
      FailureStops(swaps, i, mint, missing);
    }
    forall i: nat | FailsAt(swaps, i, mint, missing) && Produced(swaps[..i], mint) <= MAX_U64
      ensures Consumed(swaps[..i], mint) + swaps[i].inputAmount
              == Produced(swaps[..i], mint) + Gap(swaps[0].inputMint, START, swaps[..i], mint) + missing
    {
      Conservation(swaps[..i], mint);
    }
  }

  lemma {:induction false} FailsSomewhere(swaps: seq<Swap>)
    requires swaps != [] && Net(swaps).Err?
    ensures Net(swaps).error.ImbalancedRoute?
    ensures exists i: nat :: FailsAt(swaps, i, Net(swaps).error.mint, Net(swaps).error.amount)
  {
    hide Step;
    var entry := swaps[0].inputMint;
    var i := FailingLeg(entry, START, swaps);
    StepEffect(entry, Walk(entry, START, swaps[..i]).value, swaps[i]);
    assert FailsAt(swaps, i, Net(swaps).error.mint, Net(swaps).error.amount);
  }
}
