/** Netting a route of elementary swaps into one swap (graced/src/swap/graph.rs). */
module SwapGraph {
  import opened Primitives

  datatype Swap = Swap(inputMint: Pubkey, outputMint: Pubkey, inputAmount: u64, outputAmount: u64)

  datatype SwapGraphError = EmptyRoute | ImbalancedRoute(mint: Pubkey, amount: u64)

  const DUST_TOLERANCE_BPS: u64 := 5

  /** `is_dust`, with both products saturating. */
  predicate IsDust(amount: u64, reference: u64) {
    SatMul(amount, 10_000) <= SatMul(reference, DUST_TOLERANCE_BPS)
  }

  type Balances = map<Pubkey, u64>

  function Avail(balance: Balances, mint: Pubkey): u64 {
    if mint in balance then balance[mint] else 0
  }

  // ---------------------------------------------------------------------------
  // The walk over the route
  // ---------------------------------------------------------------------------

  /** Running balances and the outside capital used so far. */
  datatype Ledger = Ledger(balance: Balances, netInput: u64)

  function Shortfall(l: Ledger, s: Swap): u64 {
    if Avail(l.balance, s.inputMint) < s.inputAmount then s.inputAmount - Avail(l.balance, s.inputMint) else 0
  }

  /** Paying for one leg out of the ledger. */
  function Consume(entry: Pubkey, l: Ledger, s: Swap): Result<Ledger, SwapGraphError> {
    var short := Shortfall(l, s);
    if short == 0 then Ok(l.(balance := l.balance[s.inputMint := Avail(l.balance, s.inputMint) - s.inputAmount]))
    else if s.inputMint == entry then Ok(Ledger(l.balance[s.inputMint := 0], SatAdd(l.netInput, short)))
    else if IsDust(short, s.inputAmount) then Ok(l.(balance := l.balance[s.inputMint := 0]))
    else Err(ImbalancedRoute(s.inputMint, short))
  }

  function Produce(l: Ledger, s: Swap): Ledger {
    l.(balance := l.balance[s.outputMint := WrapAdd(Avail(l.balance, s.outputMint), s.outputAmount)])
  }

  function Step(entry: Pubkey, l: Ledger, s: Swap): Result<Ledger, SwapGraphError> {
    var paid := Consume(entry, l, s);
    if paid.Err? then paid else Ok(Produce(paid.value, s))
  }

  function Walk(entry: Pubkey, l: Ledger, swaps: seq<Swap>): Result<Ledger, SwapGraphError>
    decreases |swaps|
  {
    if swaps == [] then Ok(l) else
      var next := Step(entry, l, swaps[0]);
      if next.Err? then next else Walk(entry, next.value, swaps[1..])
  }

  const START := Ledger(map[], 0)

  /** The result of `SwapGraph::swap`. */
  function Net(swaps: seq<Swap>): Result<Swap, SwapGraphError> {
    if swaps == [] then Err(EmptyRoute) else
      var entry, exit := swaps[0].inputMint, swaps[|swaps| - 1].outputMint;
      var end := Walk(entry, START, swaps);
      if end.Err? then Err(end.error)
      else Ok(Swap(entry, exit, end.value.netInput, Avail(end.value.balance, exit)))
  }

  /** `SwapGraph::swap`. */
  method NetSwap(swaps: seq<Swap>) returns (r: Result<Swap, SwapGraphError>)
    ensures r == Net(swaps)
  {
    if swaps == [] {
      return Err(EmptyRoute);
    }
    var inputMint := swaps[0].inputMint;
    var outputMint := swaps[|swaps| - 1].outputMint;
    var balance: Balances := map[];
    var netInput: u64 := 0;
    for i := 0 to |swaps|
      invariant Walk(inputMint, Ledger(balance, netInput), swaps[i..]) == Walk(inputMint, START, swaps)
    {
      var s := swaps[i];
      assert swaps[i..][1..] == swaps[i + 1..];
      ghost var before := Ledger(balance, netInput);
      var avail := Avail(balance, s.inputMint);
      if avail < s.inputAmount {
        var shortfall := s.inputAmount - avail;
        if s.inputMint == inputMint {
          netInput := SatAdd(netInput, shortfall);
          balance := balance[s.inputMint := 0];
        } else if IsDust(shortfall, s.inputAmount) {
          balance := balance[s.inputMint := 0];
        } else {
          return Err(ImbalancedRoute(s.inputMint, shortfall));
        }
      } else {
        balance := balance[s.inputMint := avail - s.inputAmount];
      }
      assert Ok(Ledger(balance, netInput)) == Consume(inputMint, before, s);
      balance := balance[s.outputMint := WrapAdd(Avail(balance, s.outputMint), s.outputAmount)];
    }
    return Ok(Swap(inputMint, outputMint, netInput, Avail(balance, outputMint)));
  }

  // ---------------------------------------------------------------------------
  // Totals over a route
  // ---------------------------------------------------------------------------

  /** What a leg takes from a mint, and what it gives. */
  function Cost(s: Swap, mint: Pubkey): nat {
    if s.inputMint == mint then s.inputAmount else 0
  }

  function Yield(s: Swap, mint: Pubkey): nat {
    if s.outputMint == mint then s.outputAmount else 0
  }

  function Consumed(swaps: seq<Swap>, mint: Pubkey): nat {
    if swaps == [] then 0 else Cost(swaps[0], mint) + Consumed(swaps[1..], mint)
  }

  function Produced(swaps: seq<Swap>, mint: Pubkey): nat {
    if swaps == [] then 0 else Yield(swaps[0], mint) + Produced(swaps[1..], mint)
  }
}
