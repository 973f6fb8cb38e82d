/** Swap detection from balance changes alone (graced/src/parse/full.rs). */
module BalanceDiff {
  import opened Primitives

  const SOL_MINT: string := "So11111111111111111111111111111111111111112"

  /** The owner field of a token balance: absent, not a public key, or a key. */
  datatype Owner = Missing | Unparseable | Key(key: Pubkey)

  /** One token account in a snapshot; `amount` is None when its text is not a number. */
  datatype TokenSnapshot = TokenSnapshot(accountIndex: u8, owner: Owner, mint: string, decimals: u8,
                                         amount: Option<int>)

  /** The decoded transaction metadata; `accountKeys` is None when the loaded addresses do not parse. */
  datatype TxMeta = TxMeta(failed: bool, preToken: seq<TokenSnapshot>, postToken: seq<TokenSnapshot>,
                           preBalances: seq<u64>, postBalances: seq<u64>, accountKeys: Option<seq<Pubkey>>)

  datatype BalanceDelta = BalanceDelta(owner: Pubkey, mint: string, delta: int, decimals: u8)

  type DeltaKey = (Pubkey, string)

  datatype SwapEvent = SwapEvent(trader: Pubkey, sold: seq<(string, int, u8)>, bought: seq<(string, int, u8)>,
                                 isProgramMediated: bool)

  datatype TxParseError = TransactionFailed | InvalidPubkey

  // ---------------------------------------------------------------------------
  // What the snapshots say
  // ---------------------------------------------------------------------------

  type Snapshot = map<u8, TokenSnapshot>

  /** The map filled by inserting every balance under its account index: the last one wins. */
  function ByIndex(balances: seq<TokenSnapshot>): Snapshot {
    if balances == [] then map[] else
      var last := balances[|balances| - 1];
      ByIndex(balances[..|balances| - 1])[last.accountIndex := last]
  }

  function AmountAt(s: Snapshot, idx: u8): int {
    if idx in s && s[idx].amount.Some? then s[idx].amount.value else 0
  }

  /** The snapshot that names the owner and mint of an account: the later one if there is one. */
  function Shown(pre: Snapshot, post: Snapshot, idx: u8): Option<TokenSnapshot> {
    if idx in post then Some(post[idx]) else if idx in pre then Some(pre[idx]) else None
  }

  predicate ShownAs(pre: Snapshot, post: Snapshot, idx: u8, key: DeltaKey) {
    var shown := Shown(pre, post, idx);
    shown.Some? && shown.value.owner == Key(key.0) && shown.value.mint == key.1
  }

  /** What account `idx` contributes to an owner's total of a mint. */
  function TokenChange(pre: Snapshot, post: Snapshot, idx: u8, key: DeltaKey): int {
    if ShownAs(pre, post, idx, key) then AmountAt(post, idx) - AmountAt(pre, idx) else 0
  }

  /** The sum of the contributions of all accounts below `n`. */
  function TokenTotal(pre: Snapshot, post: Snapshot, key: DeltaKey, n: nat): int
    requires n <= 256
  {
    if n == 0 then 0 else TokenTotal(pre, post, key, n - 1) + TokenChange(pre, post, n - 1, key)
  }

  function LamportsAt(balances: seq<u64>, i: nat): u64 {
    if i < |balances| then balances[i] else 0
  }

  function LamportChange(meta: TxMeta, i: nat): int {
    LamportsAt(meta.postBalances, i) - LamportsAt(meta.preBalances, i)
  }

  /** The lamport change of the first `n` listed accounts, as far as they are the given owner's SOL. */
  function LamportTotal(meta: TxMeta, keys: seq<Pubkey>, key: DeltaKey, n: nat): int
    requires n <= |keys|
  {
    if n == 0 then 0 else
      LamportTotal(meta, keys, key, n - 1) + (if (keys[n - 1], SOL_MINT) == key then LamportChange(meta, n - 1) else 0)
  }

  function Keys(meta: TxMeta): seq<Pubkey> {
    if meta.accountKeys.Some? then meta.accountKeys.value else []
  }

  /** An owner's total change of a mint, with native SOL under the wrapped mint. */
  function RawTotal(meta: TxMeta, key: DeltaKey): int {
    TokenTotal(ByIndex(meta.preToken), ByIndex(meta.postToken), key, 256)
    + LamportTotal(meta, Keys(meta), key, |Keys(meta)|)
  }

  /** Some token account below `n` changed for that owner and mint. */
  ghost predicate ChangedBefore(pre: Snapshot, post: Snapshot, key: DeltaKey, n: nat) {
    exists idx: u8 :: idx < n && TokenChange(pre, post, idx, key) != 0
  }

  ghost predicate LamportMoved(meta: TxMeta, keys: seq<Pubkey>, key: DeltaKey, n: nat)
    requires n <= |keys|
  {
    exists i :: 0 <= i < n && (keys[i], SOL_MINT) == key && LamportChange(meta, i) != 0
  }

  /** Some account of the owner changed in that mint. */
  ghost predicate Moved(meta: TxMeta, key: DeltaKey) {
    ChangedBefore(ByIndex(meta.preToken), ByIndex(meta.postToken), key, 256)
    || LamportMoved(meta, Keys(meta), key, |Keys(meta)|)
  }

  /** Some shown owner is not a public key. */
  ghost predicate BadOwner(pre: Snapshot, post: Snapshot) {
    exists idx: u8 :: Shown(pre, post, idx).Some? && Shown(pre, post, idx).value.owner.Unparseable?
  }

  /** The total that swap detection works with: the fee is credited only to an existing SOL entry of the payer. */
  ghost function Total(meta: TxMeta, feePayer: Pubkey, fee: u64, key: DeltaKey): int {
    RawTotal(meta, key) + (if key == (feePayer, SOL_MINT) && Moved(meta, key) then fee else 0)
  }

  // ---------------------------------------------------------------------------
  // What a list of events reports
  // ---------------------------------------------------------------------------

  type Deltas = map<DeltaKey, BalanceDelta>

  ghost predicate Consistent(entries: Deltas) {
    forall k :: k in entries ==> entries[k].owner == k.0 && entries[k].mint == k.1
  }

  ghost function DeltaOf(entries: Deltas, key: DeltaKey): int {
    if key in entries then entries[key].delta else 0
  }

  /** The legs list each mint at most once. */
  ghost predicate OncePerMint(legs: seq<(string, int, u8)>) {
    forall i, j :: 0 <= i < j < |legs| ==> legs[i].0 != legs[j].0
  }

  /** The event lists exactly the trader's negative totals as sold and the positive ones as bought. */
  ghost predicate ListsTotals(event: SwapEvent, entries: Deltas) {
    OncePerMint(event.sold) && OncePerMint(event.bought)
    && (forall leg :: leg in event.sold <==>
          leg.1 > 0 && (event.trader, leg.0) in entries
          && entries[(event.trader, leg.0)] == BalanceDelta(event.trader, leg.0, -leg.1, leg.2))
    && (forall leg :: leg in event.bought <==>
          leg.1 > 0 && (event.trader, leg.0) in entries
          && entries[(event.trader, leg.0)] == BalanceDelta(event.trader, leg.0, leg.1, leg.2))
  }

  ghost predicate Trades(entries: Deltas, owner: Pubkey) {
    (exists mint :: DeltaOf(entries, (owner, mint)) < 0) && (exists mint :: DeltaOf(entries, (owner, mint)) > 0)
  }

  /** One event for every owner with both a negative and a positive total, and no other event. */
  ghost predicate Reports(events: seq<SwapEvent>, entries: Deltas, isOnCurve: Pubkey -> bool) {
    (forall i, j :: 0 <= i < j < |events| ==> events[i].trader != events[j].trader)
    && (forall event :: event in events ==>
          Trades(entries, event.trader) && ListsTotals(event, entries)
          && event.isProgramMediated == !isOnCurve(event.trader))
    && (forall owner :: Trades(entries, owner) ==> exists event :: event in events && event.trader == owner)
  }

  /** The decimals are those shown for one of the owner's changed accounts of that mint. */
  ghost predicate DecimalsShown(pre: Snapshot, post: Snapshot, key: DeltaKey, decimals: u8, n: nat) {
    exists idx: u8 ::
      idx < n && TokenChange(pre, post, idx, key) != 0 && Shown(pre, post, idx).value.decimals == decimals
  }

  /** The table holds every owner's totals: an entry for every mint that moved, and no other. */
  ghost predicate Reflects(entries: Deltas, meta: TxMeta, feePayer: Pubkey, fee: u64) {
    Consistent(entries)
    && (forall k :: DeltaOf(entries, k) == Total(meta, feePayer, fee, k))
    && (forall k :: k in entries <==> Moved(meta, k))
    && (forall k :: k in entries ==>
          if k.1 == SOL_MINT then entries[k].decimals == 9
          else DecimalsShown(ByIndex(meta.preToken), ByIndex(meta.postToken), k, entries[k].decimals, 256))
  }

  // ---------------------------------------------------------------------------
  // Legs of one owner
  // ---------------------------------------------------------------------------

  /** The owner's negative deltas, negated. */
  function Sold(deltas: seq<BalanceDelta>): seq<(string, int, u8)> {
    if deltas == [] then [] else
      Sold(deltas[..|deltas| - 1])
      + (var d := deltas[|deltas| - 1]; if d.delta < 0 then [(d.mint, -d.delta, d.decimals)] else [])
  }

  /** The owner's positive deltas. */
  function Bought(deltas: seq<BalanceDelta>): seq<(string, int, u8)> {
    if deltas == [] then [] else
      Bought(deltas[..|deltas| - 1])
      + (var d := deltas[|deltas| - 1]; if d.delta > 0 then [(d.mint, d.delta, d.decimals)] else [])
  }

  ghost predicate DistinctMints(deltas: seq<BalanceDelta>) {
    forall i, j :: 0 <= i < j < |deltas| ==> deltas[i].mint != deltas[j].mint
  }

  lemma {:induction false} SoldLists(deltas: seq<BalanceDelta>, owner: Pubkey)
    requires DistinctMints(deltas) && forall d :: d in deltas ==> d.owner == owner
    ensures OncePerMint(Sold(deltas))
    ensures forall leg :: leg in Sold(deltas) <==> leg.1 > 0 && BalanceDelta(owner, leg.0, -leg.1, leg.2) in deltas
    decreases |deltas|
  {
    if deltas != [] {
      var n := |deltas| - 1;
      SoldLists(deltas[..n], owner);
      assert deltas == deltas[..n] + [deltas[n]];
      assert forall leg :: leg in Sold(deltas[..n]) ==> leg.0 != deltas[n].mint;
    }
  }

  lemma {:induction false} BoughtLists(deltas: seq<BalanceDelta>, owner: Pubkey)
    requires DistinctMints(deltas) && forall d :: d in deltas ==> d.owner == owner
    ensures OncePerMint(Bought(deltas))
    ensures forall leg :: leg in Bought(deltas) <==> leg.1 > 0 && BalanceDelta(owner, leg.0, leg.1, leg.2) in deltas
    decreases |deltas|
  {
    if deltas != [] {
      var n := |deltas| - 1;
      BoughtLists(deltas[..n], owner);
      assert deltas == deltas[..n] + [deltas[n]];
      assert forall leg :: leg in Bought(deltas[..n]) ==> leg.0 != deltas[n].mint;
    }
  }

  // ---------------------------------------------------------------------------
  // Filling the table
  // ---------------------------------------------------------------------------

  /** `entry(..).and_modify(..).or_insert(..)`: add to an entry, or start one with these decimals. */
  function Added(entries: Deltas, owner: Pubkey, mint: string, amount: int, decimals: u8): Deltas {
    var key := (owner, mint);
    entries[key := if key in entries then entries[key].(delta := entries[key].delta + amount)
                   else BalanceDelta(owner, mint, amount, decimals)]
  }

  ghost predicate TotalsDone(entries: Deltas, pre: Snapshot, post: Snapshot, n: nat)
    requires n <= 256
  {
    forall k :: DeltaOf(entries, k) == TokenTotal(pre, post, k, n)
  }

  ghost predicate KeysDone(entries: Deltas, pre: Snapshot, post: Snapshot, n: nat) {
    forall k :: k in entries <==> ChangedBefore(pre, post, k, n)
  }

  ghost predicate DecimalsDone(entries: Deltas, pre: Snapshot, post: Snapshot, n: nat) {
    forall k :: k in entries ==> DecimalsShown(pre, post, k, entries[k].decimals, n)
  }

  /** The table holds what the accounts below `n` contribute, and nothing else. */
  ghost predicate TokensDone(entries: Deltas, pre: Snapshot, post: Snapshot, n: nat)
    requires n <= 256
  {
    Consistent(entries) && TotalsDone(entries, pre, post, n)
    && KeysDone(entries, pre, post, n) && DecimalsDone(entries, pre, post, n)
  }

  lemma {:induction false} ChangedStep(pre: Snapshot, post: Snapshot, key: DeltaKey, n: u8)
    ensures ChangedBefore(pre, post, key, n + 1)
            <==> ChangedBefore(pre, post, key, n) || TokenChange(pre, post, n, key) != 0
  {
  }

  lemma {:induction false} DecimalsStep(entries: Deltas, pre: Snapshot, post: Snapshot, n: u8)
    requires DecimalsDone(entries, pre, post, n)
    ensures DecimalsDone(entries, pre, post, n + 1)
  {
    forall k | k in entries ensures DecimalsShown(pre, post, k, entries[k].decimals, n + 1) {
      assert DecimalsShown(pre, post, k, entries[k].decimals, n);
    }
  }

  lemma {:induction false} TokensUnchanged(entries: Deltas, pre: Snapshot, post: Snapshot, n: u8)
    requires TokensDone(entries, pre, post, n)
    requires forall k :: TokenChange(pre, post, n, k) == 0
    ensures TokensDone(entries, pre, post, n + 1)
  {
    DecimalsStep(entries, pre, post, n);
    forall k ensures ChangedBefore(pre, post, k, n + 1) <==> ChangedBefore(pre, post, k, n) {
      ChangedStep(pre, post, k, n);
    }
  }

  /** The one total that account `n` changes. */
  lemma ChangeAt(pre: Snapshot, post: Snapshot, n: u8, owner: Pubkey)
    requires Shown(pre, post, n).Some? && Shown(pre, post, n).value.owner == Key(owner)
    ensures forall k :: TokenChange(pre, post, n, k)
                == if k == (owner, Shown(pre, post, n).value.mint) then AmountAt(post, n) - AmountAt(pre, n) else 0
  {
  }

  lemma {:induction false} TokensAdded(entries: Deltas, pre: Snapshot, post: Snapshot, n: u8, owner: Pubkey)
    requires TokensDone(entries, pre, post, n)
    requires Shown(pre, post, n).Some? && Shown(pre, post, n).value.owner == Key(owner)
    requires AmountAt(post, n) != AmountAt(pre, n)
    ensures var shown := Shown(pre, post, n).value;
            TokensDone(Added(entries, owner, shown.mint, AmountAt(post, n) - AmountAt(pre, n), shown.decimals),
                       pre, post, n + 1)
  {
    hide TokenChange, Shown, AmountAt;
    var shown := Shown(pre, post, n).value;
    var entries' := Added(entries, owner, shown.mint, AmountAt(post, n) - AmountAt(pre, n), shown.decimals);
    ChangeAt(pre, post, n, owner);
    forall k ensures DeltaOf(entries', k) == TokenTotal(pre, post, k, n + 1) {
      assert TokenTotal(pre, post, k, n + 1) == TokenTotal(pre, post, k, n) + TokenChange(pre, post, n, k);
    }
    assert KeysDone(entries', pre, post, n + 1) by {
      forall k ensures k in entries' <==> ChangedBefore(pre, post, k, n + 1) {
        ChangedStep(pre, post, k, n);
      }
    }
    DecimalsStep(entries, pre, post, n);
    assert DecimalsShown(pre, post, (owner, shown.mint), shown.decimals, n + 1);
  }

  /** The table holds `base` and what the lamports of the first `n` accounts add to it. */
  ghost predicate LamportsDone(entries: Deltas, base: Deltas, meta: TxMeta, keys: seq<Pubkey>, n: nat)
    requires n <= |keys|
  {
    Consistent(entries)
    && (forall k :: DeltaOf(entries, k) == DeltaOf(base, k) + LamportTotal(meta, keys, k, n))
    && (forall k :: k in entries <==> k in base || LamportMoved(meta, keys, k, n))
    && (forall k :: k in entries ==> entries[k].decimals == if k in base then base[k].decimals else 9)
  }

  lemma {:induction false} LamportsStep(entries: Deltas, base: Deltas, meta: TxMeta, keys: seq<Pubkey>, n: nat)
    requires n < |keys| && LamportsDone(entries, base, meta, keys, n)
    ensures var change := LamportChange(meta, n);
            LamportsDone(if change == 0 then entries else Added(entries, keys[n], SOL_MINT, change, 9),
                         base, meta, keys, n + 1)
  {
    var change := LamportChange(meta, n);
    forall k ensures LamportMoved(meta, keys, k, n + 1)
                     <==> LamportMoved(meta, keys, k, n) || (change != 0 && k == (keys[n], SOL_MINT)) {
      assert LamportMoved(meta, keys, k, n) ==> LamportMoved(meta, keys, k, n + 1);
    }
  }

  /** The table once every SOL entry outside `rest` has been put back with 9 decimals. */
  ghost function Folded(entries: Deltas, rest: set<DeltaKey>): Deltas {
    map k | k in entries :: if k.1 == SOL_MINT && k !in rest then entries[k].(decimals := 9) else entries[k]
  }

  lemma {:induction false} FoldStep(entries: Deltas, rest: set<DeltaKey>, key: DeltaKey)
    requires Consistent(entries) && key in entries && key in rest && key.1 == SOL_MINT
    ensures Added(Folded(entries, rest) - {key}, key.0, SOL_MINT, entries[key].delta, 9)
            == Folded(entries, rest - {key})
  {
  }

  // ---------------------------------------------------------------------------
  // The delta table
  // ---------------------------------------------------------------------------

  method IndexBalances(balances: seq<TokenSnapshot>) returns (byIndex: Snapshot)
    ensures byIndex == ByIndex(balances)
  {
    byIndex := map[];
    for i := 0 to |balances|
      invariant byIndex == ByIndex(balances[..i])
    {
      assert balances[..i + 1][..i] == balances[..i];
      byIndex := byIndex[balances[i].accountIndex := balances[i]];
    }
    assert balances[..|balances|] == balances;
  }

  class DeltaTable {
    var entries: Deltas

    constructor ()
      ensures entries == map[]
    {
      entries := map[];
    }

    method Add(owner: Pubkey, mint: string, amount: int, decimals: u8)
      modifies this
      ensures entries == Added(old(entries), owner, mint, amount, decimals)
    {
      var key := (owner, mint);
      if key in entries {
        entries := entries[key := entries[key].(delta := entries[key].delta + amount)];
      } else {
        entries := entries[key := BalanceDelta(owner, mint, amount, decimals)];
      }
    }

    /** The token part of `compute_raw_deltas`, visiting the account indices in ascending order. */
    method AddTokenDeltas(pre: Snapshot, post: Snapshot) returns (ok: bool)
      requires entries == map[]
      modifies this
      ensures ok <==> !BadOwner(pre, post)
      ensures ok ==> TokensDone(entries, pre, post, 256)
    {
      for n := 0 to 256
        invariant forall idx: u8 :: idx < n && Shown(pre, post, idx).Some? ==>
                    !Shown(pre, post, idx).value.owner.Unparseable?
        invariant TokensDone(entries, pre, post, n)
      {
        var shown := Shown(pre, post, n);
        var amount := AmountAt(post, n) - AmountAt(pre, n);
        if shown.Some? && shown.value.owner.Unparseable? {
          return false;
        } else if shown.Some? && shown.value.owner.Key? && amount != 0 {
          TokensAdded(entries, pre, post, n, shown.value.owner.key);
          Add(shown.value.owner.key, shown.value.mint, amount, shown.value.decimals);
        } else {
          TokensUnchanged(entries, pre, post, n);
        }
      }
      ok := true;
    }

    /** The lamport part of `compute_raw_deltas`. */
    method AddLamportDeltas(meta: TxMeta)
      requires Consistent(entries)
      modifies this
      ensures LamportsDone(entries, old(entries), meta, Keys(meta), |Keys(meta)|)
    {
      var keys := Keys(meta);
      for i := 0 to |keys|
        invariant LamportsDone(entries, old(entries), meta, keys, i)
      {
        LamportsStep(entries, old(entries), meta, keys, i);
        var change := LamportsAt(meta.postBalances, i) - LamportsAt(meta.preBalances, i);
        if change != 0 {
          Add(keys[i], SOL_MINT, change, 9);
        }
      }
    }

    /** `compute_raw_deltas`, once the transaction is known not to have failed. */
    method ComputeRawDeltas(meta: TxMeta) returns (ok: bool)
      requires entries == map[]
      modifies this
      ensures ok <==> !BadOwner(ByIndex(meta.preToken), ByIndex(meta.postToken))
      ensures ok ==> Consistent(entries)
      ensures ok ==> forall k :: DeltaOf(entries, k) == RawTotal(meta, k)
      ensures ok ==> forall k :: k in entries <==> Moved(meta, k)
      ensures ok ==> forall k :: k in entries && k.1 != SOL_MINT ==>
                DecimalsShown(ByIndex(meta.preToken), ByIndex(meta.postToken), k, entries[k].decimals, 256)
    {
      var preMap := IndexBalances(meta.preToken);
      var postMap := IndexBalances(meta.postToken);
      ok := AddTokenDeltas(preMap, postMap);
      if ok {
        AddLamportDeltas(meta);
      }
    }

    /** `merge_sol_and_wsol`: credit the fee, then take every SOL entry out and put it back. */
    method MergeSolAndWsol(feePayer: Pubkey, fee: u64)
      requires Consistent(entries)
      modifies this
      ensures Consistent(entries) && entries.Keys == old(entries).Keys
      ensures forall k :: k in entries ==>
                var credit := if k == (feePayer, SOL_MINT) then fee else 0;
                var was := old(entries)[k];
                entries[k] == if k.1 == SOL_MINT then BalanceDelta(was.owner, was.mint, was.delta + credit, 9) else was
    {
      var payer := (feePayer, SOL_MINT);
      if payer in entries {
        entries := entries[payer := entries[payer].(delta := entries[payer].delta + fee)];
      }
      ghost var credited := entries;
      assert Consistent(credited);
      assert Folded(credited, set k | k in credited.Keys && k.1 == SOL_MINT) == credited;
      var rest := set k | k in entries.Keys && k.1 == SOL_MINT;
      while rest != {}
        invariant rest <= (set k | k in entries.Keys && k.1 == SOL_MINT)
        invariant entries == Folded(credited, rest)
        decreases rest
      {
        var key :| key in rest;
        FoldStep(credited, rest, key);
        rest := rest - {key};
        var wsolDelta := entries[key].delta;
        entries := entries - {key};
        Add(key.0, SOL_MINT, wsolDelta, 9);
      }
    }

    /** `cluster_into_swaps`, with owners and their mints in whatever order the hash maps yield. */
    method ClusterIntoSwaps(isOnCurve: Pubkey -> bool) returns (swaps: seq<SwapEvent>)
      requires Consistent(entries)
      ensures Reports(swaps, entries, isOnCurve)
    {
      hide Sold, Bought, ListsTotals, Trades;
      var byOwner: map<Pubkey, seq<BalanceDelta>> := map[];
      var rest := entries.Keys;
      while rest != {}
        invariant rest <= entries.Keys
        invariant Grouped(byOwner, entries, entries.Keys - rest)
        decreases rest
      {
        var key :| key in rest;
        var d := entries[key];
        GroupedAdds(byOwner, entries, entries.Keys - rest, key);
        byOwner := byOwner[d.owner := (if d.owner in byOwner then byOwner[d.owner] else []) + [d]];
        assert entries.Keys - (rest - {key}) == (entries.Keys - rest) + {key};
        rest := rest - {key};
      }
      assert entries.Keys - rest == entries.Keys;

      swaps := [];
      var owners := byOwner.Keys;
      while owners != {}
        invariant owners <= byOwner.Keys
        invariant Grouped(byOwner, entries, entries.Keys)
        invariant forall i, j :: 0 <= i < j < |swaps| ==> swaps[i].trader != swaps[j].trader
        invariant forall event :: event in swaps ==>
                    event.trader in byOwner && event.trader !in owners && Trades(entries, event.trader)
                    && ListsTotals(event, entries) && event.isProgramMediated == !isOnCurve(event.trader)
        invariant forall owner :: owner in byOwner && owner !in owners && Trades(entries, owner) ==>
                    exists event :: event in swaps && event.trader == owner
        decreases owners
      {
        var owner :| owner in owners;
        owners := owners - {owner};
        var sold, bought := Sold(byOwner[owner]), Bought(byOwner[owner]);
        ghost var event := SwapEvent(owner, sold, bought, !isOnCurve(owner));
        OwnerLegs(byOwner, entries, event);
        if sold != [] && bought != [] {
          ghost var was := swaps;
          swaps := swaps + [SwapEvent(owner, sold, bought, !isOnCurve(owner))];
          assert forall e :: e in swaps <==> e in was || e == event;
        }
      }
      forall owner | Trades(entries, owner) ensures owner in byOwner {
        TraderIsListed(entries, owner);
      }
    }
  }

  /** `detect_swaps` on decoded metadata. */
  method DetectSwaps(meta: TxMeta, feePayer: Pubkey, fee: u64, isOnCurve: Pubkey -> bool)
    returns (r: Result<seq<SwapEvent>, TxParseError>)
    ensures r == Err(TransactionFailed) <==> meta.failed
    ensures r == Err(InvalidPubkey) <==> !meta.failed && BadOwner(ByIndex(meta.preToken), ByIndex(meta.postToken))
    ensures r.Ok? ==> exists entries :: Reflects(entries, meta, feePayer, fee) && Reports(r.value, entries, isOnCurve)
  {
    if meta.failed {
      return Err(TransactionFailed);
    }
    var table := new DeltaTable();
    var ok := table.ComputeRawDeltas(meta);
    if !ok {
      return Err(InvalidPubkey);
    }
    table.MergeSolAndWsol(feePayer, fee);
    assert Reflects(table.entries, meta, feePayer, fee);
    var swaps := table.ClusterIntoSwaps(isOnCurve);
    r := Ok(swaps);
  }

  /** Every owner's group lists that owner's entries among the given keys, each once. */
  ghost predicate Grouped(byOwner: map<Pubkey, seq<BalanceDelta>>, entries: Deltas, keys: set<DeltaKey>)
    requires keys <= entries.Keys
  {
    (forall k :: k in keys ==> k.0 in byOwner)
    && (forall o :: o in byOwner ==> DistinctMints(byOwner[o]))
    && (forall o, d :: o in byOwner ==>
          (d in byOwner[o] <==> d.owner == o && (o, d.mint) in keys && entries[(o, d.mint)] == d))
  }

  lemma TraderIsListed(entries: Deltas, owner: Pubkey)
    requires Trades(entries, owner)
    ensures exists mint :: (owner, mint) in entries
  {
    var mint :| DeltaOf(entries, (owner, mint)) < 0;
    assert (owner, mint) in entries;
  }

  lemma {:induction false} GroupedAdds(byOwner: map<Pubkey, seq<BalanceDelta>>, entries: Deltas, keys: set<DeltaKey>,
                                       key: DeltaKey)
    requires Consistent(entries) && keys <= entries.Keys && Grouped(byOwner, entries, keys)
    requires key in entries && key !in keys
    ensures var d := entries[key];
            Grouped(byOwner[d.owner := (if d.owner in byOwner then byOwner[d.owner] else []) + [d]],
                    entries, keys + {key})
  {
    var d := entries[key];
    var group := if d.owner in byOwner then byOwner[d.owner] else [];
    assert forall x :: x in group + [d] <==> x in group || x == d;
    assert forall x :: x in group ==> x.mint != d.mint;
  }

  /** The legs of an owner's group list exactly that owner's totals. */
  lemma {:induction false} OwnerLegs(byOwner: map<Pubkey, seq<BalanceDelta>>, entries: Deltas, event: SwapEvent)
    requires Consistent(entries) && Grouped(byOwner, entries, entries.Keys) && event.trader in byOwner
    requires event.sold == Sold(byOwner[event.trader]) && event.bought == Bought(byOwner[event.trader])
    ensures ListsTotals(event, entries)
    ensures Trades(entries, event.trader) <==> event.sold != [] && event.bought != []
  {
    var group := byOwner[event.trader];
    SoldLists(group, event.trader);
    BoughtLists(group, event.trader);
    assert ListsTotals(event, entries);
    ListedTrades(event, entries);
  }

  lemma {:induction false} ListedTrades(event: SwapEvent, entries: Deltas)
    requires Consistent(entries) && ListsTotals(event, entries)
    ensures Trades(entries, event.trader) <==> event.sold != [] && event.bought != []
  {
    if event.sold != [] && event.bought != [] {
      assert event.sold[0] in event.sold && event.bought[0] in event.bought;
      assert DeltaOf(entries, (event.trader, event.sold[0].0)) < 0
             && DeltaOf(entries, (event.trader, event.bought[0].0)) > 0;
    }
    if Trades(entries, event.trader) {
      var m :| DeltaOf(entries, (event.trader, m)) < 0;
      var m' :| DeltaOf(entries, (event.trader, m')) > 0;
      var d, d' := entries[(event.trader, m)], entries[(event.trader, m')];
      assert (m, -d.delta, d.decimals) in event.sold && (m', d'.delta, d'.decimals) in event.bought;
    }
  }
}
