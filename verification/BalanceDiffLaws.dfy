/** What detection from balance changes means: totals are plain sums over accounts, independent of snapshot
    order, and events are exactly the owners that gave one mint and got another. */
module BalanceDiffLaws {
  import opened Primitives
  import opened BalanceDiff

  // ---------------------------------------------------------------------------
  // Totals are plain sums
  // ---------------------------------------------------------------------------

  ghost predicate UniqueIndices(balances: seq<TokenSnapshot>) {
    forall i, j :: 0 <= i < j < |balances| ==> balances[i].accountIndex != balances[j].accountIndex
  }

  /** What one listed balance adds to an owner's holding of a mint. */
  function Held(b: TokenSnapshot, key: DeltaKey): int {
    if b.owner == Key(key.0) && b.mint == key.1 && b.amount.Some? then b.amount.value else 0
  }

  /** An owner's holding of a mint: the sum over the listed balances. */
  function Holding(balances: seq<TokenSnapshot>, key: DeltaKey): int {
    if balances == [] then 0 else
      Holding(balances[..|balances| - 1], key) + Held(balances[|balances| - 1], key)
  }

  /** The same sum taken over account indices. */
  function HoldingByIndex(s: Snapshot, key: DeltaKey, n: nat): int
    requires n <= 256
  {
    if n == 0 then 0 else HoldingByIndex(s, key, n - 1) + (if n - 1 in s then Held(s[n - 1], key) else 0)
  }

  lemma {:induction false} ByIndexHolds(balances: seq<TokenSnapshot>)
    ensures forall idx :: idx in ByIndex(balances) ==>
              ByIndex(balances)[idx] in balances && ByIndex(balances)[idx].accountIndex == idx
    ensures forall b :: b in balances ==> b.accountIndex in ByIndex(balances)
    decreases |balances|
  {
    if balances != [] {
      var n := |balances| - 1;
      ByIndexHolds(balances[..n]);
      assert balances == balances[..n] + [balances[n]];
    }
  }

  lemma {:induction false} HoldingOfInsert(s: Snapshot, b: TokenSnapshot, key: DeltaKey, n: nat)
    requires n <= 256 && b.accountIndex !in s
    ensures HoldingByIndex(s[b.accountIndex := b], key, n)
            == HoldingByIndex(s, key, n) + (if b.accountIndex < n then Held(b, key) else 0)
  {
    if n > 0 {
      HoldingOfInsert(s, b, key, n - 1);
    }
  }

  lemma {:induction false} HoldingOfEmpty(key: DeltaKey, n: nat)
    requires n <= 256
    ensures HoldingByIndex(map[], key, n) == 0
  {
    if n > 0 {
      HoldingOfEmpty(key, n - 1);
    }
  }

  lemma {:induction false} HoldingsAgree(balances: seq<TokenSnapshot>, key: DeltaKey)
    requires UniqueIndices(balances)
    ensures HoldingByIndex(ByIndex(balances), key, 256) == Holding(balances, key)
    decreases |balances|
  {
    if balances == [] {
      HoldingOfEmpty(key, 256);
    } else {
      var n := |balances| - 1;
      HoldingsAgree(balances[..n], key);
      ByIndexHolds(balances[..n]);
      HoldingOfInsert(ByIndex(balances[..n]), balances[n], key, 256);
    }
  }

  /** What the accounts below `n` that another holder had before, and that now show as the owner's holding of the
      mint, contained before. */
  function TakenOver(pre: Snapshot, post: Snapshot, key: DeltaKey, n: nat): int
    requires n <= 256
  {
    if n == 0 then 0 else
      TakenOver(pre, post, key, n - 1)
      + (if n - 1 in pre && n - 1 in post && HeldAs(post[n - 1], key) && !HeldAs(pre[n - 1], key)
         then AmountAt(pre, n - 1) else 0)
  }

  /** What the accounts below `n` that were the owner's holding of the mint, and now show as another's, contained
      before. */
  function GivenUp(pre: Snapshot, post: Snapshot, key: DeltaKey, n: nat): int
    requires n <= 256
  {
    if n == 0 then 0 else
      GivenUp(pre, post, key, n - 1)
      + (if n - 1 in pre && n - 1 in post && HeldAs(pre[n - 1], key) && !HeldAs(post[n - 1], key)
         then AmountAt(pre, n - 1) else 0)
  }

  predicate HeldAs(b: TokenSnapshot, key: DeltaKey) {
    b.owner == Key(key.0) && b.mint == key.1
  }

  /** Whatever the snapshots say, an account's earlier balance is charged to its later holder: the total is the
      change in holding, plus what was given up with its account, minus what was taken over with one. */
  lemma {:induction false} TokenTotalChargesLaterHolder(pre: Snapshot, post: Snapshot, key: DeltaKey, n: nat)
    requires n <= 256
    ensures TokenTotal(pre, post, key, n)
            == HoldingByIndex(post, key, n) - HoldingByIndex(pre, key, n)
               + GivenUp(pre, post, key, n) - TakenOver(pre, post, key, n)
  {
    if n > 0 {
      TokenTotalChargesLaterHolder(pre, post, key, n - 1);
    }
  }

  /** An owner's lamports: the balances paired off with the account keys, as far as both lists go. */
  function LamportsHeld(balances: seq<u64>, keys: seq<Pubkey>, owner: Pubkey): int {
    if balances == [] || keys == [] then 0 else
      (if keys[0] == owner then balances[0] else 0) + LamportsHeld(balances[1..], keys[1..], owner)
  }

  /** One more key adds its balance, or nothing when there is none. */
  lemma {:induction false} LamportsHeldStep(balances: seq<u64>, keys: seq<Pubkey>, owner: Pubkey, n: nat)
    requires n < |keys|
    ensures LamportsHeld(balances, keys[..n + 1], owner)
            == LamportsHeld(balances, keys[..n], owner)
               + (if keys[n] == owner && n < |balances| then balances[n] else 0)
  {
    if balances != [] && n > 0 {
      LamportsHeldStep(balances[1..], keys[1..], owner, n - 1);
      assert keys[..n + 1][1..] == keys[1..][..n] && keys[..n][1..] == keys[1..][..n - 1];
    } else if balances != [] {
      assert keys[..1][1..] == [] && keys[..0] == [];
    }
  }

  /** The lamport part of a total is the owner's lamports after minus those before, under the wrapped mint only. */
  lemma {:induction false} LamportTotalIsDifference(meta: TxMeta, keys: seq<Pubkey>, key: DeltaKey, n: nat)
    requires n <= |keys|
    ensures LamportTotal(meta, keys, key, n)
            == if key.1 != SOL_MINT then 0
               else LamportsHeld(meta.postBalances, keys[..n], key.0) - LamportsHeld(meta.preBalances, keys[..n], key.0)
  {
    if n > 0 {
      LamportTotalIsDifference(meta, keys, key, n - 1);
      LamportsHeldStep(meta.postBalances, keys, key.0, n - 1);
      LamportsHeldStep(meta.preBalances, keys, key.0, n - 1);
    }
  }

  /** What an owner holds of a mint after minus what the owner held before, native SOL counting as the wrapped mint
      when the account keys are known. */
  function PlainSum(meta: TxMeta, key: DeltaKey): int {
    Holding(meta.postToken, key) - Holding(meta.preToken, key)
    + (if key.1 != SOL_MINT || meta.accountKeys == None then 0
       else LamportsHeld(meta.postBalances, meta.accountKeys.value, key.0)
            - LamportsHeld(meta.preBalances, meta.accountKeys.value, key.0))
  }

  /** With unique account indices, an owner's total of a mint is the plain sum exactly when the accounts that
      changed into the owner's hands contained before what those that changed out of them did. */
  lemma {:induction false} TotalsArePlainSumsExactly(meta: TxMeta, key: DeltaKey)
    requires UniqueIndices(meta.preToken) && UniqueIndices(meta.postToken)
    ensures var pre, post := ByIndex(meta.preToken), ByIndex(meta.postToken);
            RawTotal(meta, key) == PlainSum(meta, key) + GivenUp(pre, post, key, 256) - TakenOver(pre, post, key, 256)
            && (RawTotal(meta, key) == PlainSum(meta, key)
                <==> GivenUp(pre, post, key, 256) == TakenOver(pre, post, key, 256))
    ensures key.1 != SOL_MINT ==> PlainSum(meta, key) == Holding(meta.postToken, key) - Holding(meta.preToken, key)
  {
    HoldingsAgree(meta.preToken, key);
    HoldingsAgree(meta.postToken, key);
    TokenTotalChargesLaterHolder(ByIndex(meta.preToken), ByIndex(meta.postToken), key, 256);
    var keys := Keys(meta);
    LamportTotalIsDifference(meta, keys, key, |keys|);
    assert keys[..|keys|] == keys;
  }

  /** An account that is in both snapshots has the same holder in both, or held nothing before. */
  ghost predicate SameHolders(pre: seq<TokenSnapshot>, post: seq<TokenSnapshot>) {
    forall a, b :: a in pre && b in post && a.accountIndex == b.accountIndex ==>
      a.amount == None || a.amount == Some(0) || (a.owner == b.owner && a.mint == b.mint)
  }

  lemma {:induction false} NothingChangedHands(pre: Snapshot, post: Snapshot, key: DeltaKey, n: nat)
    requires n <= 256
    requires forall idx: u8 :: idx in pre && idx in post ==>
               AmountAt(pre, idx) == 0 || (pre[idx].owner == post[idx].owner && pre[idx].mint == post[idx].mint)
    ensures GivenUp(pre, post, key, n) == 0 && TakenOver(pre, post, key, n) == 0
  {
    if n > 0 {
      NothingChangedHands(pre, post, key, n - 1);
    }
  }

  /** In particular when no account with a balance changed hands. */
  lemma {:induction false} TotalsArePlainSums(meta: TxMeta, key: DeltaKey)
    requires UniqueIndices(meta.preToken) && UniqueIndices(meta.postToken) && SameHolders(meta.preToken, meta.postToken)
    ensures RawTotal(meta, key) == PlainSum(meta, key)
    ensures key.1 != SOL_MINT ==> RawTotal(meta, key) == Holding(meta.postToken, key) - Holding(meta.preToken, key)
  {
    ByIndexHolds(meta.preToken);
    ByIndexHolds(meta.postToken);
    NothingChangedHands(ByIndex(meta.preToken), ByIndex(meta.postToken), key, 256);
    TotalsArePlainSumsExactly(meta, key);
  }

  /** An account that changes hands with its balance: one owner's holding falls, the other's rises, and neither
      total shows it. */
  lemma {:induction false} HandoverIsInvisible(x: Pubkey, y: Pubkey, mint: string, decimals: u8, amount: u64)
    requires x != y && amount > 0
    ensures var meta := TxMeta(false, [TokenSnapshot(0, Key(x), mint, decimals, Some(amount))],
                               [TokenSnapshot(0, Key(y), mint, decimals, Some(amount))], [], [], None);
            PlainSum(meta, (x, mint)) == -(amount as int) && PlainSum(meta, (y, mint)) == amount
            && RawTotal(meta, (x, mint)) == 0 && RawTotal(meta, (y, mint)) == 0
  {
    var before := TokenSnapshot(0, Key(x), mint, decimals, Some(amount));
    var after := TokenSnapshot(0, Key(y), mint, decimals, Some(amount));
    assert [before][..0] == [] && [after][..0] == [];
    OneAccountTotal(before, after, (x, mint), 256);
    OneAccountTotal(before, after, (y, mint), 256);
  }

  /** One account with the same balance in both snapshots contributes nothing to anybody. */
  lemma {:induction false} OneAccountTotal(before: TokenSnapshot, after: TokenSnapshot, key: DeltaKey, n: nat)
    requires before.accountIndex == after.accountIndex && before.amount == after.amount && n <= 256
    ensures TokenTotal(ByIndex([before]), ByIndex([after]), key, n) == 0
  {
    assert [before][..0] == [] && [after][..0] == [];
    if n > 0 {
      OneAccountTotal(before, after, key, n - 1);
    }
  }

  // ---------------------------------------------------------------------------
  // What moved, and what refuses a transaction
  // ---------------------------------------------------------------------------

  /** The last balance listed under an account index, or none. */
  ghost predicate LastListed(balances: seq<TokenSnapshot>, idx: u8, found: Option<TokenSnapshot>) {
    match found
    case None => forall b :: b in balances ==> b.accountIndex != idx
    case Some(b) =>
      b.accountIndex == idx
      && exists k :: 0 <= k < |balances| && balances[k] == b
                     && forall j :: k < j < |balances| ==> balances[j].accountIndex != idx
  }

  /** The index map holds the last listed balances and nothing else. */
  lemma {:induction false} IndexedIsLastListed(balances: seq<TokenSnapshot>, idx: u8, found: Option<TokenSnapshot>)
    ensures LastListed(balances, idx, found)
            <==> found == if idx in ByIndex(balances) then Some(ByIndex(balances)[idx]) else None
    decreases |balances|
  {
    if balances != [] {
      var n := |balances| - 1;
      var front := balances[..n];
      IndexedIsLastListed(front, idx, found);
      assert balances == front + [balances[n]];
      if balances[n].accountIndex != idx {
        LastListedOfFront(balances, idx, found);
      } else if LastListed(balances, idx, found) {
        assert balances[n] in balances;
      }
    }
  }

  /** A balance of another index at the end does not matter. */
  lemma {:induction false} LastListedOfFront(balances: seq<TokenSnapshot>, idx: u8, found: Option<TokenSnapshot>)
    requires balances != [] && balances[|balances| - 1].accountIndex != idx
    ensures LastListed(balances, idx, found) <==> LastListed(balances[..|balances| - 1], idx, found)
  {
    var n := |balances| - 1;
    var front := balances[..n];
    assert balances == front + [balances[n]];
    if found.Some? && LastListed(front, idx, found) {
      var k :| 0 <= k < n && front[k] == found.value && forall j :: k < j < n ==> front[j].accountIndex != idx;
      assert balances[k] == found.value;
      assert forall j :: k < j < n ==> balances[j] == front[j];
    }
    if found.Some? && LastListed(balances, idx, found) {
      var k :| 0 <= k <= n && balances[k] == found.value
               && forall j :: k < j <= n ==> balances[j].accountIndex != idx;
      assert front[k] == found.value;
    }
  }

  lemma {:induction false} IndexMapIsLastListed(balances: seq<TokenSnapshot>)
    ensures forall idx: u8, found ::
              LastListed(balances, idx, found)
              <==> found == if idx in ByIndex(balances) then Some(ByIndex(balances)[idx]) else None
  {
    forall idx: u8, found ensures LastListed(balances, idx, found)
                                  <==> found == if idx in ByIndex(balances) then Some(ByIndex(balances)[idx]) else None
    {
      IndexedIsLastListed(balances, idx, found);
    }
  }

  function AmountIn(b: Option<TokenSnapshot>): int {
    if b.Some? && b.value.amount.Some? then b.value.amount.value else 0
  }

  /** The account changed, and its later balance, or the earlier one when there is no later, names this owner, mint
      and number of decimals. */
  ghost predicate ChangedAs(before: Option<TokenSnapshot>, after: Option<TokenSnapshot>, key: DeltaKey, decimals: u8) {
    AmountIn(after) != AmountIn(before)
    && if after.Some? then after.value.owner == Key(key.0) && after.value.mint == key.1
                           && after.value.decimals == decimals
       else before.Some? && before.value.owner == Key(key.0) && before.value.mint == key.1
            && before.value.decimals == decimals
  }

  /** Some listed account changed for the owner and mint, with these decimals. */
  ghost predicate TokenChanged(meta: TxMeta, key: DeltaKey, decimals: u8) {
    exists idx: u8, before, after ::
      LastListed(meta.preToken, idx, before) && LastListed(meta.postToken, idx, after)
      && ChangedAs(before, after, key, decimals)
  }

  /** An entry outside SOL takes its decimals from a listed account that changed for its owner and mint. */
  lemma {:induction false} DecimalsAreListed(meta: TxMeta, key: DeltaKey, decimals: u8)
    ensures DecimalsShown(ByIndex(meta.preToken), ByIndex(meta.postToken), key, decimals, 256)
            <==> TokenChanged(meta, key, decimals)
  {
    hide ByIndex, LastListed;
    var pre, post := ByIndex(meta.preToken), ByIndex(meta.postToken);
    IndexMapIsLastListed(meta.preToken);
    IndexMapIsLastListed(meta.postToken);
    if DecimalsShown(pre, post, key, decimals, 256) {
      var idx: u8 :| TokenChange(pre, post, idx, key) != 0 && Shown(pre, post, idx).value.decimals == decimals;
      var before := if idx in pre then Some(pre[idx]) else None;
      var after := if idx in post then Some(post[idx]) else None;
      assert LastListed(meta.preToken, idx, before) && LastListed(meta.postToken, idx, after);
      assert ChangedAs(before, after, key, decimals);
    }
    if idx: u8, before, after :|
      LastListed(meta.preToken, idx, before) && LastListed(meta.postToken, idx, after)
      && ChangedAs(before, after, key, decimals)
    {
      assert TokenChange(pre, post, idx, key) != 0 && Shown(pre, post, idx).value.decimals == decimals;
    }
  }

  /** An owner has an entry of a mint exactly when a listed account changed for them, or for the wrapped mint a
      listed key of the owner had other lamports after than before, a missing balance counting as zero. */
  lemma {:induction false} MovedExactly(meta: TxMeta, key: DeltaKey)
    ensures Moved(meta, key)
            <==> (exists decimals :: TokenChanged(meta, key, decimals))
                 || (key.1 == SOL_MINT && meta.accountKeys.Some?
                     && exists i :: 0 <= i < |meta.accountKeys.value| && meta.accountKeys.value[i] == key.0
                                    && (if i < |meta.preBalances| then meta.preBalances[i] else 0)
                                       != (if i < |meta.postBalances| then meta.postBalances[i] else 0))
  {
    hide ByIndex, TokenChanged;
    var pre, post := ByIndex(meta.preToken), ByIndex(meta.postToken);
    forall decimals
      ensures DecimalsShown(pre, post, key, decimals, 256) <==> TokenChanged(meta, key, decimals)
    {
      DecimalsAreListed(meta, key, decimals);
    }
    if ChangedBefore(pre, post, key, 256) {
      var idx: u8 :| TokenChange(pre, post, idx, key) != 0;
      assert DecimalsShown(pre, post, key, Shown(pre, post, idx).value.decimals, 256);
    }
    if decimals :| TokenChanged(meta, key, decimals) {
      assert DecimalsShown(pre, post, key, decimals, 256);
    }
  }

  /** Detection refuses a transaction that did not fail exactly when some account's later balance, or the earlier
      one when there is no later, names an owner that is not a public key. */
  lemma {:induction false} BadOwnerExactly(meta: TxMeta)
    ensures BadOwner(ByIndex(meta.preToken), ByIndex(meta.postToken))
            <==> exists idx: u8, before, after ::
                   LastListed(meta.preToken, idx, before) && LastListed(meta.postToken, idx, after)
                   && if after.Some? then after.value.owner.Unparseable?
                      else before.Some? && before.value.owner.Unparseable?
  {
    hide ByIndex, LastListed;
    var pre, post := ByIndex(meta.preToken), ByIndex(meta.postToken);
    IndexMapIsLastListed(meta.preToken);
    IndexMapIsLastListed(meta.postToken);
    if BadOwner(pre, post) {
      var idx: u8 :| Shown(pre, post, idx).Some? && Shown(pre, post, idx).value.owner.Unparseable?;
      assert LastListed(meta.preToken, idx, if idx in pre then Some(pre[idx]) else None);
      assert LastListed(meta.postToken, idx, if idx in post then Some(post[idx]) else None);
    }
    if idx: u8, before, after :|
      LastListed(meta.preToken, idx, before) && LastListed(meta.postToken, idx, after)
      && if after.Some? then after.value.owner.Unparseable? else before.Some? && before.value.owner.Unparseable?
    {
      assert Shown(pre, post, idx) == if after.Some? then after else before;
    }
  }

  // ---------------------------------------------------------------------------
  // Snapshot order
  // ---------------------------------------------------------------------------

  /** Balances under the same index are the same balance. */
  ghost predicate NoConflicts(balances: seq<TokenSnapshot>) {
    forall a, b :: a in balances && b in balances && a.accountIndex == b.accountIndex ==> a == b
  }

  lemma {:induction false} ByIndexIsTheSet(balances: seq<TokenSnapshot>, reordered: seq<TokenSnapshot>)
    requires NoConflicts(balances) && forall b :: b in balances <==> b in reordered
    ensures ByIndex(balances) == ByIndex(reordered)
  {
    var m, m' := ByIndex(balances), ByIndex(reordered);
    ByIndexHolds(balances);
    ByIndexHolds(reordered);
    forall idx | idx in m ensures idx in m' && m[idx] == m'[idx] {
      assert m[idx] in balances && m[idx] in reordered;
    }
    forall idx | idx in m' ensures idx in m {
      assert m'[idx] in balances;
    }
  }

  /** Listing a snapshot in another order leaves the account map alone, for every order, exactly when no two
      different balances share an account index. */
  lemma {:induction false} OrderMattersOnlyForConflicts(balances: seq<TokenSnapshot>)
    ensures NoConflicts(balances)
            <==> forall reordered :: multiset(reordered) == multiset(balances) ==>
              ByIndex(reordered) == ByIndex(balances)
  {
    if NoConflicts(balances) {
      forall reordered | multiset(reordered) == multiset(balances) ensures ByIndex(reordered) == ByIndex(balances) {
        assert forall b :: b in balances <==> b in multiset(balances) <==> b in multiset(reordered) <==> b in reordered;
        ByIndexIsTheSet(balances, reordered);
      }
    } else {
      var a, b :| a in balances && b in balances && a.accountIndex == b.accountIndex && a != b;
      var front := MovedLast(balances, a);
      var front' := MovedLast(balances, b);
      assert ByIndex(front)[a.accountIndex] == a && ByIndex(front')[a.accountIndex] == b;
      assert ByIndex(front) != ByIndex(balances) || ByIndex(front') != ByIndex(balances);
    }
  }

  lemma {:induction false} MovedLast(balances: seq<TokenSnapshot>, b: TokenSnapshot)
    returns (reordered: seq<TokenSnapshot>)
    requires b in balances
    ensures multiset(reordered) == multiset(balances) && reordered != [] && reordered[|reordered| - 1] == b
  {
    var i :| 0 <= i < |balances| && balances[i] == b;
    reordered := balances[..i] + balances[i + 1..] + [b];
    assert balances == balances[..i] + [b] + balances[i + 1..];
  }

  // ---------------------------------------------------------------------------
  // Events
  // ---------------------------------------------------------------------------

  /** Whatever the hash order, an owner gets an event exactly when some total is negative and some positive. */
  lemma {:induction false} EventsAreTraders(meta: TxMeta, feePayer: Pubkey, fee: u64, entries: Deltas,
                                            events: seq<SwapEvent>, isOnCurve: Pubkey -> bool, owner: Pubkey)
    requires Reflects(entries, meta, feePayer, fee) && Reports(events, entries, isOnCurve)
    ensures (exists event :: event in events && event.trader == owner)
            <==> (exists m :: Total(meta, feePayer, fee, (owner, m)) < 0)
                 && (exists m :: Total(meta, feePayer, fee, (owner, m)) > 0)
    ensures forall event :: event in events ==> (event.isProgramMediated <==> !isOnCurve(event.trader))
  {
    assert forall m :: DeltaOf(entries, (owner, m)) == Total(meta, feePayer, fee, (owner, m));
    assert Trades(entries, owner)
      <==> (exists m :: Total(meta, feePayer, fee, (owner, m)) < 0)
           && (exists m :: Total(meta, feePayer, fee, (owner, m)) > 0);
  }

  /** An event lists a mint as sold or bought exactly for the trader's negative or positive total of it. */
  lemma {:induction false} LegsAreTotals(meta: TxMeta, feePayer: Pubkey, fee: u64, entries: Deltas,
                                         events: seq<SwapEvent>, isOnCurve: Pubkey -> bool, event: SwapEvent,
                                         m: string, amount: int)
    requires Reflects(entries, meta, feePayer, fee) && Reports(events, entries, isOnCurve) && event in events
    ensures (exists d :: (m, amount, d) in event.sold)
            <==> amount > 0 && Total(meta, feePayer, fee, (event.trader, m)) == -amount
    ensures (exists d :: (m, amount, d) in event.bought)
            <==> amount > 0 && Total(meta, feePayer, fee, (event.trader, m)) == amount
  {
    LegIsTotal(event, entries, m, amount);
    assert DeltaOf(entries, (event.trader, m)) == Total(meta, feePayer, fee, (event.trader, m));
  }

  lemma {:induction false} LegIsTotal(event: SwapEvent, entries: Deltas, m: string, amount: int)
    requires Consistent(entries) && ListsTotals(event, entries)
    ensures (exists d :: (m, amount, d) in event.sold) <==> amount > 0 && DeltaOf(entries, (event.trader, m)) == -amount
    ensures (exists d :: (m, amount, d) in event.bought)
            <==> amount > 0 && DeltaOf(entries, (event.trader, m)) == amount
  {
    var key := (event.trader, m);
    if amount > 0 && key in entries {
      var d := entries[key];
      assert (m, amount, d.decimals) in event.sold <==> d.delta == -amount;
      assert (m, amount, d.decimals) in event.bought <==> d.delta == amount;
    }
  }

  /** A leg's decimals are 9 for SOL and otherwise those of a listed account that changed for the trader. */
  lemma {:induction false} LegDecimalsAreListed(meta: TxMeta, feePayer: Pubkey, fee: u64, entries: Deltas,
                                                events: seq<SwapEvent>, isOnCurve: Pubkey -> bool, event: SwapEvent,
                                                leg: (string, int, u8))
    requires Reflects(entries, meta, feePayer, fee) && Reports(events, entries, isOnCurve) && event in events
    requires leg in event.sold || leg in event.bought
    ensures if leg.0 == SOL_MINT then leg.2 == 9 else TokenChanged(meta, (event.trader, leg.0), leg.2)
  {
    assert ListsTotals(event, entries);
    DecimalsAreListed(meta, (event.trader, leg.0), leg.2);
  }

  // ---------------------------------------------------------------------------
  // The fee
  // ---------------------------------------------------------------------------

  /** What an owner's change of a mint was apart from the fee. */
  function FeelessTotal(meta: TxMeta, feePayer: Pubkey, fee: u64, key: DeltaKey): int {
    RawTotal(meta, key) + (if key == (feePayer, SOL_MINT) then fee else 0)
  }

  /** The merged table holds every change apart from the fee exactly when the payer's SOL moved at all, or there
      is no fee: otherwise the payer's entry is missing and the fee stays hidden in its zero. */
  lemma {:induction false} FeeIsExcludedExactly(entries: Deltas, meta: TxMeta, feePayer: Pubkey, fee: u64)
    requires Reflects(entries, meta, feePayer, fee)
    ensures (forall k :: DeltaOf(entries, k) == FeelessTotal(meta, feePayer, fee, k))
            <==> fee == 0 || Moved(meta, (feePayer, SOL_MINT))
  {
    var payer := (feePayer, SOL_MINT);
    assert DeltaOf(entries, payer) == Total(meta, feePayer, fee, payer);
    if fee == 0 || Moved(meta, payer) {
      forall k ensures DeltaOf(entries, k) == FeelessTotal(meta, feePayer, fee, k) {
        assert DeltaOf(entries, k) == Total(meta, feePayer, fee, k);
      }
    }
  }

  /** A payer who was sent exactly the fee in lamports shows no SOL change, though the fee is not a swap leg. */
  lemma ExactRefundHidesFee(payer: Pubkey, balance: u64, fee: u64)
    ensures var meta := TxMeta(false, [], [], [balance], [balance], Some([payer]));
            Total(meta, payer, fee, (payer, SOL_MINT)) == 0 && FeelessTotal(meta, payer, fee, (payer, SOL_MINT)) == fee
  {
    var meta := TxMeta(false, [], [], [balance], [balance], Some([payer]));
    var key := (payer, SOL_MINT);
    HoldingOfEmpty(key, 256);
    TotalsArePlainSums(meta, key);
    assert LamportTotal(meta, [payer], key, 1) == 0;
    assert LamportTotal(meta, [payer], key, 0) == 0;
    assert forall idx: u8 :: TokenChange(map[], map[], idx, key) == 0;
  }
}
