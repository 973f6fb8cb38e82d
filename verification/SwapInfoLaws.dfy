/** What the two tiers report, read off the listed balances and transfers, and when they agree. */
module SwapInfoLaws {
  import opened Primitives
  import AccountKeys
  import opened SwapInfo

  // ---------------------------------------------------------------------------
  // Balances
  // ---------------------------------------------------------------------------

  /** The first listed balance of an account index, or none. */
  ghost predicate FirstListed(balances: seq<Balance>, idx: nat, found: Option<Balance>) {
    match found
    case None => forall k :: 0 <= k < |balances| ==> balances[k].accountIndex != idx
    case Some(b) =>
      b.accountIndex == idx
      && exists k :: 0 <= k < |balances| && balances[k] == b
                     && forall j :: 0 <= j < k ==> balances[j].accountIndex != idx
  }

  /** An account's balance before and after: the first ones listed under its first position among the static,
      then writable, then readonly keys; none when it is not a key of the transaction. */
  ghost predicate SnapshotsOf(balance: TxBalance, account: Pubkey, before: Option<Balance>, after: Option<Balance>) {
    var keys := balance.keys.staticKeys + balance.keys.dynamicRw + balance.keys.dynamicRo;
    if account !in keys then before == None && after == None else
      exists idx :: 0 <= idx < |keys| && keys[idx] == account && account !in keys[..idx]
                    && FirstListed(balance.pre, idx, before) && FirstListed(balance.post, idx, after)
  }

  lemma {:induction false} FindsFirstListed(balances: seq<Balance>, idx: nat, found: Option<Balance>)
    ensures FindBalance(balances, idx) == found <==> FirstListed(balances, idx, found)
  {
    if balances != [] && balances[0].accountIndex != idx {
      FindsFirstListed(balances[1..], idx, found);
      if FirstListed(balances[1..], idx, found) {
        assert forall k :: 0 < k < |balances| ==> balances[k] == balances[1..][k - 1];
        if found.Some? {
          var k :| 0 <= k < |balances[1..]| && balances[1..][k] == found.value
                   && forall j :: 0 <= j < k ==> balances[1..][j].accountIndex != idx;
          assert balances[k + 1] == found.value;
        }
      }
      if FirstListed(balances, idx, found) && found.Some? {
        var k :| 0 <= k < |balances| && balances[k] == found.value
                 && forall j :: 0 <= j < k ==> balances[j].accountIndex != idx;
        assert balances[1..][k - 1] == found.value;
      }
    }
  }

  /** Looking an account's balance up by key gives its snapshots and nothing else. */
  lemma {:induction false} SnapshotsExactly(balance: TxBalance, account: Pubkey, before: Option<Balance>,
                                            after: Option<Balance>)
    ensures FindTokenAccountBalance(balance, account) == TokenBalance(before, after)
            <==> SnapshotsOf(balance, account, before, after)
  {
    hide FindBalance, FirstListed;
    var idx := FindIndexForWallet(balance.keys.All(), account);
    if idx.Some? {
      FindsFirstListed(balance.pre, idx.value, before);
      FindsFirstListed(balance.post, idx.value, after);
    }
  }

  function AmountIn(snapshot: Option<Balance>): u64 {
    if snapshot.Some? then snapshot.value.amount else 0
  }

  /** The mint is the one named by the earlier snapshot, by the later one only when there is no earlier one. */
  ghost predicate NamesMint(before: Option<Balance>, after: Option<Balance>, mint: Pubkey) {
    (before.Some? && before.value.mint == Some(mint))
    || (before == None && after.Some? && after.value.mint == Some(mint))
  }

  /** The program is the one named by the earlier snapshot, by the later one whenever the earlier names none. */
  ghost predicate NamesProgram(before: Option<Balance>, after: Option<Balance>, program: Pubkey) {
    (before.Some? && before.value.programId == Some(program))
    || ((before.Some? ==> before.value.programId == None)
        && after.Some? && after.value.programId == Some(program))
  }

  lemma {:induction false} NamesExactly(found: TokenBalance)
    ensures forall m :: NamesMint(found.before, found.after, m) <==> found.Mint() == Some(m)
    ensures forall p :: NamesProgram(found.before, found.after, p) <==> found.TokenProgram() == Some(p)
    ensures found.Mint().Some? ==> found.before.Some? || found.after.Some?
    ensures found.Mint() == None <==> forall m :: !NamesMint(found.before, found.after, m)
    ensures found.TokenProgram() == None <==> forall p :: !NamesProgram(found.before, found.after, p)
  {
    assert found.Mint().Some? ==> NamesMint(found.before, found.after, found.Mint().value);
    assert found.TokenProgram().Some? ==> NamesProgram(found.before, found.after, found.TokenProgram().value);
  }

  /** The difference of two snapshots in each of the four cases: a missing one counts as zero, two missing ones are
      an error, and so is an amount of 2^63 or more; the subtraction itself never overflows. */
  lemma DifferenceExactly(pre: Balance, post: Balance)
    ensures TokenBalance(None, None).Difference() == Err(NoBalance)
    ensures TokenBalance(None, Some(post)).Difference()
            == if post.amount < TWO_63 then Ok(post.amount as int) else Err(I64Convert)
    ensures TokenBalance(Some(pre), None).Difference()
            == if pre.amount < TWO_63 then Ok(-(pre.amount as int)) else Err(I64Convert)
    ensures TokenBalance(Some(pre), Some(post)).Difference()
            == if pre.amount < TWO_63 && post.amount < TWO_63 then Ok(post.amount - pre.amount) else Err(I64Convert)
  {
  }

  // ---------------------------------------------------------------------------
  // The balance tier
  // ---------------------------------------------------------------------------

  /** What an account's snapshots make of it: a leg, or the first thing that is missing, in this order: mint,
      program, amounts that fit. */
  ghost predicate BalanceLeg(account: Pubkey, before: Option<Balance>, after: Option<Balance>,
                             leg: Result<TokenLeg, SwapInfoError>) {
    match leg
    case Ok(TokenLeg(mint, program, delta)) =>
      NamesMint(before, after, mint) && NamesProgram(before, after, program)
      && AmountIn(before) < TWO_63 && AmountIn(after) < TWO_63 && delta == AmountIn(after) - AmountIn(before)
    case Err(MissingMint(x)) => x == account && forall m :: !NamesMint(before, after, m)
    case Err(MissingTokenProgram(x)) =>
      x == account && (exists m :: NamesMint(before, after, m)) && forall p :: !NamesProgram(before, after, p)
    case Err(Other(e)) =>
      e == I64Convert && (exists m :: NamesMint(before, after, m)) && (exists p :: NamesProgram(before, after, p))
      && (AmountIn(before) >= TWO_63 || AmountIn(after) >= TWO_63)
    case Err(FailedHeuristic(_, _)) => false
  }

  lemma {:induction false} BalanceLegExactly(balance: TxBalance, account: Pubkey, before: Option<Balance>,
                                             after: Option<Balance>, leg: Result<TokenLeg, SwapInfoError>)
    requires SnapshotsOf(balance, account, before, after)
    ensures LegFromBalance(FindTokenAccountBalance(balance, account), account) == leg
            <==> BalanceLeg(account, before, after, leg)
  {
    hide FindTokenAccountBalance, SnapshotsOf, NamesMint, NamesProgram, TokenBalance.Mint, TokenBalance.TokenProgram;
    SnapshotsExactly(balance, account, before, after);
    NamesExactly(TokenBalance(before, after));
  }

  function Abs(n: int): nat {
    if n < 0 then -n else n
  }

  /** The whole balance tier, read off the listed balances. An account's error comes before everything else, that of
      `a` before that of `b`. Otherwise the input is the one account whose balance rose (pool) or fell (user); when
      both did, or neither, the tier says so; it reports the absolute changes and `a` to `b` exactly when the
      input's mint is that of `a`. */
  lemma {:induction false} BalanceTierExactly(balance: TxBalance, a: Pubkey, b: Pubkey, isPoolAccount: bool,
                                              beforeA: Option<Balance>, afterA: Option<Balance>,
                                              beforeB: Option<Balance>, afterB: Option<Balance>,
                                              legA: Result<TokenLeg, SwapInfoError>,
                                              legB: Result<TokenLeg, SwapInfoError>)
    requires SnapshotsOf(balance, a, beforeA, afterA) && SnapshotsOf(balance, b, beforeB, afterB)
    requires BalanceLeg(a, beforeA, afterA, legA) && BalanceLeg(b, beforeB, afterB, legB)
    ensures var r := FromBalanceDiff(balance, a, b, isPoolAccount);
            var da, db := AmountIn(afterA) - AmountIn(beforeA), AmountIn(afterB) - AmountIn(beforeB);
            var aPaid := if isPoolAccount then da > 0 else da < 0;
            var bPaid := if isPoolAccount then db > 0 else db < 0;
            if legA.Err? then r == Err(legA.error)
            else if legB.Err? then r == Err(legB.error)
            else if aPaid && bPaid then r == Err(FailedHeuristic(true, true))
            else if !aPaid && !bPaid then r == Err(FailedHeuristic(false, false))
            else
              var (x, y) := (legA.value, legB.value);
              r == Ok(if aPaid then
                        SwapInfo(x.mint, y.mint, Abs(da), Abs(db), x.tokenProgram, y.tokenProgram, true)
                      else
                        SwapInfo(y.mint, x.mint, Abs(db), Abs(da), y.tokenProgram, x.tokenProgram, y.mint == x.mint))
  {
    hide FindTokenAccountBalance, SnapshotsOf, LegFromBalance;
    BalanceLegExactly(balance, a, beforeA, afterA, legA);
    BalanceLegExactly(balance, b, beforeB, afterB, legB);
  }

  /** A leg is found exactly when a transfer matches, and it is a matching one that no other exceeds. */
  lemma {:induction false} FoundLegIsLargest(transfers: seq<TokenTransfer>, side: Side, accounts: set<Pubkey>)
    ensures FindLeg(transfers, side, accounts) == None
            <==> forall t :: t in transfers ==> side.AccountOf(t) !in accounts
    ensures var found := FindLeg(transfers, side, accounts);
            found.Some? ==> found.value in transfers && side.AccountOf(found.value) in accounts
    ensures var found := FindLeg(transfers, side, accounts);
            found.Some? ==>
              forall t :: t in transfers && side.AccountOf(t) in accounts ==> t.amount <= found.value.amount
    decreases |transfers|
  {
    if transfers != [] {
      var n := |transfers| - 1;
      FoundLegIsLargest(transfers[..n], side, accounts);
      assert transfers == transfers[..n] + [transfers[n]];
    }
  }

  /** Among equally large matching transfers the last one is found. */
  lemma {:induction false} FoundLegIsLastLargest(transfers: seq<TokenTransfer>, side: Side, accounts: set<Pubkey>)
    returns (i: nat)
    requires FindLeg(transfers, side, accounts).Some?
    ensures i < |transfers| && transfers[i] == FindLeg(transfers, side, accounts).value
    ensures forall k :: i < k < |transfers| && side.AccountOf(transfers[k]) in accounts ==>
              transfers[k].amount < transfers[i].amount
    decreases |transfers|
  {
    var n := |transfers| - 1;
    var best := FindLeg(transfers[..n], side, accounts);
    if side.AccountOf(transfers[n]) in accounts && (best == None || transfers[n].amount >= best.value.amount) {
      i := n;
    } else {
      i := FoundLegIsLastLargest(transfers[..n], side, accounts);
    }
  }

  // ---------------------------------------------------------------------------
  // The transfer tier
  // ---------------------------------------------------------------------------

  function EndOf(t: TokenTransfer, destination: bool): Pubkey {
    if destination then t.destinationAccount else t.sourceAccount
  }

  /** Transfer `i` is the last of the largest ones whose destination (or source) is among the accounts. */
  ghost predicate LastLargest(transfers: seq<TokenTransfer>, destination: bool, accounts: set<Pubkey>, i: nat) {
    i < |transfers| && EndOf(transfers[i], destination) in accounts
    && forall k :: 0 <= k < |transfers| && EndOf(transfers[k], destination) in accounts ==>
         transfers[k].amount < transfers[i].amount || (transfers[k].amount == transfers[i].amount && k <= i)
  }

  lemma {:induction false} FindsLastLargest(transfers: seq<TokenTransfer>, destination: bool, accounts: set<Pubkey>)
    returns (i: nat)
    ensures var found := FindLeg(transfers, if destination then Destination else Source, accounts);
            if found == None then
              forall k :: 0 <= k < |transfers| ==> EndOf(transfers[k], destination) !in accounts
            else LastLargest(transfers, destination, accounts, i) && transfers[i] == found.value
  {
    var side := if destination then Destination else Source;
    FoundLegIsLargest(transfers, side, accounts);
    i := 0;
    if FindLeg(transfers, side, accounts).Some? {
      i := FoundLegIsLastLargest(transfers, side, accounts);
    }
    assert forall k :: 0 <= k < |transfers| && EndOf(transfers[k], destination) in accounts ==>
        transfers[k] in transfers && side.AccountOf(transfers[k]) in accounts;
  }

  lemma {:induction false} LastLargestIsFound(transfers: seq<TokenTransfer>, destination: bool, accounts: set<Pubkey>,
                                              i: nat)
    requires LastLargest(transfers, destination, accounts, i)
    ensures FindLeg(transfers, if destination then Destination else Source, accounts) == Some(transfers[i])
  {
    var j := FindsLastLargest(transfers, destination, accounts);
    assert EndOf(transfers[i], destination) in accounts;
    assert i == j;
  }

  /** The account that a user's leg makes the counterpart. */
  function OtherOf(account: Pubkey, a: Pubkey, b: Pubkey): Pubkey {
    if account == a then b else a
  }

  /** Exactly when the transfer tier has no opinion: there are fewer than two transfers; none pays into a pool
      account (out of a user account) of the two; the last of the largest that do is not signed by the user; or none
      moves the other account on the other side. */
  lemma {:induction false} NoOpinionExactly(balance: TxBalance, transfers: seq<TokenTransfer>, a: Pubkey, b: Pubkey,
                                            user: Pubkey, isPoolAccount: bool)
    ensures FromTransfers(balance, transfers, a, b, user, isPoolAccount) == Ok(None)
            <==> |transfers| < 2
                 || (forall t :: t in transfers ==> EndOf(t, isPoolAccount) !in {a, b})
                 || exists i: nat :: LastLargest(transfers, isPoolAccount, {a, b}, i)
                                && (transfers[i].signer != user
                                    || forall t :: t in transfers ==>
                                         EndOf(t, !isPoolAccount) != OtherOf(EndOf(transfers[i], isPoolAccount), a, b))
  {
    hide FindLeg, ResolveLeg;
    var i := FindsLastLargest(transfers, isPoolAccount, {a, b});
    var paid := FindLeg(transfers, SideForUserLeg(isPoolAccount), {a, b});
    if paid == None {
      forall i: nat | LastLargest(transfers, isPoolAccount, {a, b}, i) ensures false {
        LastLargestIsFound(transfers, isPoolAccount, {a, b}, i);
      }
    } else {
      forall k: nat | LastLargest(transfers, isPoolAccount, {a, b}, k) ensures transfers[k] == paid.value {
        LastLargestIsFound(transfers, isPoolAccount, {a, b}, k);
      }
      assert paid.value in transfers && EndOf(paid.value, isPoolAccount) in {a, b} by {
        FoundLegIsLargest(transfers, SideForUserLeg(isPoolAccount), {a, b});
      }
      FoundLegIsLargest(transfers, SideForUserLeg(!isPoolAccount), {OtherOf(EndOf(paid.value, isPoolAccount), a, b)});
    }
  }

  /** What a transfer and its account's snapshots make of a leg: a mint named by the transfer wins, and amounts from
      2^63 on turn negative. */
  ghost predicate TransferLeg(t: TokenTransfer, account: Pubkey, before: Option<Balance>, after: Option<Balance>,
                              leg: Result<TokenLeg, SwapInfoError>) {
    match leg
    case Ok(TokenLeg(mint, program, delta)) =>
      (if t.mint.Some? then t.mint == Some(mint) else NamesMint(before, after, mint))
      && NamesProgram(before, after, program)
      && delta == if t.amount < TWO_63 then t.amount else t.amount - TWO_64
    case Err(MissingMint(x)) => x == account && t.mint == None && forall m :: !NamesMint(before, after, m)
    case Err(MissingTokenProgram(x)) =>
      x == account && (t.mint.Some? || exists m :: NamesMint(before, after, m))
      && forall p :: !NamesProgram(before, after, p)
    case Err(_) => false
  }

  lemma {:induction false} TransferLegExactly(balance: TxBalance, t: TokenTransfer, account: Pubkey,
                                              before: Option<Balance>, after: Option<Balance>,
                                              leg: Result<TokenLeg, SwapInfoError>)
    requires SnapshotsOf(balance, account, before, after)
    ensures ResolveLeg(balance, t.mint, account, t.amount) == leg <==> TransferLeg(t, account, before, after, leg)
  {
    hide FindTokenAccountBalance, SnapshotsOf, NamesMint, NamesProgram, TokenBalance.Mint, TokenBalance.TokenProgram;
    SnapshotsExactly(balance, account, before, after);
    NamesExactly(TokenBalance(before, after));
  }

  /** Everything else the transfer tier answers, read off the transfers and the listed balances: transfer `i` is the
      user's leg and `j` the counterpart's. The user's error comes first, then the counterpart's; otherwise the
      input is the user's leg, the output the counterpart's, and the direction is `a` to `b` exactly when the user's
      leg is on `a`. */
  lemma {:induction false} TransferTierExactly(balance: TxBalance, transfers: seq<TokenTransfer>, a: Pubkey, b: Pubkey,
                                               user: Pubkey, isPoolAccount: bool, i: nat, j: nat,
                                               before: Option<Balance>, after: Option<Balance>,
                                               before': Option<Balance>, after': Option<Balance>,
                                               paid: Result<TokenLeg, SwapInfoError>,
                                               received: Result<TokenLeg, SwapInfoError>)
    requires |transfers| >= 2 && LastLargest(transfers, isPoolAccount, {a, b}, i) && transfers[i].signer == user
    requires var account := EndOf(transfers[i], isPoolAccount);
             LastLargest(transfers, !isPoolAccount, {OtherOf(account, a, b)}, j)
             && SnapshotsOf(balance, account, before, after)
             && SnapshotsOf(balance, OtherOf(account, a, b), before', after')
             && TransferLeg(transfers[i], account, before, after, paid)
             && TransferLeg(transfers[j], OtherOf(account, a, b), before', after', received)
    ensures FromTransfers(balance, transfers, a, b, user, isPoolAccount)
            == if paid.Err? then Err(paid.error)
               else if received.Err? then Err(received.error)
               else
                 var sent, got := transfers[i].amount, transfers[j].amount;
                 Ok(Some(SwapInfo(paid.value.mint, received.value.mint,
                                  if sent <= TWO_63 then sent else TWO_64 - sent,
                                  if got <= TWO_63 then got else TWO_64 - got,
                                  paid.value.tokenProgram, received.value.tokenProgram,
                                  EndOf(transfers[i], isPoolAccount) == a)))
  {
    hide FindLeg, SnapshotsOf, FindTokenAccountBalance;
    var account := EndOf(transfers[i], isPoolAccount);
    LastLargestIsFound(transfers, isPoolAccount, {a, b}, i);
    LastLargestIsFound(transfers, !isPoolAccount, {OtherOf(account, a, b)}, j);
    TransferLegExactly(balance, transfers[i], account, before, after, paid);
    TransferLegExactly(balance, transfers[j], OtherOf(account, a, b), before', after', received);
  }

  /** The amount survives the trip through i64 exactly up to 2^63. */
  lemma CastKeepsAmount(amount: u64)
    ensures UnsignedAbs(AsI64(amount)) == amount <==> amount <= TWO_63
  {
  }

  /** One transfer moves the user's leg, one moves the counterpart's, and nothing else touches those ends. */
  ghost predicate CleanTransfers(transfers: seq<TokenTransfer>, isPoolAccount: bool, userAccount: Pubkey,
                                 counterpart: Pubkey, paid: TokenTransfer, received: TokenTransfer) {
    paid in transfers && received in transfers
    && EndOf(paid, isPoolAccount) == userAccount && EndOf(received, !isPoolAccount) == counterpart
    && (forall t :: t in transfers && EndOf(t, isPoolAccount) in {userAccount, counterpart} ==> t == paid)
    && (forall t :: t in transfers && EndOf(t, !isPoolAccount) == counterpart ==> t == received)
  }

  /** The account's snapshots name a mint and a program, and its balance changed by the transferred amount. */
  ghost predicate BalanceMatches(balance: TxBalance, account: Pubkey, t: TokenTransfer, gained: bool) {
    var TokenBalance(before, after) := FindTokenAccountBalance(balance, account);
    (exists m :: NamesMint(before, after, m) && (t.mint == None || t.mint == Some(m)))
    && (exists p :: NamesProgram(before, after, p))
    && AmountIn(before) < TWO_63 && AmountIn(after) < TWO_63
    && AmountIn(after) - AmountIn(before) == if gained then t.amount else -(t.amount as int)
  }

  function MintOf(balance: TxBalance, account: Pubkey): Option<Pubkey> {
    FindTokenAccountBalance(balance, account).Mint()
  }

  function ProgramOf(balance: TxBalance, account: Pubkey): Option<Pubkey> {
    FindTokenAccountBalance(balance, account).TokenProgram()
  }

  /** A clean swap: the user pays into one of two accounts, the other one pays out, and the balances match. */
  ghost predicate CleanSwap(balance: TxBalance, transfers: seq<TokenTransfer>, userAccount: Pubkey, counterpart: Pubkey,
                            user: Pubkey, isPoolAccount: bool, paid: TokenTransfer, received: TokenTransfer) {
    userAccount != counterpart && |transfers| >= 2 && paid.signer == user
    && CleanTransfers(transfers, isPoolAccount, userAccount, counterpart, paid, received)
    && BalanceMatches(balance, userAccount, paid, isPoolAccount)
    && BalanceMatches(balance, counterpart, received, !isPoolAccount)
  }

  /** What a clean swap was. */
  ghost predicate Describes(info: SwapInfo, balance: TxBalance, userAccount: Pubkey, counterpart: Pubkey,
                            paid: TokenTransfer, received: TokenTransfer) {
    var TokenBalance(before, after) := FindTokenAccountBalance(balance, userAccount);
    var TokenBalance(before', after') := FindTokenAccountBalance(balance, counterpart);
    NamesMint(before, after, info.inputMint) && NamesMint(before', after', info.outputMint)
    && info.inputAmount == paid.amount && info.outputAmount == received.amount
    && NamesProgram(before, after, info.inputTokenProgram) && NamesProgram(before', after', info.outputTokenProgram)
  }

  lemma {:induction false} TransfersFindCleanSwap(balance: TxBalance, transfers: seq<TokenTransfer>, a: Pubkey,
                                                  b: Pubkey, user: Pubkey, isPoolAccount: bool,
                                                  paid: TokenTransfer, received: TokenTransfer, userIsA: bool)
    requires CleanSwap(balance, transfers, if userIsA then a else b, if userIsA then b else a, user, isPoolAccount,
                       paid, received)
    ensures var r := FromTransfers(balance, transfers, a, b, user, isPoolAccount);
            r.Ok? && r.value.Some? && r.value.value.aToB == userIsA
            && Describes(r.value.value, balance, if userIsA then a else b, if userIsA then b else a, paid, received)
  {
    hide FindLeg, FindTokenAccountBalance, NamesMint, NamesProgram, TokenBalance.Mint, TokenBalance.TokenProgram;
    NamesExactly(FindTokenAccountBalance(balance, a));
    NamesExactly(FindTokenAccountBalance(balance, b));
    var ca := if userIsA then b else a;
    var side := SideForUserLeg(isPoolAccount);
    FoundLegIsLargest(transfers, side, {a, b});
    FoundLegIsLargest(transfers, side.Opposite(), {ca});
    assert FindLeg(transfers, side, {a, b}) == Some(paid);
    assert FindLeg(transfers, side.Opposite(), {ca}) == Some(received);
    CastKeepsAmount(paid.amount);
    CastKeepsAmount(received.amount);
  }

  lemma {:induction false} DiffFindsCleanSwap(balance: TxBalance, transfers: seq<TokenTransfer>, a: Pubkey, b: Pubkey,
                                              user: Pubkey, isPoolAccount: bool,
                                              paid: TokenTransfer, received: TokenTransfer, userIsA: bool)
    requires CleanSwap(balance, transfers, if userIsA then a else b, if userIsA then b else a, user, isPoolAccount,
                       paid, received)
    ensures var r := FromBalanceDiff(balance, a, b, isPoolAccount);
            if paid.amount == 0 then r == Err(FailedHeuristic(false, false)) else
              r.Ok? && r.value.aToB == (userIsA || MintOf(balance, a) == MintOf(balance, b))
              && Describes(r.value, balance, if userIsA then a else b, if userIsA then b else a, paid, received)
  {
    hide FindTokenAccountBalance, CleanTransfers, NamesMint, NamesProgram, TokenBalance.Mint, TokenBalance.TokenProgram;
    NamesExactly(FindTokenAccountBalance(balance, a));
    NamesExactly(FindTokenAccountBalance(balance, b));
  }

  /** On a clean swap the transfer tier always succeeds, and the balance tier does exactly when the user paid
      something. Then they report the same mints, amounts and programs, and they are equal, direction included,
      exactly when the two accounts hold different mints or the user's leg is account `a`. */
  lemma {:induction false} TiersAgree(balance: TxBalance, transfers: seq<TokenTransfer>, a: Pubkey, b: Pubkey,
                                      user: Pubkey, isPoolAccount: bool,
                                      paid: TokenTransfer, received: TokenTransfer, userIsA: bool)
    requires CleanSwap(balance, transfers, if userIsA then a else b, if userIsA then b else a, user, isPoolAccount,
                       paid, received)
    ensures var byTransfers := FromTransfers(balance, transfers, a, b, user, isPoolAccount);
            var byDiff := FromBalanceDiff(balance, a, b, isPoolAccount);
            byTransfers.Ok? && byTransfers.value.Some?
            && (byDiff.Ok? <==> paid.amount > 0)
            && (byDiff.Ok? ==>
                  byDiff.value.(aToB := userIsA) == byTransfers.value.value
                  && Describes(byDiff.value, balance, if userIsA then a else b, if userIsA then b else a,
                               paid, received))
            && (byDiff == Ok(byTransfers.value.value)
                <==> paid.amount > 0 && (MintOf(balance, a) != MintOf(balance, b) || userIsA))
  {
    hide FromTransfers, FromBalanceDiff, MintOf, ProgramOf;
    TransfersFindCleanSwap(balance, transfers, a, b, user, isPoolAccount, paid, received, userIsA);
    DiffFindsCleanSwap(balance, transfers, a, b, user, isPoolAccount, paid, received, userIsA);
  }

  /** A transaction with two token accounts, each in both snapshots. */
  lemma {:induction false} TwoAccounts(a: Pubkey, b: Pubkey, preA: Balance, preB: Balance,
                                       postA: Balance, postB: Balance)
    requires preA.accountIndex == postA.accountIndex == 0 && preB.accountIndex == postB.accountIndex == 1
    ensures var balance := TxBalance(AccountKeys.AccountKeys([a, b], [], []), [preA, preB], [postA, postB]);
            FindTokenAccountBalance(balance, a) == TokenBalance(Some(preA), Some(postA))
            && (a != b ==> FindTokenAccountBalance(balance, b) == TokenBalance(Some(preB), Some(postB)))
  {
    assert AccountKeys.AccountKeys([a, b], [], []).All() == [a, b] && [a, b][1..] == [b];
    assert [preA, preB][1..] == [preB] && [postA, postB][1..] == [postB];
  }

  /** A clean swap on which only the transfer tier succeeds: the user pays nothing into `b` and gets 7 out of `a`. */
  lemma {:induction false} ZeroPaymentIsRefused(a: Pubkey, b: Pubkey, mintA: Pubkey, mintB: Pubkey, program: Pubkey,
                                                user: Pubkey, wallet: Pubkey)
    requires a != b && wallet != a && wallet != b
    ensures var balance := TxBalance(AccountKeys.AccountKeys([a, b], [], []),
                                     [Balance(0, Some(mintA), Some(program), 9),
                                      Balance(1, Some(mintB), Some(program), 5)],
                                     [Balance(0, Some(mintA), Some(program), 2),
                                      Balance(1, Some(mintB), Some(program), 5)]);
            var paid := TokenTransfer(wallet, Some(mintB), b, user, 0, false);
            var received := TokenTransfer(a, Some(mintA), wallet, user, 7, false);
            CleanSwap(balance, [paid, received], b, a, user, true, paid, received)
            && FromTransfers(balance, [paid, received], a, b, user, true)
               == Ok(Some(SwapInfo(mintB, mintA, 0, 7, program, program, false)))
            && FromBalanceDiff(balance, a, b, true) == Err(FailedHeuristic(false, false))
  {
    hide FindTokenAccountBalance, FindIndexForWallet, FindBalance, FindLeg;
    var preA, preB := Balance(0, Some(mintA), Some(program), 9), Balance(1, Some(mintB), Some(program), 5);
    var postA, postB := Balance(0, Some(mintA), Some(program), 2), Balance(1, Some(mintB), Some(program), 5);
    var balance := TxBalance(AccountKeys.AccountKeys([a, b], [], []), [preA, preB], [postA, postB]);
    var paid := TokenTransfer(wallet, Some(mintB), b, user, 0, false);
    var received := TokenTransfer(a, Some(mintA), wallet, user, 7, false);
    TwoAccounts(a, b, preA, preB, postA, postB);
    assert NamesMint(Some(preA), Some(postA), mintA) && NamesProgram(Some(preA), Some(postA), program);
    assert NamesMint(Some(preB), Some(postB), mintB) && NamesProgram(Some(preB), Some(postB), program);
    TransfersFindCleanSwap(balance, [paid, received], a, b, user, true, paid, received, false);
    DiffFindsCleanSwap(balance, [paid, received], a, b, user, true, paid, received, false);
  }

  /** A clean swap between two vaults of one mint on which the tiers disagree about the direction: the user pays 5
      into `b` and gets 7 out of `a`. */
  lemma {:induction false} EqualMintsDisagree(a: Pubkey, b: Pubkey, mint: Pubkey, program: Pubkey, user: Pubkey,
                                              wallet: Pubkey)
    requires a != b && wallet != a && wallet != b
    ensures var balance := TxBalance(AccountKeys.AccountKeys([a, b], [], []),
                                     [Balance(0, Some(mint), Some(program), 9),
                                      Balance(1, Some(mint), Some(program), 0)],
                                     [Balance(0, Some(mint), Some(program), 2),
                                      Balance(1, Some(mint), Some(program), 5)]);
            var paid := TokenTransfer(wallet, Some(mint), b, user, 5, false);
            var received := TokenTransfer(a, Some(mint), wallet, user, 7, false);
            CleanSwap(balance, [paid, received], b, a, user, true, paid, received)
            && FromTransfers(balance, [paid, received], a, b, user, true)
               == Ok(Some(SwapInfo(mint, mint, 5, 7, program, program, false)))
            && FromBalanceDiff(balance, a, b, true) == Ok(SwapInfo(mint, mint, 5, 7, program, program, true))
  {
    var keys := AccountKeys.AccountKeys([a, b], [], []);
    var pre := [Balance(0, Some(mint), Some(program), 9), Balance(1, Some(mint), Some(program), 0)];
    var post := [Balance(0, Some(mint), Some(program), 2), Balance(1, Some(mint), Some(program), 5)];
    var balance := TxBalance(keys, pre, post);
    var paid := TokenTransfer(wallet, Some(mint), b, user, 5, false);
    var received := TokenTransfer(a, Some(mint), wallet, user, 7, false);
    hide FindTokenAccountBalance, FindIndexForWallet, FindBalance, FindLeg;
    TwoAccounts(a, b, pre[0], pre[1], post[0], post[1]);
    assert NamesMint(Some(pre[0]), Some(post[0]), mint) && NamesProgram(Some(pre[0]), Some(post[0]), program);
    assert NamesMint(Some(pre[1]), Some(post[1]), mint) && NamesProgram(Some(pre[1]), Some(post[1]), program);
    TiersAgree(balance, [paid, received], a, b, user, true, paid, received, false);
  }

  /** Exactly when the balance differences are ambiguous: both accounts moved the same way, or one stood still
      while the other did not move the way an input does. */
  lemma {:induction false} HeuristicFailsExactly(balance: TxBalance, a: Pubkey, b: Pubkey, isPoolAccount: bool)
    requires LegFromBalance(FindTokenAccountBalance(balance, a), a).Ok?
             && LegFromBalance(FindTokenAccountBalance(balance, b), b).Ok?
    ensures var foundA, foundB := FindTokenAccountBalance(balance, a), FindTokenAccountBalance(balance, b);
            var da := AmountIn(foundA.after) - AmountIn(foundA.before);
            var db := AmountIn(foundB.after) - AmountIn(foundB.before);
            FromBalanceDiff(balance, a, b, isPoolAccount).Err?
            <==> (da > 0 && db > 0) || (da < 0 && db < 0)
                 || (da == 0 && (if isPoolAccount then db <= 0 else db >= 0))
                 || (db == 0 && (if isPoolAccount then da <= 0 else da >= 0))
  {
    hide FindTokenAccountBalance;
  }

  /** So one pool vault paying out while the other stands still is already refused. */
  lemma OneStillVaultIsAmbiguous(a: Pubkey, b: Pubkey, mint: Pubkey, program: Pubkey, amount: u64)
    requires 0 < amount < TWO_63
    ensures var keys := AccountKeys.AccountKeys([a, b], [], []);
            var still := Balance(1, Some(mint), Some(program), amount);
            var balance := TxBalance(keys, [Balance(0, Some(mint), Some(program), amount), still],
                                     [Balance(0, Some(mint), Some(program), 0), still]);
            FromBalanceDiff(balance, a, b, true) == Err(FailedHeuristic(false, false))
  {
    hide FindTokenAccountBalance, FindIndexForWallet, FindBalance;
    var still := Balance(1, Some(mint), Some(program), amount);
    TwoAccounts(a, b, Balance(0, Some(mint), Some(program), amount), still,
                Balance(0, Some(mint), Some(program), 0), still);
  }

  function Flipped(r: Result<Option<SwapInfo>, SwapInfoError>): Result<Option<SwapInfo>, SwapInfoError> {
    if r.Ok? && r.value.Some? then Ok(Some(r.value.value.(aToB := !r.value.value.aToB))) else r
  }

  /** Naming the two accounts the other way round flips the direction and changes nothing else, on every input. */
  lemma ExchangingAccountsFlips(balance: TxBalance, transfers: seq<TokenTransfer>, a: Pubkey, b: Pubkey, user: Pubkey,
                                isPoolAccount: bool)
    requires a != b
    ensures FromTransfers(balance, transfers, b, a, user, isPoolAccount)
            == Flipped(FromTransfers(balance, transfers, a, b, user, isPoolAccount))
  {
    assert {a, b} == {b, a};
    FoundLegIsLargest(transfers, SideForUserLeg(isPoolAccount), {a, b});
  }

  /** For balance differences the direction flips exactly when the mints differ; with equal mints it always reads
      a to b. */
  lemma ExchangingAccountsInDiff(balance: TxBalance, a: Pubkey, b: Pubkey, isPoolAccount: bool)
    requires FromBalanceDiff(balance, a, b, isPoolAccount).Ok?
    ensures var info := FromBalanceDiff(balance, a, b, isPoolAccount).value;
            FromBalanceDiff(balance, b, a, isPoolAccount)
            == Ok(info.(aToB := if MintOf(balance, a) == MintOf(balance, b) then true else !info.aToB))
  {
  }

  /** The transfer tier reads no balance amounts: snapshots that name the same mints and programs give the same
      answer, including where the balance differences are ambiguous. */
  lemma TransfersIgnoreAmounts(balance: TxBalance, other: TxBalance, transfers: seq<TokenTransfer>, a: Pubkey,
                               b: Pubkey, user: Pubkey, isPoolAccount: bool)
    requires forall key :: key in {a, b} ==>
               var found, found' := FindTokenAccountBalance(balance, key), FindTokenAccountBalance(other, key);
               found.Mint() == found'.Mint() && found.TokenProgram() == found'.TokenProgram()
    ensures FromTransfers(balance, transfers, a, b, user, isPoolAccount)
            == FromTransfers(other, transfers, a, b, user, isPoolAccount)
  {
    hide FindLeg, FindTokenAccountBalance, FindBalance, FindIndexForWallet;
    FoundLegIsLargest(transfers, SideForUserLeg(isPoolAccount), {a, b});
  }
}
