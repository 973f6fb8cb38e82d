/** Identifying a swap's two legs, from balance changes or from token transfers
    (graced/src/parse/util.rs, graced/src/util/balances.rs). */
module SwapInfo {
  import opened Primitives
  import AccountKeys

  // ---------------------------------------------------------------------------
  // Balances
  // ---------------------------------------------------------------------------

  /** A token account's balance; `mint` and `programId` are None when their text is not a public key. */
  datatype Balance = Balance(accountIndex: u8, mint: Option<Pubkey>, programId: Option<Pubkey>, amount: u64)

  datatype TxBalance = TxBalance(keys: AccountKeys.AccountKeys, pre: seq<Balance>, post: seq<Balance>)

  datatype BalanceError = NoBalance | Overflow | I64Convert

  /** `find_index_for_wallet`: the first position of the key. */
  function FindIndexForWallet(keys: seq<Pubkey>, key: Pubkey): (r: Option<nat>)
    ensures r == None <==> key !in keys
    ensures r.Some? ==> r.value < |keys| && keys[r.value] == key && key !in keys[..r.value]
  {
    if keys == [] then None
    else if keys[0] == key then Some(0)
    else
      var rest := FindIndexForWallet(keys[1..], key);
      assert rest.Some? ==> keys[..rest.value + 1] == [keys[0]] + keys[1..][..rest.value];
      if rest.Some? then Some(rest.value + 1) else None
  }

  /** The first balance listed for the account index. */
  function FindBalance(balances: seq<Balance>, idx: nat): (r: Option<Balance>)
    ensures r.Some? ==> r.value in balances && r.value.accountIndex == idx
    ensures r == None ==> forall b :: b in balances ==> b.accountIndex != idx
  {
    if balances == [] then None
    else if balances[0].accountIndex == idx then Some(balances[0])
    else FindBalance(balances[1..], idx)
  }

  datatype TokenBalance = TokenBalance(before: Option<Balance>, after: Option<Balance>) {
    /** `TokenBalance::difference`. */
    function Difference(): Result<int, BalanceError> {
      var pre := if before.Some? then before.value.amount else 0;
      var post := if after.Some? then after.value.amount else 0;
      if before == None && after == None then Err(NoBalance)
      else if pre >= TWO_63 || post >= TWO_63 then Err(I64Convert)
      else if post - pre < -TWO_63 || post - pre >= TWO_63 then Err(Overflow)
      else Ok(post - pre)
    }

    /** The earlier snapshot decides, even when its mint does not parse. */
    function Mint(): Option<Pubkey> {
      if before.Some? then before.value.mint else if after.Some? then after.value.mint else None
    }

    function TokenProgram(): Option<Pubkey> {
      if before.Some? && before.value.programId.Some? then before.value.programId
      else if after.Some? then after.value.programId
      else None
    }
  }

  /** `find_token_account_balance` by key. */
  function FindTokenAccountBalance(balance: TxBalance, key: Pubkey): TokenBalance {
    var idx := FindIndexForWallet(balance.keys.All(), key);
    if idx == None then TokenBalance(None, None)
    else TokenBalance(FindBalance(balance.pre, idx.value), FindBalance(balance.post, idx.value))
  }

  // ---------------------------------------------------------------------------
  // Swap info
  // ---------------------------------------------------------------------------

  datatype SwapInfo = SwapInfo(inputMint: Pubkey, outputMint: Pubkey, inputAmount: u64, outputAmount: u64,
                               inputTokenProgram: Pubkey, outputTokenProgram: Pubkey, aToB: bool)

  datatype SwapInfoError =
    | FailedHeuristic(aIsInput: bool, bIsInput: bool)
    | MissingMint(account: Pubkey)
    | MissingTokenProgram(account: Pubkey)
    | Other(error: BalanceError)

  type i64 = n: int | -TWO_63 <= n < TWO_63

  datatype TokenLeg = TokenLeg(mint: Pubkey, tokenProgram: Pubkey, delta: i64)

  /** `u64 as i64`, which reinterprets the top half as negative. */
  function AsI64(amount: u64): i64 {
    if amount < TWO_63 then amount else amount - TWO_64
  }

  function UnsignedAbs(n: i64): u64 {
    var magnitude: int := n;
    if magnitude < 0 then -magnitude else magnitude
  }

  function LegFromBalance(balance: TokenBalance, account: Pubkey): Result<TokenLeg, SwapInfoError> {
    if balance.Mint() == None then Err(MissingMint(account))
    else if balance.TokenProgram() == None then Err(MissingTokenProgram(account))
    else if balance.Difference().Err? then Err(Other(balance.Difference().error))
    else Ok(TokenLeg(balance.Mint().value, balance.TokenProgram().value, balance.Difference().value))
  }

  /** Pools gain the input; users lose it. */
  predicate IsInput(leg: TokenLeg, isPoolAccount: bool) {
    if isPoolAccount then leg.delta > 0 else leg.delta < 0
  }

  /** `get_swap_info_from_balance_diff`. */
  function FromBalanceDiff(balance: TxBalance, a: Pubkey, b: Pubkey,
                           isPoolAccount: bool): Result<SwapInfo, SwapInfoError> {
    var legA := LegFromBalance(FindTokenAccountBalance(balance, a), a);
    var legB := LegFromBalance(FindTokenAccountBalance(balance, b), b);
    if legA.Err? then Err(legA.error)
    else if legB.Err? then Err(legB.error)
    else
      var aIsInput, bIsInput := IsInput(legA.value, isPoolAccount), IsInput(legB.value, isPoolAccount);
      if aIsInput == bIsInput then Err(FailedHeuristic(aIsInput, bIsInput)) else
        var (input, output) := if aIsInput then (legA.value, legB.value) else (legB.value, legA.value);
        Ok(SwapInfo(input.mint, output.mint, UnsignedAbs(input.delta), UnsignedAbs(output.delta),
                    input.tokenProgram, output.tokenProgram, input.mint == legA.value.mint))
  }

  datatype Side = Source | Destination {
    function AccountOf(t: TokenTransfer): Pubkey {
      if Source? then t.sourceAccount else t.destinationAccount
    }

    function Opposite(): Side {
      if Source? then Destination else Source
    }
  }

  function SideForUserLeg(isPoolAccount: bool): Side {
    if isPoolAccount then Destination else Source
  }

  /** `find_leg`: among matching transfers the one with the largest amount, the last of them on a tie. */
  function FindLeg(transfers: seq<TokenTransfer>, side: Side, accounts: set<Pubkey>): Option<TokenTransfer> {
    if transfers == [] then None else
      var last := transfers[|transfers| - 1];
      var best := FindLeg(transfers[..|transfers| - 1], side, accounts);
      if side.AccountOf(last) in accounts && (best == None || last.amount >= best.value.amount)
      then Some(last) else best
  }

  function ResolveLeg(balance: TxBalance, transferMint: Option<Pubkey>, account: Pubkey,
                      amount: u64): Result<TokenLeg, SwapInfoError> {
    var found := FindTokenAccountBalance(balance, account);
    var mint := if transferMint.Some? then transferMint else found.Mint();
    if mint == None then Err(MissingMint(account))
    else if found.TokenProgram() == None then Err(MissingTokenProgram(account))
    else Ok(TokenLeg(mint.value, found.TokenProgram().value, AsI64(amount)))
  }

  /** `get_swap_info_from_token_transfers`. */
  function FromTransfers(balance: TxBalance, transfers: seq<TokenTransfer>, a: Pubkey, b: Pubkey, user: Pubkey,
                         isPoolAccount: bool): Result<Option<SwapInfo>, SwapInfoError> {
    if |transfers| < 2 then Ok(None) else
      var userSide := SideForUserLeg(isPoolAccount);
      var userTransfer := FindLeg(transfers, userSide, {a, b});
      if userTransfer == None || userTransfer.value.signer != user then Ok(None) else
        var userAccount := userSide.AccountOf(userTransfer.value);
        var aToB := userAccount == a;
        var poolAccount := if aToB then b else a;
        var poolTransfer := FindLeg(transfers, userSide.Opposite(), {poolAccount});
        if poolTransfer == None then Ok(None) else
          var input := ResolveLeg(balance, userTransfer.value.mint, userAccount, userTransfer.value.amount);
          var output := ResolveLeg(balance, poolTransfer.value.mint, poolAccount, poolTransfer.value.amount);
          if input.Err? then Err(input.error)
          else if output.Err? then Err(output.error)
          else Ok(Some(SwapInfo(input.value.mint, output.value.mint,
                                UnsignedAbs(input.value.delta), UnsignedAbs(output.value.delta),
                                input.value.tokenProgram, output.value.tokenProgram, aToB)))
  }
}
