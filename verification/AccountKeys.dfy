/** The key table of a transaction and the cursor over one instruction's accounts
    (graced/src/transaction/keys.rs, graced/src/util/accounts.rs). */
module AccountKeys {
  import opened Primitives

  datatype KeyError =
    | InvalidProgramIdIndex(index: u8, tableLen: nat)
    | AccountsExhausted(declared: nat)
    | AccountIndexOutOfRange(tableIndex: nat, tableLen: nat)

  function At(keys: seq<Pubkey>, i: nat): Option<Pubkey> {
    if i < |keys| then Some(keys[i]) else None
  }

  /** Static keys, then loaded writable keys, then loaded readonly keys. */
  datatype AccountKeys = AccountKeys(staticKeys: seq<Pubkey>, dynamicRw: seq<Pubkey>, dynamicRo: seq<Pubkey>) {
    /** The order in which compiled instructions index the keys. */
    function All(): seq<Pubkey> {
      staticKeys + dynamicRw + dynamicRo
    }

    /** `AccountKeys::get`: try each segment with what is left of the index. */
    method Get(idx: nat) returns (key: Option<Pubkey>)
      ensures key == At(All(), idx)
      ensures idx < |staticKeys| ==> key == Some(staticKeys[idx])
      ensures |staticKeys| <= idx < |staticKeys| + |dynamicRw| ==> key == Some(dynamicRw[idx - |staticKeys|])
      ensures |staticKeys| + |dynamicRw| <= idx < |staticKeys| + |dynamicRw| + |dynamicRo| ==>
                key == Some(dynamicRo[idx - |staticKeys| - |dynamicRw|])
      ensures idx >= |staticKeys| + |dynamicRw| + |dynamicRo| ==> key == None
    {
      var segments := [staticKeys, dynamicRw, dynamicRo];
      var i: nat := idx;
      for k := 0 to 3
        invariant k == 0 ==> i == idx
        invariant k == 1 ==> idx == |staticKeys| + i
        invariant k == 2 ==> idx == |staticKeys| + |dynamicRw| + i
        invariant k == 3 ==> idx == |staticKeys| + |dynamicRw| + |dynamicRo| + i
      {
        if i < |segments[k]| {
          return Some(segments[k][i]);
        }
        i := i - |segments[k]|;
      }
      return None;
    }

    /** `AccountKeys::len`. */
    method Len() returns (len: nat)
      ensures len == |All()| == |staticKeys| + |dynamicRw| + |dynamicRo|
    {
      len := 0;
      var segments := [staticKeys, dynamicRw, dynamicRo];
      for k := 0 to 3
        invariant k == 0 ==> len == 0
        invariant k == 1 ==> len == |staticKeys|
        invariant k == 2 ==> len == |staticKeys| + |dynamicRw|
        invariant k == 3 ==> len == |All()|
      {
        len := len + |segments[k]|;
      }
    }
  }

  /** The account in slot `pos` of an instruction, or the error that reading it gives. */
  function Address(table: seq<Pubkey>, indices: seq<u8>, pos: nat): Result<Pubkey, KeyError> {
    if pos >= |indices| then Err(AccountsExhausted(|indices|))
    else if indices[pos] >= |table| then Err(AccountIndexOutOfRange(indices[pos], |table|))
    else Ok(table[indices[pos]])
  }

  /** What slot `pos` reads: the key in the segment that its index falls into, an index past all three segments as
      an error with the size of the table, and a slot past the end as an error with the number of slots. */
  lemma AddressExactly(keys: AccountKeys, indices: seq<u8>, pos: nat)
    ensures var r := Address(keys.All(), indices, pos);
            var rw, ro := |keys.staticKeys|, |keys.staticKeys| + |keys.dynamicRw|;
            var len := ro + |keys.dynamicRo|;
            if pos >= |indices| then r == Err(AccountsExhausted(|indices|))
            else if indices[pos] < rw then r == Ok(keys.staticKeys[indices[pos]])
            else if indices[pos] < ro then r == Ok(keys.dynamicRw[indices[pos] - rw])
            else if indices[pos] < len then r == Ok(keys.dynamicRo[indices[pos] - ro])
            else r == Err(AccountIndexOutOfRange(indices[pos], len))
  {
  }

  /** Where one read leaves the cursor. */
  function Advance(len: nat, cursor: nat): nat {
    if cursor < len then cursor + 1 else cursor
  }

  function AdvanceBy(len: nat, cursor: nat, count: nat): nat
    decreases count
  {
    if count == 0 then cursor else AdvanceBy(len, Advance(len, cursor), count - 1)
  }

  /** The first unread slot whose index is out of range, or the end. */
  function FirstBad(table: seq<Pubkey>, indices: seq<u8>, pos: nat): (bad: nat)
    requires pos <= |indices|
    ensures pos <= bad <= |indices|
    ensures forall k :: pos <= k < bad ==> indices[k] < |table|
    ensures bad < |indices| ==> indices[bad] >= |table|
    decreases |indices| - pos
  {
    if pos == |indices| || indices[pos] >= |table| then pos else FirstBad(table, indices, pos + 1)
  }

  class InstructionAccounts {
    const keys: AccountKeys
    const indices: seq<u8>
    var cursor: nat
    const programId: Pubkey

    ghost predicate Valid()
      reads this
    {
      cursor <= |indices|
    }

    constructor (keys: AccountKeys, indices: seq<u8>, programId: Pubkey)
      ensures Valid() && this.keys == keys && this.indices == indices && this.programId == programId && cursor == 0
    {
      this.keys, this.indices, this.programId, cursor := keys, indices, programId, 0;
    }

    /** `InstructionAccounts::new`. */
    static method New(keys: AccountKeys, indices: seq<u8>, programIdIdx: u8)
      returns (r: Result<InstructionAccounts, KeyError>)
      ensures r.Err? ==> programIdIdx >= |keys.All()| && r.error == InvalidProgramIdIndex(programIdIdx, |keys.All()|)
      ensures r.Ok? ==> fresh(r.value) && r.value.Valid() && r.value.cursor == 0
      ensures r.Ok? ==> r.value.keys == keys && r.value.indices == indices
      ensures r.Ok? ==> At(keys.All(), programIdIdx) == Some(r.value.programId)
    {
      var programId := keys.Get(programIdIdx);
      if programId == None {
        var len := keys.Len();
        return Err(InvalidProgramIdIndex(programIdIdx, len));
      }
      var accounts := new InstructionAccounts(keys, indices, programId.value);
      return Ok(accounts);
    }

    /** `Iterator::next`: None at the end, otherwise the next account or its error; the cursor moves past it. */
    method Next() returns (r: Option<Result<Pubkey, KeyError>>)
      requires Valid()
      modifies this`cursor
      ensures Valid() && cursor == Advance(|indices|, old(cursor))
      ensures r == if old(cursor) < |indices| then Some(Address(keys.All(), indices, old(cursor))) else None
    {
      if cursor >= |indices| {
        return None;
      }
      var tableIdx := indices[cursor];
      cursor := cursor + 1;
      var key := keys.Get(tableIdx);
      match key {
        case Some(pubkey) => return Some(Ok(pubkey));
        case None =>
          var len := keys.Len();
          return Some(Err(AccountIndexOutOfRange(tableIdx, len)));
      }
    }

    method NextAddress() returns (r: Result<Pubkey, KeyError>)
      requires Valid()
      modifies this`cursor
      ensures Valid() && cursor == Advance(|indices|, old(cursor))
      ensures r == Address(keys.All(), indices, old(cursor))
    {
      var next := Next();
      r := if next.Some? then next.value else Err(AccountsExhausted(|indices|));
    }

    /** The program's own id stands for an omitted account. */
    method NextOptionalAccount() returns (r: Result<Option<Pubkey>, KeyError>)
      requires Valid()
      modifies this`cursor
      ensures Valid() && cursor == Advance(|indices|, old(cursor))
      ensures r == match Address(keys.All(), indices, old(cursor))
                   case Err(e) => Err(e)
                   case Ok(key) => Ok(if key == programId then None else Some(key))
    {
      var account := NextAddress();
      if account.Err? {
        return Err(account.error);
      }
      return Ok(if account.value != programId then Some(account.value) else None);
    }

    /** Every unread account in order, or the first error, with the cursor just past the slot that gave it. */
    method RemainingAccounts() returns (r: Result<seq<Pubkey>, KeyError>)
      requires Valid()
      modifies this`cursor
      ensures Valid()
      ensures var bad := FirstBad(keys.All(), indices, old(cursor));
              if bad == |indices| then
                r.Ok? && cursor == |indices| && |r.value| == |indices| - old(cursor)
                && forall k :: 0 <= k < |r.value| ==> r.value[k] == keys.All()[indices[old(cursor) + k]]
              else
                r == Err(AccountIndexOutOfRange(indices[bad], |keys.All()|)) && cursor == bad + 1
    {
      var accounts: seq<Pubkey> := [];
      while cursor < |indices|
        invariant Valid() && old(cursor) <= cursor && |accounts| == cursor - old(cursor)
        invariant FirstBad(keys.All(), indices, cursor) == FirstBad(keys.All(), indices, old(cursor))
        invariant forall k :: 0 <= k < |accounts| ==>
                    indices[old(cursor) + k] < |keys.All()| && accounts[k] == keys.All()[indices[old(cursor) + k]]
        decreases |indices| - cursor
      {
        var next := Next();
        if next.value.Err? {
          return Err(next.value.error);
        }
        accounts := accounts + [next.value.value];
      }
      return Ok(accounts);
    }

    method Peek(offset: nat) returns (r: Result<Pubkey, KeyError>)
      ensures r == Address(keys.All(), indices, cursor + offset)
    {
      if cursor + offset >= |indices| {
        return Err(AccountsExhausted(|indices|));
      }
      var tableIdx := indices[cursor + offset];
      var key := keys.Get(tableIdx);
      if key == None {
        var len := keys.Len();
        return Err(AccountIndexOutOfRange(tableIdx, len));
      }
      return Ok(key.value);
    }

    /** The least number of reads that takes the cursor to the end. */
    method RemainingLen() returns (n: nat)
      requires Valid()
      ensures AdvanceBy(|indices|, cursor, n) == |indices|
      ensures forall k: nat :: k < n ==> AdvanceBy(|indices|, cursor, k) < |indices|
    {
      n := |indices| - cursor;
      forall k: nat | k <= n ensures AdvanceBy(|indices|, cursor, k) == cursor + k {
        PeekPredictsRead(keys.All(), indices, cursor, k);
      }
    }
  }

  /** Peeking `offset` ahead gives exactly the key or error that the read after `offset` reads gives,
      and no number of reads takes the cursor past the end. */
  lemma {:induction false} PeekPredictsRead(table: seq<Pubkey>, indices: seq<u8>, cursor: nat, offset: nat)
    requires cursor <= |indices|
    ensures Address(table, indices, cursor + offset) == Address(table, indices, AdvanceBy(|indices|, cursor, offset))
    ensures AdvanceBy(|indices|, cursor, offset) == Min(cursor + offset, |indices|)
    decreases offset
  {
    if offset > 0 {
      PeekPredictsRead(table, indices, Advance(|indices|, cursor), offset - 1);
    }
  }
}
