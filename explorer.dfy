/** The default methods of the `BlockchainExplorer` trait: block lookup by
    height, best-effort batch lookup of transactions, and the transactions
    of a block. The three required methods, answered by the storage service,
    are left uninterpreted: they are the function-valued fields of a
    `Store`. */
module Explorer {
  import opened Wrappers

  const U64_MAX: nat := 0xFFFF_FFFF_FFFF_FFFF

  type Height = h: nat | h <= U64_MAX

  /** The storage view an explorer queries; `E` is the storage error. */
  datatype Store<BlockInfo, TxInfo, !Hash, E> = Store(
    /** `blocks_range(from, to)` */
    blocksRange: (Height, Option<Height>) -> Result<seq<BlockInfo>, E>,
    /** `get_tx_info(hash)` */
    txInfo: Hash -> Result<Option<TxInfo>, E>,
    /** `get_tx_hashes_from_block(height)` */
    txHashes: Height -> Result<seq<Hash>, E>)

  // ------------------------------------------------------- get_block_info

  /** `get_block_info`: the first block of the one-height range starting at
      `h`, `None` when that range is empty, the storage error otherwise.
      `h + 1` is computed in `u64`, so `h` must be below its maximum. */
  function GetBlockInfo<B, T, H, E>(s: Store<B, T, H, E>, h: Height): (r: Result<Option<B>, E>)
    requires h < U64_MAX
    ensures s.blocksRange(h, Some(h + 1)).Err? <==> r.Err?
    ensures r.Err? ==> r.error == s.blocksRange(h, Some(h + 1)).error
    ensures r.Ok? ==> (r.value.None? <==> s.blocksRange(h, Some(h + 1)).value == [])
    ensures r.Ok? && r.value.Some? ==> r.value.value == s.blocksRange(h, Some(h + 1)).value[0]
  {
    var range :- s.blocksRange(h, Some(h + 1));
    if range == [] then Ok(None) else Ok(Some(range[0]))
  }

  /** The blocks a chain holds at heights `from` up to, not including, `to`
      (up to its tip when `to` is absent), in ascending order: the answer
      `blocks_range` is documented to give for a chain whose block at height
      `i` is `chain[i]`. */
  function Range<B>(chain: seq<B>, from: nat, to: Option<nat>): (r: seq<B>)
    ensures |r| <= |chain|
    ensures forall i :: 0 <= i < |r| ==> from + i < |chain| && r[i] == chain[from + i]
    ensures forall i :: from <= i < |chain| && (to.None? || i < to.value) ==> i - from < |r| && r[i - from] == chain[i]
  {
    var hi := if to.Some? && to.value < |chain| then to.value else |chain|;
    if hi <= from then [] else chain[from..hi]
  }

  /** Over a store that answers ranges of `chain`, `get_block_info(h)` is the
      block at height `h`, and `None` rather than an error past the tip. */
  lemma BlockInfoOfChain<B, T, H, E>(s: Store<B, T, H, E>, chain: seq<B>, h: Height)
    requires h < U64_MAX
    requires s.blocksRange(h, Some(h + 1)) == Ok(Range(chain, h, Some(h + 1)))
    ensures GetBlockInfo(s, h) == Ok(if h < |chain| then Some(chain[h]) else None)
  {
    if h < |chain| {
      assert Range(chain, h, Some(h + 1))[0] == chain[h];
    }
  }

  // -------------------------------------------------------------- get_txs

  /** The result of `get_txs(hashes)`: the infos of the hashes that were
      found, in input order, or the first lookup error. */
  function Txs<B, T, H, E>(s: Store<B, T, H, E>, hashes: seq<H>): (r: Result<seq<T>, E>)
    ensures r.Ok? ==> |r.value| <= |hashes|
    ensures r.Ok? ==> forall x :: x in r.value ==> exists i :: 0 <= i < |hashes| && s.txInfo(hashes[i]) == Ok(Some(x))
    ensures r.Err? ==> exists i :: 0 <= i < |hashes| && s.txInfo(hashes[i]) == Err(r.error)
  {
    if hashes == [] then Ok([])
    else
      var found :- s.txInfo(hashes[0]);
      var rest :- Txs(s, hashes[1..]);
      assert forall i :: 0 <= i < |hashes[1..]| ==> hashes[1..][i] == hashes[i + 1];
      Ok(Found(found) + rest)
  }

  /** The contribution of one successful lookup: its info, if there is one. */
  function Found<T>(o: Option<T>): (r: seq<T>)
    ensures |r| == if o.Some? then 1 else 0
  {
    if o.Some? then [o.value] else []
  }

  /** `v` followed by the infos of `r`, or the error of `r`. */
  function Then<T, E>(v: seq<T>, r: Result<seq<T>, E>): Result<seq<T>, E> {
    if r.Ok? then Ok(v + r.value) else r
  }

  /** `get_txs`: looks the hashes up one by one, keeps the infos found,
      skips the hashes not found and returns at the first error. */
  method GetTxs<B, T, H, E>(s: Store<B, T, H, E>, hashes: seq<H>) returns (r: Result<seq<T>, E>)
    ensures r == Txs(s, hashes)
  {
    var v := [];
    var i := 0;
    assert hashes[i..] == hashes;
    assert Then(v, Txs(s, hashes)) == Txs(s, hashes) by {
      if Txs(s, hashes).Ok? {
        assert v + Txs(s, hashes).value == Txs(s, hashes).value;
      }
    }
    while i < |hashes|
      invariant 0 <= i <= |hashes|
      invariant Txs(s, hashes) == Then(v, Txs(s, hashes[i..]))
    {
      var info := s.txInfo(hashes[i]);
      assert hashes[i..][1..] == hashes[i + 1..];
      if info.Err? {
        return Err(info.error);
      }
      var rest := Txs(s, hashes[i + 1..]);
      if rest.Ok? {
        assert v + (Found(info.value) + rest.value) == (v + Found(info.value)) + rest.value;
      }
      v := v + Found(info.value);
      i := i + 1;
    }
    assert v + [] == v;
    return Ok(v);
  }

  /** The lookups succeed at every position. */
  predicate AllLookedUp<B, T, H, E>(s: Store<B, T, H, E>, hashes: seq<H>) {
    forall i :: 0 <= i < |hashes| ==> s.txInfo(hashes[i]).Ok?
  }

  /** `get_txs` fails exactly when some lookup fails. */
  lemma {:induction false} TxsOkIffAllLookedUp<B, T, H, E>(s: Store<B, T, H, E>, hashes: seq<H>)
    ensures Txs(s, hashes).Ok? <==> AllLookedUp(s, hashes)
  {
    if hashes != [] {
      TxsOkIffAllLookedUp(s, hashes[1..]);
      assert forall i :: 1 <= i < |hashes| ==> hashes[i] == hashes[1..][i - 1];
    }
  }

  /** The error `get_txs` returns is that of the first failing lookup: every
      hash before it was looked up successfully. */
  lemma {:induction false} TxsFirstError<B, T, H, E>(s: Store<B, T, H, E>, hashes: seq<H>)
    requires Txs(s, hashes).Err?
    ensures exists i :: 0 <= i < |hashes| && s.txInfo(hashes[i]) == Err(Txs(s, hashes).error) &&
                        AllLookedUp(s, hashes[..i])
  {
    if s.txInfo(hashes[0]).Err? {
      assert AllLookedUp(s, hashes[..0]);
    } else {
      TxsFirstError(s, hashes[1..]);
      var i :| 0 <= i < |hashes[1..]| && s.txInfo(hashes[1..][i]) == Err(Txs(s, hashes[1..]).error) &&
               AllLookedUp(s, hashes[1..][..i]);
      assert hashes[..i + 1] == [hashes[0]] + hashes[1..][..i];
      assert s.txInfo(hashes[i + 1]) == Err(Txs(s, hashes).error);
    }
  }

  /** Nothing after a failing batch is looked at: appending hashes to it
      leaves the error unchanged. */
  lemma {:induction false} TxsStopsAtError<B, T, H, E>(s: Store<B, T, H, E>, hashes: seq<H>, more: seq<H>)
    requires Txs(s, hashes).Err?
    ensures Txs(s, hashes + more) == Txs(s, hashes)
  {
    assert (hashes + more)[0] == hashes[0];
    if s.txInfo(hashes[0]).Ok? {
      assert (hashes + more)[1..] == hashes[1..] + more;
      TxsStopsAtError(s, hashes[1..], more);
    }
  }

  /** Order: the batch over `a + b` is the batch over `a` followed by the
      batch over `b`. */
  lemma {:induction false} TxsAppend<B, T, H, E>(s: Store<B, T, H, E>, a: seq<H>, b: seq<H>)
    ensures Txs(s, a + b) == (if Txs(s, a).Err? then Txs(s, a) else Then(Txs(s, a).value, Txs(s, b)))
  {
    if a == [] {
      assert a + b == b;
      if Txs(s, b).Ok? {
        assert [] + Txs(s, b).value == Txs(s, b).value;
      }
    } else {
      assert (a + b)[0] == a[0] && (a + b)[1..] == a[1..] + b;
      TxsAppend(s, a[1..], b);
      TxsUnfold(s, a);
      TxsUnfold(s, a + b);
      var info := s.txInfo(a[0]);
      if info.Ok? && Txs(s, a[1..]).Ok? {
        ThenThen(Found(info.value), Txs(s, a[1..]).value, Txs(s, b));
      }
    }
  }

  /** `Then` over a concatenation is `Then` twice. */
  lemma ThenThen<T, E>(u: seq<T>, v: seq<T>, r: Result<seq<T>, E>)
    ensures Then(u, Then(v, r)) == Then(u + v, r)
  {
    if r.Ok? {
      assert u + (v + r.value) == (u + v) + r.value;
    }
  }

  /** One step of `Txs`: the first lookup, then the rest. */
  lemma TxsUnfold<B, T, H, E>(s: Store<B, T, H, E>, hashes: seq<H>)
    requires hashes != []
    ensures Txs(s, hashes) == (if s.txInfo(hashes[0]).Err? then Err(s.txInfo(hashes[0]).error)
                               else Then(Found(s.txInfo(hashes[0]).value), Txs(s, hashes[1..])))
  {
  }

  /** The number of hashes whose lookup found a transaction. */
  function FoundCount<B, T, H, E>(s: Store<B, T, H, E>, hashes: seq<H>): (n: nat)
    requires AllLookedUp(s, hashes)
    ensures n <= |hashes|
  {
    if hashes == [] then 0
    else (if s.txInfo(hashes[0]).value.Some? then 1 else 0) + FoundCount(s, hashes[1..])
  }

  /** `get_txs` returns one info per hash found, so at most one per hash, and
      one per hash exactly when every hash was found. */
  lemma {:induction false} TxsLength<B, T, H, E>(s: Store<B, T, H, E>, hashes: seq<H>)
    requires Txs(s, hashes).Ok?
    ensures AllLookedUp(s, hashes) && |Txs(s, hashes).value| == FoundCount(s, hashes)
    ensures |Txs(s, hashes).value| == |hashes| <==>
              forall i :: 0 <= i < |hashes| ==> s.txInfo(hashes[i]).value.Some?
  {
    TxsOkIffAllLookedUp(s, hashes);
    if hashes != [] {
      TxsLength(s, hashes[1..]);
      assert forall i :: 1 <= i < |hashes| ==> hashes[i] == hashes[1..][i - 1];
    }
  }

  /** Contents: every info returned is the info of one of the hashes, and
      every hash found contributes its info. */
  lemma {:induction false} TxsContents<B, T, H, E>(s: Store<B, T, H, E>, hashes: seq<H>)
    requires Txs(s, hashes).Ok?
    ensures forall x :: x in Txs(s, hashes).value <==>
              exists i :: 0 <= i < |hashes| && s.txInfo(hashes[i]) == Ok(Some(x))
  {
    if hashes != [] {
      TxsContents(s, hashes[1..]);
      forall x
        ensures x in Txs(s, hashes).value <==>
                exists i :: 0 <= i < |hashes| && s.txInfo(hashes[i]) == Ok(Some(x))
      {
        if exists i :: 0 <= i < |hashes| && s.txInfo(hashes[i]) == Ok(Some(x)) {
          var i :| 0 <= i < |hashes| && s.txInfo(hashes[i]) == Ok(Some(x));
          if i > 0 {
            assert hashes[1..][i - 1] == hashes[i];
          }
        }
        if x in Txs(s, hashes[1..]).value {
          var i :| 0 <= i < |hashes[1..]| && s.txInfo(hashes[1..][i]) == Ok(Some(x));
          assert hashes[i + 1] == hashes[1..][i];
        }
      }
    }
  }

  // ---------------------------------------------------- get_txs_for_block

  /** The result of `get_txs_for_block(h)`. */
  function TxsForBlock<B, T, H, E>(s: Store<B, T, H, E>, h: Height): (r: Result<seq<T>, E>)
    ensures r.Ok? ==> s.txHashes(h).Ok? && |r.value| <= |s.txHashes(h).value|
    ensures r.Ok? ==> forall x :: x in r.value ==>
              exists i :: 0 <= i < |s.txHashes(h).value| && s.txInfo(s.txHashes(h).value[i]) == Ok(Some(x))
  {
    var hashes :- s.txHashes(h);
    Txs(s, hashes)
  }

  /** `get_txs_for_block`: the block's hashes, then the batch lookup. */
  method GetTxsForBlock<B, T, H, E>(s: Store<B, T, H, E>, h: Height) returns (r: Result<seq<T>, E>)
    ensures r == TxsForBlock(s, h)
  {
    var hashes := s.txHashes(h);
    if hashes.Err? {
      return Err(hashes.error);
    }
    r := GetTxs(s, hashes.value);
  }

  /** An error of the hash lookup is returned as is, before any transaction
      is looked up; otherwise the block's transactions are those of its
      hashes that were found, and all of them when none is missing. */
  lemma TxsForBlockSpec<B, T, H, E>(s: Store<B, T, H, E>, h: Height)
    ensures s.txHashes(h).Err? ==> TxsForBlock(s, h) == Err(s.txHashes(h).error)
    ensures s.txHashes(h).Ok? && TxsForBlock(s, h).Ok? ==>
              |TxsForBlock(s, h).value| <= |s.txHashes(h).value|
    ensures s.txHashes(h).Ok? && AllLookedUp(s, s.txHashes(h).value) ==>
              (TxsForBlock(s, h).Ok? && (|TxsForBlock(s, h).value| == |s.txHashes(h).value| <==>
                forall i :: 0 <= i < |s.txHashes(h).value| ==> s.txInfo(s.txHashes(h).value[i]).value.Some?))
  {
    if s.txHashes(h).Ok? {
      var hashes := s.txHashes(h).value;
      TxsOkIffAllLookedUp(s, hashes);
      if Txs(s, hashes).Ok? {
        TxsLength(s, hashes);
      }
    }
  }
}
