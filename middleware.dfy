/**
 * The payment gate `handleTxPayment`: parse the bearer credential, claim
 * the transaction hash in the shared store, look the transaction up on
 * chain, check its age and its call data, then finalise the claim and
 * forward, or answer with a rejection.
 *
 * The chain and the clock are inputs: what `getTransaction` and `getBlock`
 * return, and the times at which the store commands and `Date.now` run.
 */
module Middleware {
  import opened Wrappers
  import opened Strings
  import opened Constants
  import opened Store
  import opened Verifier

  // ---------------------------------------------------------------------------
  // Inputs: the request header, the chain's answers, the clock
  // ---------------------------------------------------------------------------

  /** What the gate reads from a transaction: its block number (none while pending) and its input data. */
  datatype TxRecord = TxRecord(blockNumber: Option<nat>, input: string)

  /** The result of `getTransaction`: the record, or a failure (not found, or the RPC call failed). */
  datatype TxLookup = Found(tx: TxRecord) | NotFound | RpcFault

  /** The result of `getBlock` for the transaction's block. */
  datatype BlockLookup = BlockAt(timestamp: int) | BlockFault

  datatype ChainData = ChainData(tx: TxLookup, block: BlockLookup)

  /**
   * Times in milliseconds on one clock: `claimAt`, the store's time at the
   * `SET NX`; `nowMs`, `Date.now()` at the age check; `finishAt`, the store's
   * time at the `SET KEEPTTL`.
   */
  datatype Clock = Clock(claimAt: int, nowMs: int, finishAt: int)

  const BearerPrefix: string := "Bearer "

  /** The header is present and starts with `Bearer ` (an empty header is rejected like a missing one). */
  function HasBearer(header: Option<string>): (b: bool)
    ensures b ==> header.Some? && |header.value| >= 7 && header.value[..7] == "Bearer "
    ensures header.Some? && |header.value| >= 7 && header.value[..7] == "Bearer " ==> b
  {
    header.Some? && StartsWith(header.value, BearerPrefix)
  }

  /** `authHeader.replace("Bearer ", "")`: the proof token, with no length or hex check. */
  function TxHash(authHeader: string): (hash: string)
    ensures StartsWith(authHeader, BearerPrefix) ==> authHeader == BearerPrefix + hash
  {
    ReplaceFirst(authHeader, BearerPrefix, "")
  }

  /** `getTransaction(...).catch(() => null)`: every failure reads as "no transaction". */
  function FetchTransaction(lookup: TxLookup): (r: Option<TxRecord>)
    ensures r.Some? <==> lookup.Found?
    ensures r.Some? ==> r.value == lookup.tx
  {
    match lookup
    case Found(tx) => Some(tx)
    case NotFound => None
    case RpcFault => None
  }

  /** `if (tx.blockNumber)`: a bigint block number is truthy when present and non-zero. */
  function IsMined(tx: TxRecord): (mined: bool)
    ensures tx.blockNumber.None? || tx.blockNumber == Some(0) ==> !mined
    ensures tx.blockNumber.Some? && tx.blockNumber.value > 0 ==> mined
  {
    tx.blockNumber.Some? && tx.blockNumber.value != 0
  }

  /** `Math.floor(Date.now() / 1000) - Number(block.timestamp)`, in seconds. */
  function TxAge(nowMs: int, timestamp: int): (age: int)
    ensures (age + timestamp) * 1000 <= nowMs < (age + timestamp + 1) * 1000
  {
    nowMs / 1000 - timestamp
  }

  // ---------------------------------------------------------------------------
  // Outcomes
  // ---------------------------------------------------------------------------

  datatype TokenInfo = TokenInfo(symbol: string, address: string, decimals: nat)

  /** The `paymentInfo` quote sent with a 402. */
  datatype PaymentInfo = PaymentInfo(
    kind: string, networkId: nat, receiver: string, token: TokenInfo, amount: string, instruction: string)

  /** What the gate does with a request: one rejection, or `Forwarded` (`next()` is called once). */
  datatype Outcome =
    | PaymentRequired
    | AlreadyUsed
    | TxNotFound
    | TxExpired
    | DataMismatch
    | ValidationFailed
    | Forwarded

  /**
   * A response the gate sends itself: HTTP status, the `error` field of its
   * JSON body and, on a 402 only, the `paymentInfo` quote.
   */
  datatype Reply = Reply(status: nat, error: string, paymentInfo: Option<PaymentInfo>)

  /** The `error` text of the reply to a rejection. */
  function ErrorText(o: Outcome): string
    requires !o.Forwarded?
  {
    match o
    case PaymentRequired => "Payment required"
    case AlreadyUsed => "Transaction already used"
    case TxNotFound => "Transaction not found in Mempool or Chain"
    case TxExpired => "Transaction expired (too old)"
    case DataMismatch => "Transaction data mismatch (Wrong amount/recipient)"
    case ValidationFailed => "Validation failed"
  }

  /** The `error` text alone tells every rejection apart, the three 403 reasons included. */
  lemma ErrorTextIdentifiesOutcome(o1: Outcome, o2: Outcome)
    requires !o1.Forwarded? && !o2.Forwarded?
    ensures ErrorText(o1) == ErrorText(o2) ==> o1 == o2
  {
  }

  function ReplyOf(o: Outcome): (r: Option<Reply>)
    ensures r.None? <==> o.Forwarded?
    ensures r.Some? ==> r.value.status in {402, 403, 409, 500}
    ensures r.Some? ==> (r.value.status == 402 <==> o.PaymentRequired?)
    ensures r.Some? ==> (r.value.status == 409 <==> o.AlreadyUsed?)
    ensures r.Some? ==> (r.value.status == 500 <==> o.ValidationFailed?)
    ensures r.Some? ==> (r.value.status == 403 <==> o.TxNotFound? || o.TxExpired? || o.DataMismatch?)
    ensures r.Some? ==> r.value.error == ErrorText(o)
    ensures r.Some? ==> (r.value.paymentInfo.Some? <==> o.PaymentRequired?)
    ensures o.PaymentRequired? ==> r.value.paymentInfo == Some(Quote())
  {
    if o.Forwarded? then None
    else
      var status := match o
        case PaymentRequired => 402
        case AlreadyUsed => 409
        case ValidationFailed => 500
        case _ => 403;
      Some(Reply(status, ErrorText(o), if o.PaymentRequired? then Some(Quote()) else None))
  }

  /** The quote: network, recipient, token metadata and the amount as a decimal string. */
  function Quote(): PaymentInfo
  {
    PaymentInfo(
      "TxHashPayment",
      SepoliaChainId,
      PayTo,
      TokenInfo(Token.name, Token.address, Token.decimals),
      NatToDecimal(RequiredAmount),
      "Send a Transaction Hash (txHash) in 'Authorization: Bearer <txHash>' header")
  }

  /** The quote echoes the configured requirement; its amount string reads back as the required amount. */
  lemma QuoteEchoesRequirement()
    ensures Quote().receiver == PayTo && Quote().networkId == SepoliaChainId
    ensures Quote().token == TokenInfo("USD Coin", Token.address, 18)
    ensures forall i :: 0 <= i < |Quote().amount| ==> IsDigit(Quote().amount[i])
    ensures DecimalValue(Quote().amount) == RequiredAmount
  {
    DecimalRoundTrip(RequiredAmount);
  }

  // ---------------------------------------------------------------------------
  // The handler
  // ---------------------------------------------------------------------------

  datatype Response = Response(outcome: Outcome, entries: Entries)

  /**
   * The handler as a function of the store before the request: the outcome
   * and the store after it. Only the claimed hash's entry ever changes.
   */
  function Handle(m: Entries, header: Option<string>, chain: ChainData, clock: Clock): (r: Response)
    ensures r.outcome.PaymentRequired? <==> !HasBearer(header)
    ensures r.outcome.PaymentRequired? ==> r.entries == m
    ensures HasBearer(header) ==> (r.outcome.AlreadyUsed? <==> Holds(m, TxHash(header.value), clock.claimAt))
    ensures r.outcome.AlreadyUsed? ==> r.entries == m
    ensures HasBearer(header) ==>
      forall k :: k != TxHash(header.value) ==> (k in r.entries <==> k in m) && (k in m ==> r.entries[k] == m[k])
  {
    if !HasBearer(header) then Response(PaymentRequired, m)
    else
      var txHash := TxHash(header.value);
      var claim := SetNxEx(m, txHash, Processing, RedisTtl, clock.claimAt);
      if !claim.ok then Response(AlreadyUsed, m)
      else
        var claimed := claim.entries;
        match FetchTransaction(chain.tx)
        case None => Response(TxNotFound, Del(claimed, txHash))
        case Some(tx) =>
          if IsMined(tx) && chain.block.BlockFault? then Response(ValidationFailed, Del(claimed, txHash))
          else if IsMined(tx) && TxAge(clock.nowMs, chain.block.timestamp) > MaxTxAgeSeconds then
            Response(TxExpired, claimed)
          else if !DecodeAndCheckInput(tx.input) then Response(DataMismatch, claimed)
          else Response(Forwarded, SetKeepTtl(claimed, txHash, Used, clock.finishAt))
  }

  /**
   * `handleTxPayment` over the shared store. Every path that answers returns
   * at once, so the catch block is reached only when `getBlock` fails, before
   * anything was sent: it deletes the claim and answers 500.
   */
  method HandleTxPayment(store: ClaimStore, header: Option<string>, chain: ChainData, clock: Clock)
    returns (outcome: Outcome)
    modifies store
    ensures Response(outcome, store.entries) == Handle(old(store.entries), header, chain, clock)
  {
    if header.None? || !StartsWith(header.value, BearerPrefix) {
      return PaymentRequired;
    }
    var txHash := ReplaceFirst(header.value, BearerPrefix, "");
    ghost var claim := SetNxEx(store.entries, txHash, Processing, RedisTtl, clock.claimAt);
    var isFirstTime := store.SetNx(txHash, Processing, RedisTtl, clock.claimAt);
    if !isFirstTime {
      return AlreadyUsed;
    }
    assert store.entries == claim.entries;
    var tx := FetchTransaction(chain.tx);
    if tx.None? {
      store.Delete(txHash);
      return TxNotFound;
    }
    if IsMined(tx.value) {
      if chain.block.BlockFault? {
        store.Delete(txHash);
        return ValidationFailed;
      }
      var txAge := TxAge(clock.nowMs, chain.block.timestamp);
      if txAge > MaxTxAgeSeconds {
        return TxExpired;
      }
    }
    var isPaymentValid := DecodeAndCheckInput(tx.value.input);
    if !isPaymentValid {
      return DataMismatch;
    }
    store.SetKeepingTtl(txHash, Used, clock.finishAt);
    outcome := Forwarded;
  }

  // ---------------------------------------------------------------------------
  // Properties of one request
  // ---------------------------------------------------------------------------

  /** The hash is the header after `Bearer `; `Bearer ` alone gives the empty hash. */
  lemma HashIsHeaderTail(authHeader: string)
    requires StartsWith(authHeader, BearerPrefix)
    ensures TxHash(authHeader) == authHeader[|BearerPrefix|..]
    ensures authHeader == BearerPrefix ==> TxHash(authHeader) == ""
  {
  }

  /** The key is free: what happens to the claim on each outcome. */
  lemma FreshClaimOutcome(m: Entries, header: Option<string>, chain: ChainData, clock: Clock)
    requires HasBearer(header) && !Holds(m, TxHash(header.value), clock.claimAt)
    ensures var r := Handle(m, header, chain, clock); var key := TxHash(header.value);
      && !r.outcome.PaymentRequired? && !r.outcome.AlreadyUsed?
      && (r.outcome.TxNotFound? || r.outcome.ValidationFailed? ==> key !in r.entries)
      && (r.outcome.TxExpired? || r.outcome.DataMismatch? ==>
            key in r.entries && r.entries[key] == Entry(Processing, At(clock.claimAt + RedisTtl * 1000)))
      && (r.outcome.Forwarded? ==>
            key in r.entries && r.entries[key].state == Used
            && r.entries[key].expiry ==
                 if clock.finishAt <= clock.claimAt + RedisTtl * 1000 then At(clock.claimAt + RedisTtl * 1000) else Never)
  {
    var key := TxHash(header.value);
    var claimed := m[key := Entry(Processing, At(clock.claimAt + RedisTtl * 1000))];
    assert SetNxEx(m, key, Processing, RedisTtl, clock.claimAt) == SetNxResult(true, claimed);
    if chain.tx.Found? {
      var used := SetKeepTtl(claimed, key, Used, clock.finishAt);
      assert used[key].state == Used;
    } else {
      assert key !in Del(claimed, key);
    }
  }

  /** Not found (or an RPC failure on lookup) exactly when the transaction lookup fails. */
  lemma NotFoundIffLookupFails(m: Entries, header: Option<string>, chain: ChainData, clock: Clock)
    requires HasBearer(header) && !Holds(m, TxHash(header.value), clock.claimAt)
    ensures Handle(m, header, chain, clock).outcome.TxNotFound? <==> !chain.tx.Found?
  {
  }

  /**
   * A mined transaction whose block is fetched is rejected as expired exactly
   * when its age exceeds the maximum; an age equal to the maximum passes.
   */
  lemma ExpiredIffTooOld(m: Entries, header: Option<string>, chain: ChainData, clock: Clock)
    requires HasBearer(header) && !Holds(m, TxHash(header.value), clock.claimAt)
    requires chain.tx.Found? && IsMined(chain.tx.tx) && chain.block.BlockAt?
    ensures Handle(m, header, chain, clock).outcome.TxExpired?
      <==> TxAge(clock.nowMs, chain.block.timestamp) > MaxTxAgeSeconds
  {
  }

  /** With a block mined at second `ts`, a check during second ts + 600 passes the age check and one during second ts + 601 does not. */
  lemma AgeBoundary(ts: int, ms: nat)
    requires ms < 1000
    ensures TxAge((ts + MaxTxAgeSeconds) * 1000 + ms, ts) == MaxTxAgeSeconds
    ensures TxAge((ts + MaxTxAgeSeconds + 1) * 1000 + ms, ts) > MaxTxAgeSeconds
  {
  }

  /** A pending transaction skips the age check: neither the block nor the clock matters. */
  lemma PendingSkipsAgeCheck(m: Entries, header: Option<string>, chain: ChainData, clock: Clock)
    requires HasBearer(header) && !Holds(m, TxHash(header.value), clock.claimAt)
    requires chain.tx.Found? && !IsMined(chain.tx.tx)
    ensures Handle(m, header, chain, clock).outcome == if DecodeAndCheckInput(chain.tx.tx.input) then Forwarded else DataMismatch
  {
  }

  /** A failing `getBlock` ends in the catch block: 500 and the claim deleted. */
  lemma BlockFaultIsInternalError(m: Entries, header: Option<string>, chain: ChainData, clock: Clock)
    requires HasBearer(header) && !Holds(m, TxHash(header.value), clock.claimAt)
    requires chain.tx.Found? && IsMined(chain.tx.tx) && chain.block.BlockFault?
    ensures Handle(m, header, chain, clock).outcome == ValidationFailed
    ensures TxHash(header.value) !in Handle(m, header, chain, clock).entries
  {
  }

  /**
   * Once a transaction exists and has passed the age check (pending, or
   * mined and young enough), its call data alone decides: forwarded when it
   * holds the expected transfer, otherwise a 403 mismatch.
   */
  lemma CheckedTransactionDecidedByData(m: Entries, header: Option<string>, chain: ChainData, clock: Clock)
    requires HasBearer(header) && !Holds(m, TxHash(header.value), clock.claimAt)
    requires chain.tx.Found?
    requires IsMined(chain.tx.tx) ==> chain.block.BlockAt? && TxAge(clock.nowMs, chain.block.timestamp) <= MaxTxAgeSeconds
    ensures Handle(m, header, chain, clock).outcome == if DecodeAndCheckInput(chain.tx.tx.input) then Forwarded else DataMismatch
  {
  }

  /** A 500 comes only from a failing `getBlock` for a mined transaction. */
  lemma InternalErrorIffBlockFault(m: Entries, header: Option<string>, chain: ChainData, clock: Clock)
    requires HasBearer(header) && !Holds(m, TxHash(header.value), clock.claimAt)
    ensures Handle(m, header, chain, clock).outcome.ValidationFailed?
      <==> chain.tx.Found? && IsMined(chain.tx.tx) && chain.block.BlockFault?
  {
  }

  /** The conditions under which a request gets through to the next handler. */
  ghost predicate Paid(m: Entries, header: Option<string>, chain: ChainData, clock: Clock)
  {
    && HasBearer(header)
    && !Holds(m, TxHash(header.value), clock.claimAt)
    && chain.tx.Found?
    && (IsMined(chain.tx.tx) ==>
          chain.block.BlockAt? && TxAge(clock.nowMs, chain.block.timestamp) <= MaxTxAgeSeconds)
    && DecodeAndCheckInput(chain.tx.tx.input)
  }

  /**
   * A request is forwarded exactly when it carries a fresh hash of a
   * transaction that exists, is young enough if mined, and contains the
   * expected transfer.
   */
  lemma ForwardedIffPaid(m: Entries, header: Option<string>, chain: ChainData, clock: Clock)
    ensures Handle(m, header, chain, clock).outcome.Forwarded? <==> Paid(m, header, chain, clock)
  {
  }

  // ---------------------------------------------------------------------------
  // Properties across requests
  // ---------------------------------------------------------------------------

  /**
   * Replay rejection: once a request has claimed a hash and not released it
   * (every outcome but not-found and internal error), a later request with
   * the same header inside the claim's TTL gets 409, makes no chain lookup,
   * and leaves the store as it was.
   */
  lemma ReplayRejected(m: Entries, header: Option<string>, chain1: ChainData, clock1: Clock,
                       chain2: ChainData, clock2: Clock)
    requires HasBearer(header) && !Holds(m, TxHash(header.value), clock1.claimAt)
    requires !Handle(m, header, chain1, clock1).outcome.TxNotFound?
    requires !Handle(m, header, chain1, clock1).outcome.ValidationFailed?
    requires clock2.claimAt <= clock1.claimAt + RedisTtl * 1000
    ensures var m1 := Handle(m, header, chain1, clock1).entries;
      Handle(m1, header, chain2, clock2) == Response(AlreadyUsed, m1)
  {
    FreshClaimOutcome(m, header, chain1, clock1);
  }

  /** After not-found or an internal error the same hash can be submitted again: it is not a replay. */
  lemma ReleasedHashIsResubmittable(m: Entries, header: Option<string>, chain1: ChainData, clock1: Clock,
                                    chain2: ChainData, clock2: Clock)
    requires HasBearer(header)
    requires Handle(m, header, chain1, clock1).outcome.TxNotFound? || Handle(m, header, chain1, clock1).outcome.ValidationFailed?
    ensures !Handle(Handle(m, header, chain1, clock1).entries, header, chain2, clock2).outcome.AlreadyUsed?
  {
    FreshClaimOutcome(m, header, chain1, clock1);
  }

  /**
   * The TTL bound: a claim that is not finalised, or is finalised before it
   * expires, is gone once `REDIS_TTL` seconds have passed since it was made.
   * A finalisation that runs after the claim expired leaves a `used` key
   * without expiry.
   */
  lemma ClaimExpiry(m: Entries, header: Option<string>, chain: ChainData, clock: Clock, t: int)
    requires HasBearer(header) && !Holds(m, TxHash(header.value), clock.claimAt)
    ensures var r := Handle(m, header, chain, clock);
      ((!r.outcome.Forwarded? || clock.finishAt <= clock.claimAt + RedisTtl * 1000) && t > clock.claimAt + RedisTtl * 1000)
      ==> !Holds(r.entries, TxHash(header.value), t)
    ensures var r := Handle(m, header, chain, clock);
      r.outcome.Forwarded? && clock.finishAt > clock.claimAt + RedisTtl * 1000 ==> Holds(r.entries, TxHash(header.value), t)
  {
    FreshClaimOutcome(m, header, chain, clock);
  }

  /**
   * Why the claim outlives the age window by two minutes: once a request
   * has been forwarded, a later request with the same hash whose transaction
   * is mined in a block at most two minutes younger than the first claim is
   * not forwarded. While the claim lives it is a replay; once the claim has
   * expired the transaction is past the maximum age.
   */
  lemma MinedPaymentForwardedOnce(m: Entries, header: Option<string>, chain1: ChainData, clock1: Clock,
                                  chain2: ChainData, clock2: Clock)
    requires Handle(m, header, chain1, clock1).outcome.Forwarded?
    requires chain2.tx.Found? && IsMined(chain2.tx.tx) && chain2.block.BlockAt?
    requires chain2.block.timestamp < clock1.claimAt / 1000 + (RedisTtl - MaxTxAgeSeconds)
    requires clock2.claimAt <= clock2.nowMs
    ensures !Handle(Handle(m, header, chain1, clock1).entries, header, chain2, clock2).outcome.Forwarded?
  {
    ForwardedIffPaid(m, header, chain1, clock1);
    FreshClaimOutcome(m, header, chain1, clock1);
    var m1 := Handle(m, header, chain1, clock1).entries;
    if !Holds(m1, TxHash(header.value), clock2.claimAt) {
      var ts := chain2.block.timestamp;
      var age := TxAge(clock2.nowMs, ts);
      assert clock2.nowMs > clock1.claimAt + RedisTtl * 1000;
      assert (ts + 1) * 1000 <= clock1.claimAt + (RedisTtl - MaxTxAgeSeconds) * 1000;
      assert age > MaxTxAgeSeconds;
    }
  }

  /**
   * The pending path has no such bound: a payment first forwarded while
   * pending, and finalised in time, is forwarded again for a request made
   * after its claim expired, while the transaction is still pending or
   * within the age window once mined.
   */
  lemma PendingPaymentForwardedAgain(m: Entries, header: Option<string>, chain1: ChainData, clock1: Clock,
                                     chain2: ChainData, clock2: Clock)
    requires HasBearer(header) && !Holds(m, TxHash(header.value), clock1.claimAt)
    requires chain1.tx.Found? && !IsMined(chain1.tx.tx) && DecodeAndCheckInput(chain1.tx.tx.input)
    requires clock1.finishAt <= clock1.claimAt + RedisTtl * 1000
    requires clock2.claimAt > clock1.claimAt + RedisTtl * 1000
    requires chain2.tx.Found? && chain2.tx.tx.input == chain1.tx.tx.input
    requires IsMined(chain2.tx.tx) ==> chain2.block.BlockAt? && TxAge(clock2.nowMs, chain2.block.timestamp) <= MaxTxAgeSeconds
    ensures Handle(m, header, chain1, clock1).outcome == Forwarded
    ensures Handle(Handle(m, header, chain1, clock1).entries, header, chain2, clock2).outcome == Forwarded
  {
    FreshClaimOutcome(m, header, chain1, clock1);
    ForwardedIffPaid(Handle(m, header, chain1, clock1).entries, header, chain2, clock2);
  }

  /**
   * An instance: paid while pending at time 0, the same hash is forwarded
   * again 720.001 s later, by then mined in a block of second 200.
   */
  lemma PendingPaymentReplayInstance()
    ensures var header := Some("Bearer 0x01");
      var tx1 := TxRecord(None, "0x" + SearchPattern());
      var tx2 := TxRecord(Some(5), "0x" + SearchPattern());
      var r1 := Handle(map[], header, ChainData(Found(tx1), BlockFault), Clock(0, 0, 0));
      var r2 := Handle(r1.entries, header, ChainData(Found(tx2), BlockAt(200)), Clock(720001, 720001, 720001));
      r1.outcome == Forwarded && r2.outcome == Forwarded
  {
    var input := "0x" + SearchPattern();
    IsLowerConcat("0x", SearchPattern());
    ToLowerIsLower(input);
    ExactPaymentAccepted(input);
    var header := Some("Bearer 0x01");
    PendingPaymentForwardedAgain(map[], header,
      ChainData(Found(TxRecord(None, input)), BlockFault), Clock(0, 0, 0),
      ChainData(Found(TxRecord(Some(5), input)), BlockAt(200)), Clock(720001, 720001, 720001));
  }

  /**
   * Claims are keyed by the header text after `Bearer `, with no
   * normalisation: a request whose hash text differs from an earlier one's
   * gets the outcome it would have had without the earlier request.
   */
  lemma OtherHashUnaffected(m: Entries, header1: Option<string>, chain1: ChainData, clock1: Clock,
                            header2: Option<string>, chain2: ChainData, clock2: Clock)
    requires HasBearer(header1) && HasBearer(header2)
    requires TxHash(header1.value) != TxHash(header2.value)
    ensures Handle(Handle(m, header1, chain1, clock1).entries, header2, chain2, clock2).outcome
      == Handle(m, header2, chain2, clock2).outcome
  {
    var key := TxHash(header2.value);
    var m1 := Handle(m, header1, chain1, clock1).entries;
    assert Holds(m1, key, clock2.claimAt) == Holds(m, key, clock2.claimAt);
    OutcomeDependsOnlyOnHold(m1, m, header2, chain2, clock2);
  }

  /** The outcome sees the store only through whether the request's own hash is held. */
  lemma OutcomeDependsOnlyOnHold(m: Entries, m': Entries, header: Option<string>, chain: ChainData, clock: Clock)
    requires HasBearer(header)
    requires Holds(m, TxHash(header.value), clock.claimAt) == Holds(m', TxHash(header.value), clock.claimAt)
    ensures Handle(m, header, chain, clock).outcome == Handle(m', header, chain, clock).outcome
  {
  }

  /**
   * Two headers whose hash texts differ claim two keys: a pending payment
   * that matches is forwarded for each of them, one after the other.
   */
  lemma DistinctHashesForwardedSeparately(m: Entries, header1: Option<string>, header2: Option<string>,
                                          chain: ChainData, clock1: Clock, clock2: Clock)
    requires HasBearer(header1) && HasBearer(header2)
    requires TxHash(header1.value) != TxHash(header2.value)
    requires !Holds(m, TxHash(header1.value), clock1.claimAt) && !Holds(m, TxHash(header2.value), clock2.claimAt)
    requires chain.tx.Found? && !IsMined(chain.tx.tx) && DecodeAndCheckInput(chain.tx.tx.input)
    ensures Handle(m, header1, chain, clock1).outcome == Forwarded
    ensures Handle(Handle(m, header1, chain, clock1).entries, header2, chain, clock2).outcome == Forwarded
  {
    ForwardedIffPaid(m, header1, chain, clock1);
    ForwardedIffPaid(m, header2, chain, clock2);
    OtherHashUnaffected(m, header1, chain, clock1, header2, chain, clock2);
  }

  /**
   * An instance: the same payment, submitted as `0xab` and then as `0xAB`
   * (one transaction to an Ethereum node, two keys to the store), is
   * forwarded twice within one second.
   */
  lemma CaseVariantForwardedTwice()
    ensures var c := ChainData(Found(TxRecord(None, "0x" + SearchPattern())), BlockFault);
      var r1 := Handle(map[], Some("Bearer 0xab"), c, Clock(0, 0, 0));
      var r2 := Handle(r1.entries, Some("Bearer 0xAB"), c, Clock(1000, 1000, 1000));
      r1.outcome == Forwarded && r2.outcome == Forwarded
  {
    var input := "0x" + SearchPattern();
    IsLowerConcat("0x", SearchPattern());
    ToLowerIsLower(input);
    ExactPaymentAccepted(input);
    var h1, h2 := "Bearer 0xab", "Bearer 0xAB";
    assert h1[..7] == BearerPrefix && h2[..7] == BearerPrefix && h1 != h2;
    DistinctHashesForwardedSeparately(map[], Some(h1), Some(h2),
      ChainData(Found(TxRecord(None, input)), BlockFault), Clock(0, 0, 0), Clock(1000, 1000, 1000));
  }

  /** Store invariant: every `processing` claim carries an expiry. */
  ghost predicate ProcessingClaimsExpire(m: Entries)
  {
    forall k :: k in m && m[k].state == Processing ==> m[k].expiry.At?
  }

  lemma HandlePreservesProcessingClaimsExpire(m: Entries, header: Option<string>, chain: ChainData, clock: Clock)
    requires ProcessingClaimsExpire(m)
    ensures ProcessingClaimsExpire(Handle(m, header, chain, clock).entries)
  {
    if HasBearer(header) && !Holds(m, TxHash(header.value), clock.claimAt) {
      FreshClaimOutcome(m, header, chain, clock);
    }
  }

  // ---------------------------------------------------------------------------
  // Many submissions of one hash
  // ---------------------------------------------------------------------------

  datatype Request = Request(header: Option<string>, chain: ChainData, clock: Clock)

  /** Requests served one after another against the shared store, in the order the store saw their claims. */
  function ServeAll(m: Entries, reqs: seq<Request>): (r: (seq<Outcome>, Entries))
    ensures |r.0| == |reqs|
    decreases |reqs|
  {
    if reqs == [] then ([], m)
    else
      var first := Handle(m, reqs[0].header, reqs[0].chain, reqs[0].clock);
      var rest := ServeAll(first.entries, reqs[1..]);
      ([first.outcome] + rest.0, rest.1)
  }

  /** While a hash is held, every request for it is a replay and the store does not change. */
  lemma {:induction false} HeldHashRejectsAll(m: Entries, h: string, reqs: seq<Request>)
    requires StartsWith(h, BearerPrefix)
    requires forall i :: 0 <= i < |reqs| ==> reqs[i].header == Some(h) && Holds(m, TxHash(h), reqs[i].clock.claimAt)
    ensures ServeAll(m, reqs).1 == m
    ensures forall i :: 0 <= i < |reqs| ==> ServeAll(m, reqs).0[i] == AlreadyUsed
    decreases |reqs|
  {
    if reqs != [] {
      HeldHashRejectsAll(m, h, reqs[1..]);
    }
  }

  /**
   * Of N submissions of one unseen hash whose claims all fall inside the
   * first claim's TTL, only the first reaches the chain lookup, unless that
   * first one released the claim (not found, internal error).
   */
  lemma OnlyFirstSubmissionVerified(m: Entries, h: string, reqs: seq<Request>)
    requires |reqs| > 0 && StartsWith(h, BearerPrefix)
    requires forall i :: 0 <= i < |reqs| ==> reqs[i].header == Some(h)
    requires !Holds(m, TxHash(h), reqs[0].clock.claimAt)
    requires forall i :: 0 <= i < |reqs| ==> reqs[0].clock.claimAt <= reqs[i].clock.claimAt <= reqs[0].clock.claimAt + RedisTtl * 1000
    requires var o := ServeAll(m, reqs).0[0]; !o.TxNotFound? && !o.ValidationFailed?
    ensures forall i :: 1 <= i < |reqs| ==> ServeAll(m, reqs).0[i] == AlreadyUsed
  {
    var r0 := reqs[0];
    var first := Handle(m, r0.header, r0.chain, r0.clock);
    FreshClaimOutcome(m, r0.header, r0.chain, r0.clock);
    var rest := reqs[1..];
    forall i | 0 <= i < |rest| ensures rest[i].header == Some(h) && Holds(first.entries, TxHash(h), rest[i].clock.claimAt) {
      assert rest[i] == reqs[i + 1];
    }
    HeldHashRejectsAll(first.entries, h, rest);
  }
}
