# Payment gate of x402-app, modelled in Dafny

The server of x402-app protects an HTTP endpoint behind proof of an on-chain
micro-payment. The caller sends `Authorization: Bearer <txHash>`. The
middleware `handleTxPayment` then works through these steps:

1. It claims the hash in Redis with `SET NX EX`.
2. It fetches the transaction and, if the transaction is mined, its block.
3. It rejects the transaction if it is older than ten minutes.
4. It checks that the call data contains the ABI encoding of
   `transfer(payTo, 10^18)`.
5. It marks the hash `used` with `SET KEEPTTL` and forwards the request.

Each failure path answers 402, 409, 403 or 500 and either deletes the claim
or leaves it in place.

This project models that gate and the configuration it reads:

- `constant.dfy` (module `Constants`): the configured payment requirement
  and the claim TTL.
- `verifier.dfy` (module `Verifier`): `decodeAndCheckInput`. It builds the
  transfer encoding described in the Solidity Contract ABI Specification,
  section "Function Selector and Argument Encoding". The 4-byte selector
  `a9059cbb` is a constant. The encoding has a decoder as its partner.
  `decodeAndCheckInput` is a case-insensitive substring test at any
  character offset.
- `store.dfy` (module `Store`): the Redis keyspace. It is a map from key to
  (state, expiry) with lazy expiry. It supports the three commands the gate
  issues, as pure functions and as methods of the class `ClaimStore`. Times
  are in milliseconds, as Redis keeps them. A key set with `EX ttl` at time
  t expires at t + 1000·ttl and reads as absent only once the clock is past
  that point.
- `middleware.dfy` (module `Middleware`): `handleTxPayment`. The pure
  function `Handle` gives the outcome and the new store. The method
  `HandleTxPayment` runs the handler step by step against a `ClaimStore` and
  is proved equal to `Handle`. Lemmas cover replay rejection, claim
  retention and release, the age window, the TTL bound, and N submissions
  of one hash.
- `strings.dfy` and `hex.dfy`: the JavaScript string operations and the hex
  and decimal renderings these modules use.
  - `toLowerCase` is characterised character by character.
  - `indexOf`/`includes` is proved equal to the existence of an occurrence.
  - `replace` is characterised at the first occurrence.
  - The decimal and fixed-width hex renderings have round-trip proofs.

Chain data and time are explicit inputs:

- `getTransaction` gives a found record, not found, or an RPC fault. The
  record holds an optional block number and the input data.
- `getBlock` gives a timestamp or a fault.
- The clock gives, in milliseconds on one time line, the store's time at
  the claim, `Date.now()` at the age check, and the store's time at the
  finalising `SET KEEPTTL`.

Behaviours of the code that the model keeps and the lemmas make explicit:

- **Mismatch keeps the claim.** The not-found path deletes the claim
  (middleware.ts:62). The mismatch path (middleware.ts:75-77) does not. So
  the hash stays `processing` and gets 409 until its TTL runs out, as on
  the expired path.
- **RPC faults look like not-found.** A failing `getTransaction` is turned
  into a missing transaction by `.catch(() => null)` (middleware.ts:59). It
  is answered with the same 403, and the claim is deleted.
- **Block 0 counts as pending.** `if (tx.blockNumber)` (middleware.ts:65) is
  false for block number `0n`. A transaction in block 0 therefore skips the
  age check, like a pending one.
- **A late finalise never expires.** `SET KEEPTTL` (middleware.ts:79) on a
  key that has already expired creates the key with no expiry. If a
  verification outlasts `REDIS_TTL`, the hash is stored as `used` for good.
  `ClaimExpiry` states both sides of this.
- **The TTL bounds replays only for mined payments.** `REDIS_TTL` is the age
  window plus two minutes (constant.ts:6-7). `MinedPaymentForwardedOnce`
  states what this buys. Take a request that was forwarded. A later request
  with the same header text whose transaction is mined in a block less than two
  minutes after the first claim is not forwarded: within the TTL it gets
  409, and after the TTL it fails the age check. A pending transaction
  skips the age check (middleware.ts:65-72), so this bound does not hold on
  the pending path. `PendingPaymentForwardedAgain` shows the replay: a
  payment forwarded while pending is forwarded again once its claim has
  expired, if the transaction is still pending or recently mined.
  `PendingPaymentReplayInstance` is a concrete run of it: one payment serves
  two requests 720.001 s apart. A transaction that stays pending serves one
  request per claim lifetime.
- **Claims are per header text.** The hash is the header after `Bearer `,
  taken as written (middleware.ts:50). It is not normalised, so `0xab…` and
  `0xAB…` are two store keys (middleware.ts:53). Ethereum nodes accept hex
  digits in either letter case, so `getTransaction` (middleware.ts:59)
  returns the same transaction for both. The model's chain answer is an
  input that is not tied to the hash, so it allows exactly this.
  - `OtherHashUnaffected` proves that a request whose hash text differs
    from an earlier one's gets the outcome it would have had alone.
  - `DistinctHashesForwardedSeparately` proves that a matching payment is
    forwarded once for each such text.
  - `CaseVariantForwardedTwice` is a concrete run: `Bearer 0xab` and then
    `Bearer 0xAB`, one second apart and well inside one TTL, are both
    forwarded.
  - Replay protection (`ReplayRejected`, `MinedPaymentForwardedOnce`,
    `OnlyFirstSubmissionVerified`) therefore holds only for the same header
    text. A payment inside the age window can be forwarded once per
    letter-case variant of its hash.

## Model

| member | source | states |
|---|---|---|
| `Constants.ClaimOutlivesAgeWindow` | server/src/constant.ts:6-7 | the maximum age is 600 s and the claim TTL is exactly 120 s longer |
| `Constants.RequiredAmountIsOneToken` | server/src/constant.ts:10-16 | the required amount is 10^decimals with 18 decimals: one whole token |
| `Constants.ConfiguredAddressesWellFormed` | server/src/constant.ts:9-11 | `payTo` and the token address are `0x` plus 40 hex digits |
| `Strings.ToLower` | server/src/middleware.ts:14-15 | same length; every character mapped by ASCII lower-casing |
| `Strings.IndexFrom` | server/src/middleware.ts:17 | the result is the first offset at or after `from` where the pattern occurs; `None` exactly when there is none |
| `Strings.Includes` | server/src/middleware.ts:17 | true iff the pattern occurs at some offset |
| `Strings.ReplaceFirst` | server/src/middleware.ts:50 | `replace` with a string pattern: unchanged when the pattern is absent; otherwise the text before the first occurrence is kept, the occurrence becomes the replacement, and the rest is kept; on a string starting with the pattern, the replacement followed by the tail; the length changes by the difference in lengths exactly when the pattern occurs |
| `Strings.DecimalRoundTrip` | server/src/middleware.ts:40 | `toString()` gives a non-empty run of digits with no leading zero that reads back as the number |
| `Hex.NatToHexRoundTrip` | server/src/middleware.ts:8-12 | a uint256 word is 64 lower-case hex digits that read back as the amount |
| `Hex.HexValueInjective` | server/src/middleware.ts:8-12 | two lower-case hex words of equal width and value are equal |
| `Verifier.EncodeTransfer` | server/src/middleware.ts:8-12 | encoding succeeds iff the address is well formed and the amount fits uint256; then 138 lower-case characters starting `0x` + selector |
| `Verifier.TransferRoundTrip` | server/src/middleware.ts:8-12 | decoding the encoded call gives back the lower-cased recipient and the amount |
| `Verifier.DecodeThenEncode` | server/src/middleware.ts:8-12 | anything that decodes is, lower-cased, the encoding of what it decodes to |
| `Verifier.EncodeTransferInjective` | server/src/middleware.ts:8-12 | different recipients (ignoring case) or amounts never encode alike |
| `Verifier.ExpectedTransferDataIsPayment` | server/src/middleware.ts:8-12 | the configured requirement encodes, and the encoding decodes to (`payTo`, 10^18) |
| `Verifier.SearchPattern` | server/src/middleware.ts:14 | the pattern is the expected data without `0x`: 136 lower-case characters starting with the selector |
| `Verifier.DecodeAndCheckInput` | server/src/middleware.ts:6-25 | true iff the expected data is built and the lower-cased input contains the lower-cased pattern at some offset |
| `Verifier.CheckIsCaseInsensitive` | server/src/middleware.ts:14-17 | the verdict on an input equals the verdict on its lower-cased form |
| `Verifier.EmbeddedPaymentAccepted` | server/src/middleware.ts:14-17 | the pattern with any text before and after is accepted, at any character offset, byte-aligned or not |
| `Verifier.ExactPaymentAccepted` | server/src/middleware.ts:14-17 | an input equal to `0x` + pattern, in any letter case, is accepted |
| `Verifier.OtherTransferRejected` | server/src/middleware.ts:6-25 | an input that is exactly a transfer to another recipient or of another amount is rejected |
| `Store.SetNxEx` | server/src/middleware.ts:53 | `SET NX EX` succeeds iff the key reads as absent; on failure the map is unchanged; on success the key set grows by the key, which reads as the stored state |
| `Store.SetKeepTtl` | server/src/middleware.ts:79 | `SET KEEPTTL` leaves the key present, reading as the new state, and adds no other key |
| `Store.Del` | server/src/middleware.ts:62 | `DEL` (also issued at middleware.ts:84) removes exactly the key and leaves every other entry as it was |
| `Store.SetNxExClaims` | server/src/middleware.ts:53 | `SET NX EX` succeeds iff the key is free; then the key reads as the stored state up to and including the moment `ttl` seconds later, and not after; other keys are untouched |
| `Store.SetNxExExclusive` | server/src/middleware.ts:53 | after one successful `SET NX EX`, a second one on the key succeeds iff it comes strictly after the first one's expiry |
| `Store.SetKeepTtlKeepsExpiry` | server/src/middleware.ts:79 | `SET KEEPTTL` sets the state and keeps a live key's expiry; on an expired key it leaves a key that never expires |
| `Store.DelFrees` | server/src/middleware.ts:62 | after `DEL` the key is free at every time and other keys are untouched |
| `Store.ClaimStore.SetNx` | server/src/middleware.ts:53 | the method's result and new map are those of `SET NX EX` |
| `Store.ClaimStore.SetKeepingTtl` | server/src/middleware.ts:79 | the new map is that of `SET KEEPTTL` |
| `Store.ClaimStore.Delete` | server/src/middleware.ts:84 | the new map is that of `DEL` |
| `Middleware.HasBearer` | server/src/middleware.ts:30 | the header passes iff it is present and its first seven characters are `Bearer ` |
| `Middleware.TxHash` | server/src/middleware.ts:50 | for a header starting with `Bearer `, the header is `Bearer ` followed by the hash |
| `Middleware.IsMined` | server/src/middleware.ts:65 | a transaction counts as mined iff it has a block number greater than 0; block 0 counts as pending |
| `Middleware.FetchTransaction` | server/src/middleware.ts:59 | a record comes back iff the lookup found one; not-found and RPC faults both read as no transaction |
| `Middleware.TxAge` | server/src/middleware.ts:67 | the age is the floor of the milliseconds clock in seconds, minus the block timestamp |
| `Middleware.ReplyOf` | server/src/middleware.ts:43-86 | every outcome but forwarding gets a reply: 402 exactly for a missing credential, and then the reply alone carries the quote; 409 exactly for a replay; 500 exactly for an internal error; 403 exactly for not-found, expired and mismatch; the `error` field is the outcome's text |
| `Middleware.ErrorTextIdentifiesOutcome` | server/src/middleware.ts:43-86 | no two rejections share an `error` text, so the text tells the three 403 reasons apart |
| `Middleware.QuoteEchoesRequirement` | server/src/middleware.ts:31-42 | the quote carries `payTo`, the network id, the token's name, address and 18 decimals, and the amount as a decimal string that reads back as 10^18 |
| `Middleware.Handle` | server/src/middleware.ts:27-89 | a payment-required outcome (a 402, whose reply carries the quote) and an unchanged store iff the header is missing or lacks `Bearer `; 409 with an unchanged store iff the hash is held; keys other than the hash never change |
| `Middleware.HandleTxPayment` | server/src/middleware.ts:27-89 | the step-by-step handler over the shared store gives the outcome and the new store of `Handle` |
| `Middleware.HashIsHeaderTail` | server/src/middleware.ts:50 | the hash is the header without its leading `Bearer `; `Bearer ` alone gives the empty hash |
| `Middleware.FreshClaimOutcome` | server/src/middleware.ts:52-88 | on a free hash: not-found and internal error delete the claim; expired and mismatch leave it `processing` with expiry claim time + TTL; forwarding makes it `used`, keeping that expiry, or with no expiry if finalised after it |
| `Middleware.NotFoundIffLookupFails` | server/src/middleware.ts:59-64 | on a free hash the outcome is not-found iff the lookup did not find a transaction |
| `Middleware.ExpiredIffTooOld` | server/src/middleware.ts:65-72 | for a mined transaction with its block, the outcome is expired iff the age exceeds 600 s |
| `Middleware.AgeBoundary` | server/src/middleware.ts:67-69 | anywhere in second ts + 600 the age is exactly the maximum, which passes; in second ts + 601 it exceeds it |
| `Middleware.PendingSkipsAgeCheck` | server/src/middleware.ts:65-78 | a pending transaction is forwarded iff its call data matches, otherwise mismatch, whatever the block and the clock |
| `Middleware.CheckedTransactionDecidedByData` | server/src/middleware.ts:65-81 | on a free hash, a transaction that exists and passes the age check (pending, or mined and at most 600 s old) is forwarded iff its call data matches, and otherwise gets the 403 mismatch |
| `Middleware.InternalErrorIffBlockFault` | server/src/middleware.ts:65-88 | on a free hash, the outcome is the 500 internal error iff the transaction exists, is mined, and `getBlock` fails |
| `Middleware.BlockFaultIsInternalError` | server/src/middleware.ts:82-88 | a failing `getBlock` gives 500 and deletes the claim |
| `Middleware.ForwardedIffPaid` | server/src/middleware.ts:52-81 | a request is forwarded iff it has a bearer hash that is not held, a transaction that exists, an accepted age if mined, and matching call data |
| `Middleware.ReplayRejected` | server/src/middleware.ts:53-57 | after a claim that was not released, a request with the same header text within the TTL gets 409 and leaves the store unchanged |
| `Middleware.ReleasedHashIsResubmittable` | server/src/middleware.ts:60-64 | after not-found or an internal error, the same hash is not treated as a replay |
| `Middleware.ClaimExpiry` | server/src/middleware.ts:53-79 | a claim that is not finalised, or is finalised in time, is gone once TTL seconds have passed since it was made; one finalised after expiry is held forever |
| `Middleware.MinedPaymentForwardedOnce` | server/src/constant.ts:6-7 | after a forwarded request, a later one with the same header text whose transaction is mined less than two minutes after the first claim is not forwarded |
| `Middleware.PendingPaymentForwardedAgain` | server/src/middleware.ts:53-81 | a payment forwarded while pending and finalised in time is forwarded again after its claim expires, if the transaction is still pending or within the age window |
| `Middleware.OtherHashUnaffected` | server/src/middleware.ts:50-53 | a request whose hash text differs from an earlier request's gets the same outcome as without the earlier request |
| `Middleware.OutcomeDependsOnlyOnHold` | server/src/middleware.ts:53-81 | two stores that agree on whether the request's hash is held give the request the same outcome |
| `Middleware.DistinctHashesForwardedSeparately` | server/src/middleware.ts:50-81 | a matching pending payment submitted under two different hash texts is forwarded for both |
| `Middleware.CaseVariantForwardedTwice` | server/src/middleware.ts:50-81 | a concrete run: `Bearer 0xab` and then `Bearer 0xAB` with the same transaction are both forwarded, one second apart |
| `Middleware.PendingPaymentReplayInstance` | server/src/middleware.ts:53-81 | a concrete run: a payment forwarded while pending at time 0 is forwarded again at 720.001 s, by then mined in a block of second 200 |
| `Middleware.HandlePreservesProcessingClaimsExpire` | server/src/middleware.ts:53-84 | every `processing` entry carries an expiry, before and after any request |
| `Middleware.HeldHashRejectsAll` | server/src/middleware.ts:53-57 | while a hash is held, a run of requests for it all get 409 and leave the store unchanged |
| `Middleware.OnlyFirstSubmissionVerified` | server/src/middleware.ts:53-57 | of N submissions with one header text, whose hash is free, within the first claim's TTL, all but the first get 409, unless the first released its claim |

## Left out

- Concurrency: the store serialises the gate's commands. The model runs each request as one atomic step, and `ServeAll` runs requests one after another. It therefore does not capture interleavings inside one request. One such interleaving: a claim expires while `getTransaction` is still waiting, a second request claims the same hash, and both are forwarded.
- keccak-256 and viem's internals: the function selector is the constant `a9059cbb`. viem's checksum validation of mixed-case addresses is not modelled. An address is accepted when it is `0x` plus 40 hex digits.
- Unicode case mapping: `toLowerCase` is modelled for ASCII letters only. Hex data is ASCII.
- Floating point: `Date.now() / 1000` and `Number(block.timestamp)` are taken as exact integer operations. This holds for values below 2^53.
- Store failures: an unreachable Redis (a throwing `set` or `del`) and a second failure of the `del` in the catch block are not modelled. The in-model store never fails.
- Synchronous throws from `next()`: the catch block would then delete a `used` key and check `res.headersSent`. The downstream handler is not part of this model, so neither path is modelled.
- Clock skew: the Redis server's clock and `Date.now()` in the Node process are taken to be one time line, in milliseconds.
- Deadlines on RPC calls: the source sets none, and the model has no timing beyond the clock inputs.
- HTTP plumbing: logging (`console.*`), the 402 body's fixed `message` text, and Express wiring are left out. A reply carries its status, its `error` text and, on a 402, the quote.
- The match between the fetched block and the transaction's block number is not checked. `getBlock`'s answer is an input.
- The Redis client, the viem public client and their construction (constant.ts:5, constant.ts:18-21) are I/O and are left out.
