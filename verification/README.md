# Verified model of the NatLangChain dispute protocol

This project models two parts of NatLangChain and proves what they promise.

**The dispute contracts.** A party that alleges a breach stakes tokens (`ILRM`), which freezes their
registered assets (`AssetRegistry`). The other party may match the stake; proposals come in through a
signing oracle (`Oracle`); both parties may accept, pay to counter, or let the dispute time out. A
treasury (`Treasury`) subsidises defenders. Each contract is a set of step functions on values, where
`None` is a revert, together with a class whose methods take the steps of the Solidity code on storage
and are proved to have exactly the effect of the step functions. `Protocol` composes dispute contract,
registry and token into one machine driven by any sequence of calls; `Guarantees`, `Fairness`,
`Creation`, `Texts`, `Supply`, `Bystanders` and `Repeats` state what holds over all its runs, `Calls`
when each call succeeds in them and what it changes,
`IlrmContract` carries these over to the objects, and `OracleRuns` runs the oracle contract along.

**The key-sharing SDK.** Shamir sharing of bytes over GF(2^8) and threshold BLS over the prime scalar
field. Interpolation is proved once over an abstract field (`Fields`, `Interpolation`) and used for
both: for bytes after showing that the log and exp tables agree with carry-less multiplication modulo
0x11b (`Gf256`, `Gf256Order`, `Shamir`), for scalars after Fermat's little theorem (`PrimeFields`,
`Groups`, `ThresholdBls`). `Framing` is the newline framing of the daemon connection.

| file | content |
|---|---|
| Wrappers, DivMod, ByteStrings | results and reverts, integer division, big-endian bytes |
| Fields, Interpolation | fields, Lagrange interpolation at 0, uniqueness |
| Gf256, Gf256Order, Shamir | sdk/shamir.ts |
| PrimeFields, Groups, ThresholdBls | sdk/threshold-bls.ts |
| Ledger, AssetRegistry, Licenses | an ERC-20 ledger; contracts/AssetRegistry.sol |
| Ilrm, Protocol, IlrmContract | contracts/ILRM.sol and the composed system |
| Guarantees, Calls, Fairness, Creation, Texts, Supply, Bystanders, Repeats | theorems about its runs |
| Treasury, TreasuryRuns, TreasuryContract | contracts/Treasury.sol |
| Oracle, OracleRuns | contracts/Oracle.sol, alone and with the dispute contract |
| Framing | sdk/security/boundary-daemon.ts |

`dafny verify dfyconfig.toml` checks the whole project.

## How the contracts are modelled

- A call is atomic: the reentrancy guards are taken at their word. A revert restores every contract.
- The time of each call is an argument. The dispute theorems hold for any times whatever; the treasury
  theorems for times that do not go back.
- Signature validity, the recipient's answer to an ether transfer and the allowance behind a
  `transferFrom` are arguments of the call. Random bytes and random keys are arguments too.
- Unbounded numbers stand for `uint256`. Overflow is modelled where an amount chosen by a caller is
  multiplied or summed up: the escalated stake, the incentive, the burn, the reserves, the treasury's
  totals, the window end and the expiry of a licence.
- The test of the extension cap in `counterPropose` is modelled as it stands; it is true for every
  reachable counter, so each counter-proposal adds a day (`Guarantees.BoundedLife`).
- Event logs in the states record what the emitted events say together with amounts and times; they
  exist so that a run's history can be stated.

## Where the code does not do what is promised

Each entry names an input at which the promise fails and the condition under which it holds.

- Every flow is to end in agreement or an automatic exit (Protocol-Safety-Invariants.md:163-171). A
  dispute whose initiator has no active asset freezes nothing, and every way of resolving it ends in
  `unfreezeAssets`, which refuses an empty list; its stakes stay locked for ever
  (`Creation.StuckFromGenesis`, `Creation.StuckFromCreation`). Nor does a timeout end a dispute whose
  stakes overflow the multiplication for incentive or burn (`Creation.TooLargeToEnd`); with a stake of
  more than half of all tokens nothing else ends it either, after any run
  (`Supply.TooLargeFromGenesis`, `Supply.TooLargeForEver`). The timeout works
  exactly when the initiator owned an active asset at creation and that multiplication fits
  (`Creation.ExitFromCreation`, and for the state before the call `Guarantees.EnforceExactly`).
- The oracle contract raises the nonce before the dispute contract verifies the same signature again at
  the new nonce. Between connected contracts a submission succeeds exactly with a signature that is good
  for both nonces (`Oracle.SubmissionNeedsTwoNonces`); with signatures good for one digest none does
  (`Oracle.SignedYetRefused`), and no dispute is ever settled by acceptance (`OracleRuns.NeverAccepted`).
  The theorems about disputes treat the verdict as given and hold either way.
- The rolling window of the treasury restarts: in a span as long as a window a participant can draw two
  caps, never more (`TreasuryRuns.RollingWindow`, `TreasuryRuns.TwoCapsAttained`), and one cap is the
  limit exactly when the window or the cap is 0 (`TreasuryRuns.OneCapExactly`).
- A new proposal overwrites the text and keeps the acceptance flags; only a counter-proposal clears
  them. So the parties can settle having accepted different texts (`Texts.SwappedFromGenesis`). They
  accepted the same one exactly when no other text was the latest before either acceptance
  (`Texts.SameTextExactly`), which the second party can check before accepting
  (`Texts.SecondAcceptorChecks`).
- "If the counterparty declines to stake", the dispute is to resolve at once and no re-initiation is
  allowed until the cooldown expires (Protocol-Safety-Invariants.md:97-99). The code ends such a dispute
  only after the stake window (`Guarantees.EnforceExactly`), and allows the next one inside the cooldown
  (`Creation.DeclinedThenRepeated`, `Creation.RepeatInsideCooldown`), at one and a half times the stake
  (`Fairness.RepeatsEscalate`), exactly under the conditions of `Creation.InitiateExactly`.
- Repeated initiation without resolution is to cost its initiator strictly more each time
  (Protocol-Safety-Invariants.md:140-151). Against a party that stays silent it costs no tokens, and it
  earns a tenth of each stake while the reserves last (`Repeats.RepeatedInitiation`,
  `Repeats.GainFromDeployment`). A resolved dispute cost its initiator tokens exactly when it was answered and
  timed out (`Repeats.OnlyTimeoutsCost`); such a repeat costs more than the first exactly for a nominal
  stake of 2 or at least 4, and a third as much as the second (`Repeats.RepeatCosts`). More stake is
  asked for exactly inside the cooldown and from a stake of 2 on (`Repeats.EscalationStrict`).

## Model

| member | source | states |
|---|---|---|
| `Gf256.ProductIsRemainder` | sdk/shamir.ts:76-89 | the product computed by shift-and-reduce differs from the carry-less product by a carry-less multiple of 0x11b: for every two bytes there is such a multiple |
| `Gf256.RemainderUnique` | sdk/shamir.ts:29-30 | two bytes that differ from one polynomial by multiples of 0x11b are equal, so the product is the remainder and nothing else |
| `Gf256.GfMulAssoc` | sdk/shamir.ts:76-89 | multiplication of bytes is associative |
| `Gf256.GfMulCommutes` | sdk/shamir.ts:76-89 | multiplication of bytes is commutative |
| `Gf256.GfMulRightLinear` | sdk/shamir.ts:76-97 | multiplication distributes over exclusive or |
| `Gf256Order.GeneratorOrder` | sdk/shamir.ts:57-71 | 3^k is 1 exactly when 255 divides k: 3 has order 255 |
| `Gf256Order.ExpInjective` | sdk/shamir.ts:65-69 | the 255 entries written to the exp table are different |
| `Gf256Order.EveryByteIsPower` | sdk/shamir.ts:65-69 | every non-zero byte is one of these powers, so the log table is filled |
| `Gf256Order.Field256IsField` | sdk/shamir.ts:76-115 | bytes with exclusive or and this multiplication, and inverses through logarithms, are a field |
| `Shamir.ShamirSecretSharing.constructor` | sdk/shamir.ts:56-71 | after the loop the exp table holds 3^i at each i below 255 and 1 at 255, the log table the logarithm of every non-zero byte and 0 at 0 |
| `Shamir.ShamirSecretSharing.GfMultiplyNoTable` | sdk/shamir.ts:76-89 | the loop with `result`, shifted `a` and halved `b` computes the field product |
| `Shamir.ShamirSecretSharing.GfMultiply` | sdk/shamir.ts:101-105 | the table product is the field product, zeros included |
| `Shamir.ShamirSecretSharing.GfDivide` | sdk/shamir.ts:110-115 | the table quotient is the product with the field inverse; dividing by zero throws |
| `Shamir.ShamirSecretSharing.EvaluatePolynomial` | sdk/shamir.ts:122-130 | the loop from the top coefficient down returns the value of the polynomial at x, also at x = 0 |
| `Shamir.ShamirSecretSharing.Split` | sdk/shamir.ts:154-202 | succeeds if and only if 2 <= threshold <= numShares <= 255 and the secret is not empty, with the four argument errors in the code's order otherwise; one share per index 1..n, whose bytes are the values of one random polynomial for each secret byte |
| `Shamir.ShamirSecretSharing.SplitByte` | sdk/shamir.ts:180-199 | one secret byte: every share gets the value of the byte's polynomial at its index and nothing else changes |
| `Shamir.ShamirSecretSharing.BasisFraction` | sdk/shamir.ts:236-254 | numerator over denominator is the i-th Lagrange basis polynomial at 0, and the denominator is not zero |
| `Shamir.ShamirSecretSharing.Combine` | sdk/shamir.ts:211-268 | succeeds if and only if at least two shares of one length with different indices are given, with the three errors in the code's order otherwise; then the array of interpolated values at 0 |
| `Shamir.ShamirSecretSharing.CombineByte` | sdk/shamir.ts:233-264 | one byte: the Lagrange combination of the shares' bytes |
| `Shamir.RoundTrip` | sdk/shamir.ts:7-26 | for every non-empty secret, every 2 <= t <= n <= 255, every random bytes and every list, in any order, of at least t different shares, `combine` accepts and returns the secret |
| `Shamir.ShamirSecretSharing.SplitThenCombine` | sdk/shamir.ts:14-26 | the usage example for every input: split, pick shares at any different positions, at least t of them, combine, and the secret is back |
| `Shamir.ShamirSecretSharing.SplitThenCombineAll` | sdk/shamir.ts:154-268 | whenever `split` hands out shares, whatever the threshold asked for, all of them together combine to the secret |
| `Shamir.PerfectSecrecy` | sdk/shamir.ts:7-9 | for any t-1 different non-zero indices and any data at them, every secret of that length is explained by exactly one choice of the random bytes |
| `Shamir.ByteSecrecy` | sdk/shamir.ts:180-200 | the same for one byte: exactly one vector of higher coefficients |
| `Interpolation.Reconstruct` | sdk/shamir.ts:233-264 | over any field: the Lagrange combination at 0 of the values of a polynomial at enough different points is its constant term |
| `Interpolation.WeightsSumToOne` | sdk/shamir.ts:241-260 | the Lagrange weights at 0 of any different points sum to 1 |
| `Interpolation.InterpolationUnique` | sdk/shamir.ts:7-9 | two polynomials with at most as many coefficients as there are different points, and the same values at them, are the same |
| `Interpolation.InterpolationExists` | sdk/shamir.ts:7-9 | any values at different points are those of a polynomial with that many coefficients |
| `Interpolation.SecretUndetermined` | sdk/shamir.ts:7-9 | with one point fewer than coefficients, every constant term is explained by exactly one choice of the others |
| `ByteStrings.BytesToBigInt` | sdk/threshold-bls.ts:572-578 | the big-endian number of the bytes |
| `ByteStrings.FirstByteWeighsMost` | sdk/threshold-bls.ts:572-578 | the first of n + 1 bytes weighs 256^n in that number: the order is big-endian |
| `ByteStrings.BigIntToBytes` | sdk/threshold-bls.ts:580-590 | the big-endian digits of the value, low bytes kept when it does not fit |
| `ByteStrings.NumberOfDigits` | sdk/threshold-bls.ts:572-590 | decoding the encoding of a value gives the value modulo 256^length |
| `ByteStrings.DigitsOfNumber` | sdk/threshold-bls.ts:572-590 | encoding the number of a byte string at its length gives the byte string back |
| `ThresholdBls.ModPow` | sdk/threshold-bls.ts:592-605 | square-and-multiply returns base^exp mod m for every exp >= 0 and m > 1, and 1 for a negative exponent |
| `PrimeFields.FermatLittle` | sdk/threshold-bls.ts:607-609 | a^(p-1) = 1 modulo a prime p that does not divide a |
| `PrimeFields.ModInverseInverts` | sdk/threshold-bls.ts:607-609 | a^(m-2) is an inverse of a modulo a prime m |
| `ThresholdBls.ComputeModInverse` | sdk/threshold-bls.ts:607-609 | the returned number times a is 1 modulo m, for every prime m that does not divide a |
| `PrimeFields.PrimeFieldIsField` | sdk/threshold-bls.ts:100-102 | the residues modulo a prime are a field with this inverse |
| `ThresholdBls.EvaluatePolynomial` | sdk/threshold-bls.ts:107-118 | the loop with `result` and `power` returns the polynomial's value modulo the order |
| `ThresholdBls.GeneratePolynomialCoefficients` | sdk/threshold-bls.ts:78-97 | as many coefficients as the threshold: first the number of the master secret if there is one and of the first random key if not, then those of the other random keys |
| `ThresholdBls.GenerateKeyShares` | sdk/threshold-bls.ts:127-170 | succeeds if and only if 1 <= t <= n; the aggregated key is the master secret's number times the generator, or the first random key's without a secret; share i encodes f(i) in 32 bytes with f(i) times the generator, and the commitments are the coefficients times the generator |
| `ThresholdBls.VerifyShare` | sdk/threshold-bls.ts:178-200 | accepts exactly when the public key is the sum of index^j times the j-th commitment |
| `ThresholdBls.FeldmanExact` | sdk/threshold-bls.ts:178-200 | for committed coefficients, that sum equals the public key if and only if the key is f(index) times the generator; so every generated share passes |
| `ThresholdBls.FeldmanChecksSecret` | sdk/threshold-bls.ts:178-200 | for a share whose public key belongs to its secret, the check passes if and only if the secret is f(index) modulo the order |
| `Groups.TimesInjective` | sdk/threshold-bls.ts:178-200 | in a group of prime order, multiples of a non-zero point are equal exactly when the scalars agree modulo the order |
| `ThresholdBls.ComputeLagrangeCoefficient` | sdk/threshold-bls.ts:264-285 | numerator times inverted denominator is the Lagrange weight at 0 over the indices other than the signer's |
| `ThresholdBls.SignPartial` | sdk/threshold-bls.ts:228-239 | the partial signature is the share's number times the message point, under the share's index |
| `ThresholdBls.AggregateSignatures` | sdk/threshold-bls.ts:292-314 | fails exactly on an empty list; otherwise the sum of Lagrange-weighted signatures, with the signers in order |
| `ThresholdBls.ThresholdAggregation` | sdk/threshold-bls.ts:292-314 | for at least as many different signers as coefficients, whoever they are, the weighted sum is the signature under the master secret |
| `ThresholdBls.ReconstructSecret` | sdk/threshold-bls.ts:339-359 | fails exactly with fewer shares than the threshold; otherwise the 32-byte encoding of the weighted sum over the first `threshold` shares, counted from the end when it is negative |
| `ThresholdBls.SecretReconstruction` | sdk/threshold-bls.ts:339-359 | if the first t shares are different shares of one polynomial, that sum is the master secret modulo the order, and the bytes decode to it |
| `ThresholdBls.GenerateThenVerify` | sdk/threshold-bls.ts:613-631 | every key share that is handed out passes verification against the commitments handed out with it |
| `ThresholdBls.GenerateThenSign` | sdk/threshold-bls.ts:642-669 | for every master secret, any t or more different participants sign with their shares and the aggregate is the secret's number times the message point; without a secret it is the first random key's |
| `ThresholdBls.GenerateThenReconstruct` | sdk/threshold-bls.ts:679-684 | for every master secret, any t or more different shares give back its number modulo the order in 32 bytes, without a secret the first random key's; fewer are refused |
| `AssetRegistry.RegisterKeepsIndex` | contracts/AssetRegistry.sol:96-125 | registering keeps the index: each asset is in its owner's list at its stored position and nowhere else, lists stay at most 100, and the total counts the assets |
| `AssetRegistry.RegisterAdds` | contracts/AssetRegistry.sol:111-122 | the new asset is on its owner's list, and no other entry changes |
| `AssetRegistry.TransferKeepsIndex` | contracts/AssetRegistry.sol:132-162 | swap with the last entry, pop and push keep the index, also when an owner transfers to themselves |
| `AssetRegistry.TransferMoves` | contracts/AssetRegistry.sol:144-161 | after a transfer the asset is on the new owner's list only, and every other asset is on the list it was on |
| `AssetRegistry.TotalIsSumOfLengths` | contracts/AssetRegistry.sol:50-51 | `totalAssets` is the sum of the lengths of all owners' lists |
| `AssetRegistry.FreezeKeeps` | contracts/AssetRegistry.sol:231-250 | freezing for a new dispute puts exactly the party's active assets on the dispute's list, keeps every other list, and keeps both invariants |
| `AssetRegistry.UnfreezeKeeps` | contracts/AssetRegistry.sol:256-280 | unfreezing makes every asset of the dispute's list active, empties the list, keeps every other list, and keeps both invariants |
| `AssetRegistry.FrozenExactlyOnce` | contracts/AssetRegistry.sol:231-250 | an asset is on a dispute's list exactly when it is frozen for that dispute, and then once |
| `AssetRegistry.RegisterExactly` | contracts/AssetRegistry.sol:96-125 | registering succeeds if and only if the caller is the non-zero owner, the asset unknown, and the owner has fewer than 100 assets; the record holds owner, given terms, active, no dispute, now, and no other record changes |
| `AssetRegistry.TransferExactly` | contracts/AssetRegistry.sol:132-162 | a transfer succeeds if and only if the caller owns the active asset and the non-zero new owner has fewer than 100; only owner and time of the record change, the terms stay |
| `AssetRegistry.FreezeExactly` | contracts/AssetRegistry.sol:231-250 | only an authorised contract freezes; exactly the party's active assets become frozen for the dispute, now, with owner and terms kept |
| `AssetRegistry.UnfreezeExactly` | contracts/AssetRegistry.sol:256-280 | unfreezing succeeds if and only if an authorised contract calls it and some asset is frozen for the dispute; exactly those become active with no dispute, owner and terms kept |
| `AssetRegistry.FallbackExactly` | contracts/AssetRegistry.sol:285-301 | only an authorised contract re-licenses; exactly the assets frozen for the dispute get the terms and stay frozen |
| `AssetRegistry.AssetRegistryContract.DoRegisterAsset` | contracts/AssetRegistry.sol:96-125 | the storage after registering, or the same storage on a revert; the index invariant holds |
| `AssetRegistry.AssetRegistryContract.DoTransferAsset` | contracts/AssetRegistry.sol:132-162 | the storage after a transfer, or the same storage on a revert; the index invariant holds |
| `AssetRegistry.AssetRegistryContract.TakeOffList` | contracts/AssetRegistry.sol:146-154 | the swap-and-pop removes the asset and re-indexes the one that takes its place |
| `AssetRegistry.AssetRegistryContract.DoFreezeAssets` | contracts/AssetRegistry.sol:231-250 | the loop freezes the active assets of the party and appends them to the dispute's list in order |
| `AssetRegistry.AssetRegistryContract.DoUnfreezeAssets` | contracts/AssetRegistry.sol:256-280 | reverts for a caller without authority or an empty list; otherwise the loop releases the listed assets and the list is deleted |
| `AssetRegistry.AssetRegistryContract.DoApplyFallbackLicense` | contracts/AssetRegistry.sol:285-301 | the loop sets the terms of the listed assets |
| `Licenses.TotalIsActive` | contracts/AssetRegistry.sol:169-222 | over any sequence of grants and revocations, whatever happens to the assets meanwhile, `totalLicenses` is the number of active licences |
| `Licenses.GrantExactly` | contracts/AssetRegistry.sol:169-201 | a grant succeeds if and only if the owner licenses an active asset to a non-zero licensee for a positive duration whose end fits; terms, royalty, exclusivity, start and end are stored as given, and no other licence changes |
| `Licenses.RevokeExactly` | contracts/AssetRegistry.sol:206-222 | a revocation by the owner or an authorised contract succeeds exactly on an active licence: the counter never underflows |
| `Licenses.RevokeEffect` | contracts/AssetRegistry.sol:206-222 | a revocation ends exactly that licence now, leaves its terms on record, and takes one off the counter |
| `Licenses.ValidUntil` | contracts/AssetRegistry.sol:359-365 | a granted licence is valid exactly until it expires, and never after a revocation |
| `Licenses.LicenseRegister.DoGrantLicense` | contracts/AssetRegistry.sol:169-201 | the licence as granted; the counter moves only for a licence that was not active |
| `Licenses.LicenseRegister.DoRevokeLicense` | contracts/AssetRegistry.sol:206-222 | the licence ended now; the counter keeps counting |
| `Ledger.TransferDelta` | contracts/ILRM.sol:137 | what one token transfer does to every balance, also when sender and recipient are the same |
| `Ledger.TransferExactly` | contracts/ILRM.sol:137 | a token transfer succeeds if and only if both addresses are non-zero and the balance covers it; by a third party, if the allowance covers it too |
| `Protocol.StepKeepsHistory` | contracts/ILRM.sol:122-324 | every call keeps the record of every dispute in agreement with the event log: creation time, fees, standing acceptances, payouts |
| `Protocol.StepKeepsFreezes` | contracts/ILRM.sol:157 | every call keeps: non-empty frozen lists belong to unresolved disputes and hold assets of their initiators |
| `Protocol.StepKeepsMoney` | contracts/ILRM.sol:122-489 | every call keeps balance = reserves + stakes of unresolved disputes + tokens sent directly, and ether = treasury |
| `Protocol.AcceptedSinceMeans` | contracts/ILRM.sol:234-256 | the acceptance flag's reading of the log: a timely acceptance with no counter-proposal after it |
| `Protocol.OnlyCreatedDisputesTimeOut` | contracts/ILRM.sol:311-324 | `enforceTimeout` on an id that was never created reverts, because the token refuses the zero address |
| `Protocol.TimeoutTransfersDelta` | contracts/ILRM.sol:456-471 | the transfers of a timeout, burn and dust included, on every balance |
| `Guarantees.Solvency` | contracts/ILRM.sol:122-489 | over every run from deployment: token balance = tokenReserves + both stakes of every unresolved dispute + direct transfers; ether balance = treasury |
| `Guarantees.BoundedGriefing` | contracts/ILRM.sol:270-281 | the fees burned for a dispute are 0.01 ether times 2^counterCount - 1, at most 0.07 ether |
| `Fairness.CounterFee` | contracts/ILRM.sol:276-286 | a counter-proposal burns its fee and adds exactly the rest of the ether sent to the treasury |
| `Guarantees.FrozenForOneDispute` | contracts/AssetRegistry.sol:231-280 | in every reachable state: frozen exactly when on a list; then on the list of the dispute it names only, once, the dispute exists and is unresolved, and the owner is its initiator |
| `Guarantees.LoopsBounded` | contracts/AssetRegistry.sol:28 | no owner's list and no frozen list has more than 100 entries |
| `Guarantees.ResolutionReleases` | contracts/ILRM.sol:399-475 | the call that resolves a dispute makes all its frozen assets active and empties its list, which was not empty |
| `Guarantees.EnforceExactly` | contracts/ILRM.sol:311-324 | `enforceTimeout` succeeds if and only if the dispute is unresolved, past its deadline, has a frozen asset, and the checked multiplication fits 256 bits; the balance always suffices |
| `Calls.StakeExactly` | contracts/ILRM.sol:189-201 | in every reachable state: `depositStake` succeeds if and only if the contract is not paused, the sender is the counterparty of an unresolved, unanswered dispute, at most three days after its start, with the transfer approved and covered; then the stake equals the initiator's, the tokens have moved, and nothing else changed |
| `Calls.StakesCameInTime` | contracts/ILRM.sol:194 | over every run from deployment: each stake in the log came at most three days after the creation of its dispute |
| `Calls.ProposeExactly` | contracts/ILRM.sol:208-231 | a proposal succeeds if and only if the oracle contract submits a non-empty, validly signed text to an unresolved dispute with both stakes; only the text changes |
| `Calls.CounterExactly` | contracts/ILRM.sol:262-305 | a counter-proposal succeeds if and only if a party of an unresolved dispute with both stakes makes it, unpaused, as one of the first three, with at least 0.01, 0.02 or 0.04 ether; the rest of the ether goes to the treasury, text and acceptances are cleared, the evidence replaced, the clock set a day on |
| `Calls.EnforceEffect` | contracts/ILRM.sol:311-324 | a timeout resolves its dispute with the outcome by its counter-stake, adds one payout to the log, and changes no other record, no pause, no ether, no cooldown |
| `Calls.SettleEffect` | contracts/ILRM.sol:399-411 | a settling acceptance resolves its dispute as accepted by both and changes no other record |
| `Calls.RequestExactly` | contracts/ILRM.sol:169-183 | a voluntary request succeeds if and only if it names a counterparty and burns at least 0.01 ether, and changes nothing |
| `Calls.TransferCallExactly` | contracts/ILRM.sol:137 | a token transfer between accounts changes the two balances and nothing else in the system |
| `Calls.RegistryCallExactly` | contracts/AssetRegistry.sol:96-162 | registering and transferring assets succeed in the system exactly when they do in the registry, and change nothing outside it |
| `Calls.DepositExactly` | contracts/ILRM.sol:484-489 | anyone adds a positive, approved and covered amount to the reserves, and they grow by it |
| `Calls.WithdrawExactly` | contracts/ILRM.sol:509-516 | the owner, and no one else, takes ether up to the whole treasury, which the contract always holds; sent to the contract itself it comes back |
| `Calls.SendEtherExactly` | contracts/ILRM.sol:535-537 | ether sent to the contract is always taken and counted in the treasury |
| `Calls.PauseExactly` | contracts/ILRM.sol:522-532 | the owner, and no one else, pauses when not paused and resumes when paused |
| `Guarantees.BoundedLife` | contracts/ILRM.sol:296-301 | startTime is creation time plus one day a counter-proposal, so every deadline is within ten days of creation |
| `Guarantees.GuaranteedExit` | contracts/ILRM.sol:311-324 | ten days after creation anyone can end an unresolved dispute, exactly when it has a frozen asset and the multiplication fits |
| `Guarantees.FreezesLast` | contracts/AssetRegistry.sol:231-250 | what a dispute froze stays frozen for it until it is resolved, over every run |
| `Guarantees.AlwaysAnExit` | contracts/ILRM.sol:311-324 | after any run, a dispute that froze an asset is resolved or can be ended ten days after its creation |
| `Guarantees.StuckWithoutAssets` | contracts/AssetRegistry.sol:262-263 | a dispute with no frozen asset is never resolved, whatever is called: the promise of an exit fails for it |
| `Creation.InitiateExactly` | contracts/ILRM.sol:122-163 | `initiateBreachDispute` succeeds if and only if the contract is not paused, the counterparty is another account, the stake is positive, the fallback non-exclusive, the transfer approved, the sender's balance at least the stake due, and, inside the cooldown, one and a half times the stake computable |
| `Creation.FrozenAtCreation` | contracts/ILRM.sol:157 | a new dispute has frozen something exactly when its initiator owned an active asset |
| `Creation.ExitFromCreation` | contracts/ILRM.sol:311-324 | whatever happens in between, more than ten days after its creation a dispute is resolved or `enforceTimeout` ends it, the latter exactly when the initiator owned an active asset at creation and the multiplication fits |
| `Creation.StuckFromCreation` | contracts/AssetRegistry.sol:262-263 | a dispute opened by an initiator without an active asset is never resolved, over every run |
| `Creation.StuckFromGenesis` | contracts/AssetRegistry.sol:262-263 | such a dispute is opened from deployment, and no run resolves it |
| `Supply.SupplyConserved` | contracts/ILRM.sol:122-489 | over every run the token supply stays what it was: no different accounts hold more together, and some hold exactly that |
| `Supply.NoMatch` | contracts/ILRM.sol:189-201 | while the contract holds a stake of more than half of all tokens, no other account holds as much |
| `Supply.TooLargeForEver` | contracts/ILRM.sol:418-440 | a dispute whose stake is more than half of all tokens and too large for the incentive's multiplication is unresolved and unchanged after every run |
| `Supply.TooLargeFromGenesis` | contracts/ILRM.sol:418-440 | such a dispute, with a frozen asset, is opened from deployment |
| `Creation.TooLargeToEnd` | contracts/ILRM.sol:418-423 | a dispute with a frozen asset and the largest stake is opened from deployment, and no timeout ends it |
| `Guarantees.AcceptedByBoth` | contracts/ILRM.sol:234-256 | an AcceptedProposal outcome means: equal non-zero stakes, and from each party a standing acceptance after the latest counter-proposal and before the deadline; of which text, `Texts.SameTextExactly` says |
| `Texts.TextAtMeans` | contracts/ILRM.sol:228 | the text that the log leaves on the table at any entry is that of the latest proposal with no counter-proposal after it |
| `Texts.LaterAcceptedFinal` | contracts/ILRM.sol:234-256 | behind an accepted proposal, the later of the two standing acceptances was of the final text, and the earlier one of some text |
| `Texts.SameTextExactly` | contracts/ILRM.sol:208-256 | in every reachable state behind an accepted proposal: both parties accepted the final text if and only if no proposal of another text was the latest before either acceptance |
| `Texts.SecondAcceptorChecks` | contracts/ILRM.sol:234-256 | for the call that settles: both will have accepted the same text if and only if the text in storage is the one on the table when the other party accepted |
| `Texts.SwappedText` | contracts/ILRM.sol:228 | on every open, fully staked dispute with a frozen asset and no acceptance yet: propose a, accept, propose b, accept ends as accepted with b, of which one party accepted a |
| `Texts.SwappedFromGenesis` | contracts/ILRM.sol:228 | such a settlement on two different texts is reached from deployment |
| `Texts.AcceptExactly` | contracts/ILRM.sol:234-256 | `acceptProposal` succeeds if and only if an unresolved dispute with a text is accepted in time by a party for the first time, and, if it settles the dispute, an asset is frozen; the balance always suffices |
| `Guarantees.PaidOnce` | contracts/ILRM.sol:399-475 | a dispute is paid out once if resolved and never otherwise, with the amounts due for its outcome; a default pays the initiator the stake, and its tenth exactly when the reserves of the moment covered it |
| `Guarantees.TimeoutSettlement` | contracts/ILRM.sol:447-475 | after a timeout of a fully staked dispute each party has floor(s/2) more and all the rest of the two stakes is burned |
| `Guarantees.NonParticipationSettlement` | contracts/ILRM.sol:418-440 | without a counter-stake the initiator gets the stake, and a tenth more exactly when the reserves cover it |
| `Guarantees.AcceptanceSettlement` | contracts/ILRM.sol:399-411 | after the second acceptance each party has its whole stake back |
| `Guarantees.ResolvedIsAbsorbing` | contracts/ILRM.sol:399-475 | no sequence of calls changes the record of a resolved dispute |
| `Fairness.SilenceIsFree` | contracts/ILRM.sol:122-324 | an account that sends no call never has fewer tokens than before, whatever others do |
| `Bystanders.AssetsUntouched` | contracts/AssetRegistry.sol:231-301 | the assets of an account that has no open dispute of its own and sends no call stay as they are, over every run: owner, terms, status |
| `Bystanders.AssetsActive` | contracts/AssetRegistry.sol:231-250 | such assets are active before and after every run |
| `Repeats.OnlyTimeoutsCost` | contracts/ILRM.sol:399-475 | in every reachable state: a resolved dispute gave its initiator back less than the stake if and only if it was answered and timed out; then half the stake, rounded up, is lost |
| `Repeats.EscalationStrict` | contracts/ILRM.sol:381-392 | a repeat takes more stake if and only if it falls in the cooldown and the stake is at least 2 |
| `Repeats.RepeatCosts` | contracts/ILRM.sol:381-392 | a repeat that times out costs more than the first exactly for a stake of 2 or at least 4, and a third costs what the second does |
| `Repeats.RepeatedInitiation` | contracts/ILRM.sol:418-440 | over any number of disputes against a silent party: the initiator ends with what it had and a tenth of each stake that the reserves could cover |
| `Repeats.GainFromDeployment` | contracts/ILRM.sol:418-440 | from deployment with funded reserves, two such disputes inside the cooldown earn their initiator tokens |
| `Fairness.RepeatsEscalate` | contracts/ILRM.sol:381-392 | a second dispute by the same party against the same party within 30 days takes one and a half times the stake, rounded down, whatever happens in between |
| `Creation.RepeatInsideCooldown` | contracts/ILRM.sol:381-392 | from deployment, two disputes of the same pair inside 30 days are both opened |
| `Creation.DeclinedThenRepeated` | contracts/ILRM.sol:381-392 | from deployment: the counterparty declines to stake, the dispute ends under the fallback, and the same initiator opens another against the same party inside the cooldown |
| `Fairness.TimeoutRelicenses` | contracts/AssetRegistry.sol:285-301 | a timeout puts exactly the dispute's frozen assets under the initiator's fallback terms |
| `IlrmContract.ILRM.InitiateBreachDispute` | contracts/ILRM.sol:122-163 | the storage of all three contracts after a new dispute, or the same storage on a revert |
| `IlrmContract.ILRM.GetEscalatedStake` | contracts/ILRM.sol:381-392 | one and a half times the stake within 30 days of the pair's last dispute, the stake otherwise |
| `IlrmContract.ILRM.DepositStake` | contracts/ILRM.sol:189-201 | the storage after the counterparty's matching stake, or the same storage on a revert; `Calls.StakeExactly` says which, and what is in it |
| `IlrmContract.ILRM.SubmitLLMProposal` | contracts/ILRM.sol:208-231 | the proposal text recorded with the acceptance flags left alone, or no change |
| `IlrmContract.ILRM.AcceptProposal` | contracts/ILRM.sol:234-256 | one party's acceptance, with the resolution when it is the second; a failing resolution takes the acceptance back |
| `IlrmContract.ILRM.CounterPropose` | contracts/ILRM.sol:262-305 | fee, excess to the treasury, flags and text cleared, one more day; or no change |
| `IlrmContract.ILRM.EnforceTimeout` | contracts/ILRM.sol:311-324 | the branch by counter-stake, its deadline, and the resolution; a failing resolution changes nothing |
| `IlrmContract.ILRM.ResolveAccepted` | contracts/ILRM.sol:399-411 | both stakes returned, then the assets released |
| `IlrmContract.ILRM.ResolveNonParticipation` | contracts/ILRM.sol:418-440 | incentive from the reserves if they cover it, then fallback licence and release |
| `IlrmContract.ILRM.ResolveTimeout` | contracts/ILRM.sol:447-475 | half burned, the rest returned in equal parts, dust burned, then fallback licence and release |
| `IlrmContract.ILRM.DepositTokenReserves` | contracts/ILRM.sol:484-489 | tokens in and reserves up by the same amount, or no change |
| `IlrmContract.ILRM.WithdrawTreasury` | contracts/ILRM.sol:509-516 | ether out and treasury down by the same amount, also when sent to the contract itself |
| `IlrmContract.ILRM.Receive` | contracts/ILRM.sol:535-537 | ether in and treasury up by the same amount |
| `AssetRegistry.AssetRegistryContract.DoAuthorizeILRM` | contracts/AssetRegistry.sol:376-380 | only the owner adds a dispute contract, and never the zero address |
| `IlrmContract.ILRM.Deploy` | contracts/ILRM.sol:101-113 | a zero oracle is refused; otherwise the objects, with the registry authorising the dispute contract, are in the state where a run begins |
| `IlrmContract.ILRM.Execute` | contracts/ILRM.sol:122-537 | one transaction on the three objects is one step of the composed system |
| `IlrmContract.ILRM.ExecuteAll` | contracts/ILRM.sol:122-537 | any sequence of transactions on the objects ends in the state of the run, so all theorems about runs are about the objects |
| `Treasury.PreviewRefinesExecution` | contracts/Treasury.sol:197-340 | a request by a participant who may make it succeeds with x if and only if `calculateSubsidy` gives (x, true) in the same state and the running total does not overflow |
| `Treasury.SubsidyWithinCaps` | contracts/Treasury.sol:197-291 | a paid subsidy is within need and per-dispute cap, leaves window use within the cap and the balance at the reserve or above, and a second preview for the dispute says no |
| `Treasury.SubsidyMaximal` | contracts/Treasury.sol:248-288 | a paid subsidy is as large as it can be: the need is met, or the dispute cap, or the window is used up, or the balance is down to the reserve; window, records, total and log are updated by it, and nothing else changes |
| `Treasury.RequestExactly` | contracts/Treasury.sol:197-291 | a request pays if and only if its caller may make it, the score is below 50, the window end fits, none of need, dispute cap, window room and balance above the reserve is zero, and the smallest of them fits the running total |
| `Treasury.PreviewExactly` | contracts/Treasury.sol:301-340 | the preview's amount is positive exactly when the dispute is open to subsidy and none of these rooms is empty; then it fits all four and fills one |
| `Treasury.ScoreMoves` | contracts/Treasury.sol:350-371 | the dispute contract moves a score by a delta within 100: to old + delta where that lies in 0..100, to 0 below, to 100 above on the way up; no other score changes |
| `Treasury.ScoreSet` | contracts/Treasury.sol:379-384 | the owner sets a score to any value up to 100 and to 100 for anything above |
| `Treasury.DepositExactly` | contracts/Treasury.sol:159-179 | a deposit succeeds if and only if it is positive, approved, covered and fits the total; tokens and total move by it; a burn deposit is one by the dispute contract |
| `Treasury.WithdrawExactly` | contracts/Treasury.sol:429-432 | the owner, and no one else, takes out any amount up to the balance, the reserve included |
| `TreasuryRuns.RollingWindow` | contracts/Treasury.sol:248-268 | with fixed caps, over every run and any span of T seconds: at most maxPerParticipant * (floor((T+W)/(W+1)) + 1), so at most maxPerParticipant * (floor(T/(W+1)) + 2), and two caps when T <= W |
| `TreasuryRuns.SpanBoundAttained` | contracts/Treasury.sol:248-268 | for every cap, window and span T there is a run that pays exactly maxPerParticipant * (floor((T+W)/(W+1)) + 1) within T seconds |
| `TreasuryRuns.OneCapExactly` | contracts/Treasury.sol:248-268 | one cap at most in every span as long as a window, in every run: if and only if the window is 0 or the cap is 0 |
| `TreasuryRuns.TwoCapsAttained` | contracts/Treasury.sol:248-268 | two whole caps within two seconds do happen, for every cap and window: one cap in any window-long span is not what the code gives |
| `TreasuryRuns.UsedIsPaid` | contracts/Treasury.sol:248-284 | the recorded use is exactly what was paid since the participant's window opened, at most the cap |
| `TreasuryRuns.OneSubsidyPerDispute` | contracts/Treasury.sol:208-210 | over every run no dispute is subsidised twice, the record of subsidised disputes and the total agree with the payments, every token is accounted for, and scores stay within 100 |
| `TreasuryContract.NatLangChainTreasury.RequestSubsidy` | contracts/Treasury.sol:197-291 | the storage and amount after a subsidy, or the same storage (window reset included) on a revert; `Treasury.RequestExactly` and `Treasury.SubsidyMaximal` say when and how much |
| `TreasuryContract.NatLangChainTreasury.CappedAmount` | contracts/Treasury.sol:254-277 | the largest amount within need, dispute cap, window room and balance above the reserve |
| `TreasuryContract.NatLangChainTreasury.CalculateSubsidy` | contracts/Treasury.sol:301-340 | the preview's amount and eligibility, changing nothing; an eligible amount is positive and as large as the rooms allow |
| `TreasuryContract.NatLangChainTreasury.Deposit` | contracts/Treasury.sol:159-166 | tokens in and inflows up by the same amount, or no change |
| `TreasuryContract.NatLangChainTreasury.DepositBurn` | contracts/Treasury.sol:172-179 | the same for the dispute contract only |
| `TreasuryContract.NatLangChainTreasury.UpdateHarassmentScore` | contracts/Treasury.sol:350-371 | only the dispute contract moves a score, by at most 100: to old + delta inside 0..100, otherwise to the nearer bound |
| `TreasuryContract.NatLangChainTreasury.SetHarassmentScore` | contracts/Treasury.sol:379-384 | only the owner sets a score, to the value given or to 100 for more |
| `TreasuryContract.NatLangChainTreasury.SetILRM` | contracts/Treasury.sol:392-396 | only the owner names another dispute contract, never the zero address |
| `TreasuryContract.NatLangChainTreasury.UpdateCaps` | contracts/Treasury.sol:404-415 | only the owner sets the two caps and the window, and nothing else with them |
| `TreasuryContract.NatLangChainTreasury.SetMinReserve` | contracts/Treasury.sol:420-422 | only the owner sets the reserve |
| `TreasuryContract.NatLangChainTreasury.EmergencyWithdraw` | contracts/Treasury.sol:429-432 | the storage after the owner's withdrawal, or the same storage on a revert |
| `TreasuryContract.NatLangChainTreasury.SetPaused` | contracts/Treasury.sol:484-493 | only the owner pauses and resumes, and only when that changes something |
| `TreasuryContract.NatLangChainTreasury.Execute` | contracts/Treasury.sol:159-420 | one transaction is one step of a run |
| `Oracle.NonceDiscipline` | contracts/Oracle.sol:163-190 | over every run: the nonce is submissions plus resets, these alternate from a submission on, and a proposal is recorded exactly when the nonce is odd |
| `Oracle.SubmitExactly` | contracts/Oracle.sol:163-192 | a submission succeeds if and only if an operator makes it, nothing is recorded, the non-empty signature recovers to an operator at the current nonce, and the dispute contract takes the proposal; then hash, pending flag and nonce of that dispute change and nothing else |
| `Oracle.ResetExactly` | contracts/Oracle.sol:327-341 | only the owner starts a dispute over, and only with a proposal recorded: record cleared, request pending, nonce one up, nothing else |
| `Oracle.OperatorExactly` | contracts/Oracle.sol:296-313 | over every run: an account is an operator if and only if the owner registered it and did not revoke it afterwards |
| `Oracle.NoNonceTwice` | contracts/Oracle.sol:163-190 | no two entries of the log, so no two submissions, have the same dispute and nonce |
| `Oracle.SubmissionNeedsTwoNonces` | contracts/Oracle.sol:176-190 | a submission ends with a proposal in this dispute contract exactly when the two contracts are connected to each other, its sender is an operator, nothing is recorded yet, the dispute is open with both stakes, and one signature recovers to an operator at nonce n and at n + 1 |
| `Oracle.NoProposalGetsThrough` | contracts/ILRM.sol:219-226 | so if an operator's signature is good for one digest only, no submission through the two contracts succeeds |
| `Oracle.SignedYetRefused` | contracts/Oracle.sol:176-190 | after the owner registered an operator and connected a dispute contract there is a signature, valid at the current nonce and accepted by the oracle contract alone, that this dispute contract takes in no state, though without the second check it would on every open dispute with both stakes |
| `OracleRuns.NeverAccepted` | contracts/ILRM.sol:219-226 | with this oracle contract and such signatures, no run of the two contracts from deployment ever puts a text on the table or ends a dispute as accepted |
| `Oracle.NatLangChainOracle.DoVerifySignature` | contracts/Oracle.sol:198-218 | the registered signer at the current nonce, if there is one |
| `Oracle.NatLangChainOracle.DoSubmitProposal` | contracts/Oracle.sol:163-192 | the guards of a submission, and record, pending flag and nonce after it, or no change when the dispute contract refuses |
| `Oracle.NatLangChainOracle.DoResetProposal` | contracts/Oracle.sol:327-341 | by the owner only: record cleared, request pending again, nonce one up; reverts without a record |
| `Oracle.NatLangChainOracle.DoRequestProposal` | contracts/Oracle.sol:149-157 | only the dispute contract asks for a proposal; the request is pending |
| `Oracle.NatLangChainOracle.DoCancelPendingRequest` | contracts/Oracle.sol:348-352 | only the owner cancels a request, and only a pending one |
| `Oracle.NatLangChainOracle.DoRegisterOracle` | contracts/Oracle.sol:296-303 | only the owner registers an operator, never the zero address |
| `Oracle.NatLangChainOracle.DoRevokeOracle` | contracts/Oracle.sol:310-313 | only the owner revokes an operator, and it is one no longer |
| `Oracle.NatLangChainOracle.DoSetILRM` | contracts/Oracle.sol:286-289 | only the owner connects another dispute contract, never the zero address |
| `Oracle.NatLangChainOracle.Execute` | contracts/Oracle.sol:149-352 | one transaction is one step of a run |
| `Framing.JoinSplit` | sdk/security/boundary-daemon.ts:332 | the pieces of a text, joined by newlines, are the text |
| `Framing.PiecesAreLines` | sdk/security/boundary-daemon.ts:332 | no piece holds a newline |
| `Framing.SplitJoin` | sdk/security/boundary-daemon.ts:332 | newline-free pieces come back from their joined text |
| `Framing.ChunkingIndependence` | sdk/security/boundary-daemon.ts:328-345 | however a stream is cut into chunks, the same lines are handed on and the same text waits as for the whole stream at once |
| `Framing.TrimCut` | sdk/security/boundary-daemon.ts:336 | trimming cuts white space off both ends, all of it and nothing else |
| `Framing.TrimmedToNothing` | sdk/security/boundary-daemon.ts:336 | a text trims to nothing exactly when all its characters are white space |
| `Framing.SpaceCodes` | sdk/security/boundary-daemon.ts:336 | white space is the 25 characters of the language's white space and line terminators |
| `Framing.PartialLineWaits` | sdk/security/boundary-daemon.ts:333 | data that completes no line waits behind what waits already, and nothing is handed on |
| `Framing.LineHandedOn` | sdk/security/boundary-daemon.ts:328-345 | a completed line is handed on, whole, if and only if some character of it is not white space; then nothing waits |
| `Framing.PrintedThenRead` | sdk/security/boundary-daemon.ts:328-345 | messages printed one a line and read in any chunks: exactly those that trim to nothing are dropped, and nothing waits |
| `Framing.MessagesRecovered` | sdk/security/boundary-daemon.ts:336 | the messages are recovered if and only if each of them has some character that is not white space |
| `Framing.DaemonConnection.HandleData` | sdk/security/boundary-daemon.ts:328-345 | one chunk: the complete lines that do not trim to nothing are handed on in order, the last piece kept; data without a newline is only kept |
| `Framing.DaemonConnection.HandleStream` | sdk/security/boundary-daemon.ts:328-345 | any sequence of chunks does what one chunk with all the data does |
| `Framing.DaemonConnection.WriteMessage` | sdk/security/boundary-daemon.ts:383 | the socket's text is the messages sent so far, each followed by a newline |

## Left out

- IlrmContract.ILRM.EnforceTimeout: times are unbounded, so an overflow of startTime plus a window, near 2^256 seconds, is not modelled.
- IlrmContract.ILRM.WithdrawTreasury: the recipient's code is a success flag; what it may call back into is not modelled.
- IlrmContract.ILRM.CounterPropose: ether sums do not overflow in the model, and the transfer to the burn address always succeeds.
- ThresholdBls.GenerateKeyShares: the curve library refuses a scalar of 0 or one not below the order, where the model multiplies by any number.
- ThresholdBls.VerifyShare: for the same reason, and because malformed points make the code return false, the model takes commitments as points and lets a zero power through.
- ThresholdBls.SignPartial: the library refuses a share of 0 or not below the order, where the model multiplies by any number.
- ThresholdBls.ComputeLagrangeCoefficient: indices are asked to lie below the order, as participant numbers do.
- ThresholdBls.AggregateSignatures: indices likewise; signatures are points of a group of prime order; their byte encoding, and the verification by pairing, are the curve library's.
- ThresholdBls.ReconstructSecret: indices likewise.
- Shamir.ShamirSecretSharing.Combine: indices and data are asked to be bytes, which the code's types do for the data only; other indices fall outside its tables.
- Shamir.ShamirSecretSharing.CombineByte: the same.
- Shamir.ShamirSecretSharing.BasisFraction: the same.
- Oracle.NatLangChainOracle.DoVerifySignature: a malformed signature gives no signer here; the library's recovery reverts inside verifySignature. Both callers refuse the submission either way.
- Oracle.Signer: the same.
- Framing.DaemonConnection.HandleData: strings are sequences of characters, not of UTF-16 units; parsing a line as JSON, and what is done with the message, come after.
- Licence grants and the dispute machine are two models that share the registry's assets; a run does not mix them.
- The harassment score kept by the dispute contract itself, which nothing there reads.
- Ownership transfer, operators' public key hashes, changes of the registry's authorised contracts: the dispute contract is the only one authorised throughout.
- Emergency withdrawals of ether, views that only return a field, gas, and tokens that charge a fee on transfer.
- The fields of emitted events that no property mentions.
- Request identifiers, timeouts and reconnection in the daemon client; encoding of shares as Base64.
- Contracts under contracts/modules and contracts/scaling, the subgraph, circuits and deployment scripts.
