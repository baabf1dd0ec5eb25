# Deal registry — a Dafny model

This project models the core of a small Go HTTP service for time-limited
promotional deals. The core is an in-memory registry: a map from deal id to
`Deal`, where a deal has an item count, a price, an end time, a claim counter
and the set of users who have claimed it. Four handlers act on the map:
create, update, claim and end. Each handler holds one process-wide mutex for
its whole body. So each handler is modelled as one atomic transition. It takes
a registry and the handler's inputs, and returns an outcome together with the
new registry.

Modules:

- `Deals` (`deals.dfy`): the data model. It has `Deal`, the decoded request
  bodies (`UpdateData`, and `Payload` for "decoded or malformed"), the
  `Outcome` variants (`Ok`, `NotFound`, `Expired`, `SoldOut`,
  `AlreadyClaimed`, `MalformedInput`), the registry type, and the predicates
  the lemmas talk about.
- `DealRegistry` (`registry.dfy`): the four operations `Create`, `Update`,
  `Claim` and `End`, and the precedence of Claim's checks.
- `Invariants` (`invariants.dfy`): what each operation preserves,
  establishes or breaks.
- `ClaimSequences` (`claims.dfy`): series of claims against one deal, in
  lock order. Covers the race between distinct users, the bound on
  successes, and no double claim.
- `Serial` (`serial.dfy`): the handlers as requests, applied one after
  another in lock-acquisition order. Covers lifetime after End and the
  end-to-end scenarios.

Inputs the handlers read from the environment become parameters:

- the clock is an integer `now`;
- the generated id is a caller-supplied string `newId`, with no freshness
  assumed;
- decode failures are the `Malformed` payload.

The model keeps these behaviours of the code, which are easy to misread:

- Create keeps the `claimed` value from the request body. It does not reset
  it to 0 (`main.go:134-143`). So the stored deal satisfies
  `claimed == |claimants|` exactly when the body's `claimed` was 0
  (`Invariants.CreateConsistentIff`).
- Ids are not guaranteed unique. The id generator formats the wall clock, and
  Create overwrites any live deal stored under the same id
  (`Invariants.CreateOverwritesExisting`).
- `claimed <= item` is not a global invariant. Claim keeps it, but Update
  accepts an item count below the counter (`Invariants.UpdateCanExceedCapacity`).
- An Update whose body fails to decode reports `MalformedInput` before the id
  is looked up. So after End, only an Update with a decodable body reports
  `NotFound`.

## Model

| member | source | states |
|---|---|---|
| DealRegistry.Create | main.go:134-143 | A malformed body changes nothing. Otherwise the stored deal has the supplied id and an empty claimant set, and keeps item, price, end time and claim counter from the body. It is stored under that id, replacing any entry there; every other key is unchanged. |
| DealRegistry.Update | main.go:82-101 | A malformed body gives MalformedInput, checked before the lookup. A missing id gives NotFound with no change. Otherwise only item and end time are replaced; id, price, counter and claimants are kept, and every other deal is unchanged. |
| DealRegistry.Claim | main.go:45-71 | Every failing outcome leaves the registry as it was. A success needs the deal present, the time not past its end, and the user not a claimant. It raises the counter by exactly one, adds exactly that user, keeps id, item, price and end time, ends within capacity, and touches no other deal. |
| DealRegistry.End | main.go:114-124 | A missing id gives NotFound with no change. Otherwise the result is the stored deal, exactly that key is removed, and every remaining deal is unchanged. |
| DealRegistry.ClaimPrecedence | main.go:45-59 | The first failing check decides the verdict, in the order NotFound, Expired (strictly after the end time), SoldOut, AlreadyClaimed. Each verdict holds exactly when its check fails and all earlier checks pass. |
| DealRegistry.EndRemovesVisibility | main.go:114-115 | After End, Claim, End and a decodable Update on that id all report NotFound. |
| Invariants.ClaimPreservesConsistency | main.go:61-62 | Each deal whose counter equals its number of claimants still does after a Claim, whatever the other deals hold; so a fully consistent registry stays consistent. |
| Invariants.ClaimPreservesCapacity | main.go:51-62 | Each deal within capacity stays within capacity after a Claim, whatever the other deals hold, and the deal a successful Claim touches ends within capacity; so a registry fully within capacity stays so. |
| Invariants.ClaimStaysInInt64 | main.go:51-61 | The increment happens only below the item count, so a counter and item count in Go's 64-bit int range leave the counter in range. |
| Invariants.ClaimantCannotClaimAgain | main.go:56-59 | A user already in the claimant set never gets a successful Claim on that deal, and the registry is unchanged. |
| Invariants.UpdatePreservesConsistency | main.go:90-92 | Each deal whose counter equals its number of claimants still does after an Update, whatever the other deals hold; so a fully consistent registry stays consistent. |
| Invariants.UpdateCanExceedCapacity | main.go:90-92 | An Update with an item count below the counter succeeds and leaves the deal over capacity, with its claimants untouched. |
| Invariants.EndPreservesInvariants | main.go:114-115 | Every deal that remains after End is exactly as it was, so consistency, capacity and key-matches-id carry over to the registry End leaves. |
| Invariants.CreateConsistentIff | main.go:134-143 | The created deal has counter equal to its number of claimants if and only if the body's counter was 0. |
| Invariants.CreateOverwritesExisting | main.go:141-143 | Create under an id already live does not grow the registry, and replaces the old deal and its claimants. |
| Invariants.OperationsPreserveWellKeyed | main.go:141-143 | If every deal is stored under its own id, each of the four operations keeps that so. |
| ClaimSequences.ClaimAll | main.go:51-62 | Over any series of claims on one deal, the final counter equals the initial counter plus the number of successes. The claimant set only grows, the other fields of the deal stay fixed, and other deals are untouched. |
| ClaimSequences.RaceOutcomes | main.go:51-62 | For distinct users, none already a claimant, all in time: attempt i succeeds if and only if i < item - claimed, and every other attempt gets SoldOut. |
| ClaimSequences.RaceExactlyMinSucceed | main.go:51-62 | With counter 0, k >= 0 items and n such users, exactly min(k, n) claims succeed. The counter ends at min(k, n), and all later attempts get SoldOut. |
| ClaimSequences.SuccessesBounded | main.go:51-62 | For any users and times, successes never exceed the items left. After any success the deal is within capacity. |
| ClaimSequences.AtMostOneSuccessPerUser | main.go:56-62 | In any series of claims on one deal, a user succeeds at most once, and never if already a claimant. |
| Serial.Apply | main.go:156-159 | Any handler that does not succeed leaves the registry unchanged. Every handler keeps each deal under its own id. Every handler except Create keeps counters consistent. |
| Serial.Run | main.go:26-29 | Handlers applied in lock order keep each deal under its own id. A run with no successful handler changes nothing. |
| Serial.AbsentStaysAbsent | main.go:45-125 | An id that is not live stays absent until a Create with a decodable body stores under it. Until then, every Claim, End or decodable Update of it reports NotFound. |
| Serial.EndedDealStaysGone | main.go:114-123 | End on a live id returns the stored deal. Every later Claim, End or decodable Update of that id reports NotFound until a Create reuses the id. |
| Serial.SoldOutThenEndScenario | main.go:45-59 | On a sold-out deal still in time, any two claims, including one by a user already claiming, get SoldOut and change nothing. End then returns the deal unchanged, and a later claim is NotFound with an empty registry. |
| Serial.SingleItemScenario | main.go:45-62 | Create a one-item deal with counter 0, then claims by users a, b and a (in time), then End, then a claim by c. This yields Ok (no claimants), Ok (counter 1, claimants {a}), SoldOut, SoldOut, Ok (counter 1), NotFound, and an empty registry. |
| Serial.PastEndTimeScenario | main.go:46-49 | A deal created with its end time already past reports Expired to the first claim. |

## Left out

- HTTP routing, status codes, response writing and `main` (`main.go:152-167`): transport only. The outcome variants stand for the error responses.
- JSON decoding and encoding. A body that fails to decode is the single `Malformed` payload. The `"items"` versus `"item"` field names are not modelled, because the update body is taken as already decoded.
- The id generator's clock format (`main.go:31-33`): the id is a parameter, and nothing assumes it is fresh.
- The mutex and real concurrency: each handler is one atomic transition, and concurrent requests are a sequence in lock order (`Serial.Run`).
- Reading the clock: `now` is a parameter. Go's monotonic clock reading and nanosecond precision become one integer.
- `Price` as a 64-bit float: carried as a `real` that no logic reads. Float rounding is not modelled.
- Logging of encoding and decoding errors.
- Go's 64-bit `int` is not wrapped in the model. Values outside it fail to decode. The only arithmetic, the claim increment, is shown to stay in range (`Invariants.ClaimStaysInInt64`).
