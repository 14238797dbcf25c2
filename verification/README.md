# Expiration — a Dafny model

This project models the `Expiration` value type of a CosmWasm subscription
contract (`src/expiration.rs`). An expiration is a deadline on one of the
chain's two clocks: `AtHeight(h)` is a block height and `AtTime(t)` is a UNIX
timestamp in seconds. `Never` means there is no deadline. `is_expired`, `time_left` and
`add_time` read a caller-supplied block reference; none of the operations
changes the value it is given:

- `is_expired` tells whether the deadline has been reached.
- `time_left` gives the distance to the deadline, or a sentinel for `Never`.
- `add_time` renews the deadline by `duration * frequency`.
- `Default` yields `Never`, and `Display` renders a value as text.

Files:

- `expiration.dfy` (module `Expirations`) holds the data model, the operations and the lemmas relating them.
- `decimal.dfy` (module `Decimal`) renders a natural number in decimal, as Rust's `{}` does, and proves the rendering can be read back.
- `display.dfy` (module `ExpirationDisplay`) holds the `Display` text and proves that distinct values render differently.

Rust's `u64` is the subset type `u64` of `nat`, bounded by `2^64 - 1`.
The additions and the multiplication in `add_time` are unchecked in the
source: they panic or wrap depending on the build profile. The model does
neither. `AddTime` instead requires `RenewalFits`, which says that the later
of the deadline and now, plus `duration * frequency`, is at most `2^64 - 1`.
`Never` involves no arithmetic, so it requires nothing.

The subtractions in `time_left` return `u64`. Dafny therefore checks that they
cannot underflow under the comparison that guards them.

The block reference is the record `BlockInfo(height, time)`. The chain
identifier of the runtime's block description is never read, so it is not
part of the model.

## Model

| member | source | states |
|---|---|---|
| `Expirations.Default` | src/expiration.rs:31-35 | the default expiration is the variant without a deadline |
| `Expirations.IsExpired` | src/expiration.rs:43-49 | an expiration is expired exactly when it has a deadline and the block's reading on that deadline's clock has reached it (non-strict, so the deadline instant counts); `Never` is never expired |
| `Expirations.TimeLeft` | src/expiration.rs:70-88 | for a deadline, the result is 0 exactly when expired; otherwise now plus the result equals the deadline, without underflow; for `Never` it is the sentinel 10^18 whatever the block |
| `Expirations.AddTime` | src/expiration.rs:50-68 | the variant is preserved (`Never` stays `Never`); the new deadline is `max(deadline, now) + duration * frequency`, so it is at least the old deadline and at least now, and it is not expired at the same block when the period is positive |
| `Expirations.DefaultNeverExpires` | src/expiration.rs:31-35 | the default is `Never`, which is not expired at any block and has the sentinel time left |
| `Expirations.ExpiredAtDeadline` | src/expiration.rs:45-46 | a block exactly at the deadline is expired, and a block one unit before it is not |
| `Expirations.ExpiryIsMonotone` | src/expiration.rs:43-49 | an expiration expired at a block stays expired at every block whose reading on the deadline's own clock (height or time) is greater or equal |
| `Expirations.TimeLeftIsDistanceToExpiry` | src/expiration.rs:70-85 | among blocks no earlier on the deadline's clock, the expired ones are exactly those at least `TimeLeft` further along |
| `Expirations.RenewalExtendsTimeLeft` | src/expiration.rs:52-65 | renewing adds exactly `duration * frequency` to the time left at the same block, whether or not the deadline had lapsed |
| `Expirations.RenewTimes` | src/expiration.rs:52-65 | after `k > 0` successive renewals at one block, the deadline is `max(deadline, now) + k * duration * frequency`, with the variant preserved |
| `Expirations.RepeatedRenewalCompounds` | src/expiration.rs:53-63 | `k` successive renewals at one block equal a single renewal with `k` times the frequency: only the first renewal can restart from now |
| `Expirations.UnitScenarios` | src/expiration.rs:95-121 | the unit test's expectations at heights 1000 and 2000 hold: the deadline instant is expired, later deadlines are not, `Never` is not, and an expired time deadline has 0 time left |
| `Expirations.RenewalScenario` | src/expiration.rs:52-54 | renewing the lapsed `AtTime(1000000)` at time 1000000 with duration 100 and frequency 2 restarts from now and gives `AtTime(1000200)` |
| `Decimal.Render` | src/expiration.rs:23-24 | the payload is printed as a non-empty digit string whose first digit is `0` only for the number 0 |
| `Decimal.ParseRender` | src/expiration.rs:23-24 | reading the printed digits back yields the number printed |
| `Decimal.RenderInjective` | src/expiration.rs:23-24 | distinct numbers print differently |
| `ExpirationDisplay.Display` | src/expiration.rs:20-28 | the height and time texts are their wording (`expiration height: ` / `expiration time: `) followed by the payload's decimal digits, `Never` is exactly `expiration: never`, and no text begins with two variants' wordings |
| `ExpirationDisplay.DisplayInjective` | src/expiration.rs:20-28 | two expirations with the same text are equal |

## Left out

- Serialisation and schema derives (`serde`, `schemars`): framework code. The untagged encoding is ambiguous between `AtHeight(n)` and `AtTime(n)`, so no round trip is claimed.
- `Clone`, `Copy`, `PartialEq` and `Debug` derives: Dafny datatypes are immutable values with structural equality.
- The runtime's block description is external. Only its `height` and `time` fields are modelled. `chain_id` is never read.
- The subscription record (`src/subscription.rs`): a passive two-field record with no logic. `expiration.rs` never refers to it; `add_time` takes a bare `frequency: u64`.
- `Expirations.AddTime`: Rust's overflow behaviour depends on the build profile (panic or wrap-around). It is replaced by the `RenewalFits` precondition. Overflowing inputs are excluded rather than modelled.
- `Decimal.Render`: the `fmt::Formatter` plumbing and `write!`'s error result are not modelled. Only the text produced is.
