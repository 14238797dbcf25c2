/**
 The deadline value type of a subscription contract. An expiration is a point
 on one of the chain's two clocks -- the block height, or the block time in
 seconds since the UNIX epoch -- or the absence of any deadline. At the given
 point and after, the expiration is considered expired.

 All operations are pure. Expiry, time left and renewal read a
 caller-supplied block reference; none changes the value it is given.
 */
module Expirations {

  /** Largest value of Rust's `u64`. */
  const U64_MAX: nat := 0xFFFF_FFFF_FFFF_FFFF

  /** Rust's `u64`. Arithmetic is unbounded here, so every operation that could
      leave the range carries a precondition instead of wrapping. */
  type u64 = n: nat | n <= U64_MAX

  /** The two fields of the runtime's block description that this logic reads.
      The chain identifier is never consulted and is not modelled. */
  datatype BlockInfo = BlockInfo(height: u64, time: u64)

  datatype Expiration =
    | AtHeight(height: u64)  // deadline on the height clock
    | AtTime(time: u64)      // deadline on the clock of UNIX seconds
    | Never                  // no deadline

  /** What `time_left` answers for an expiration that never expires. */
  const NEVER_TIME_LEFT: u64 := 1_000_000_000_000_000_000

  /** True for the two variants that carry a deadline. */
  predicate HasDeadline(e: Expiration) {
    !e.Never?
  }

  /** The deadline, read on whichever clock the variant uses. */
  function Deadline(e: Expiration): u64
    requires HasDeadline(e)
  {
    match e
    case AtHeight(h) => h
    case AtTime(t) => t
  }

  /** The block's reading on the clock that `e` is measured against. */
  function Now(e: Expiration, block: BlockInfo): u64
    requires HasDeadline(e)
  {
    if e.AtHeight? then block.height else block.time
  }

  /** The expiration `Default` produces. */
  function Default(): (e: Expiration)
    ensures !HasDeadline(e)
  {
    Never
  }

  /** Whether the deadline has been reached at `block`. */
  function IsExpired(e: Expiration, block: BlockInfo): (expired: bool)
    ensures expired <==> HasDeadline(e) && Deadline(e) <= Now(e, block)
  {
    match e
    case AtHeight(h) => block.height >= h
    case AtTime(t) => block.time >= t
    case Never => false
  }

  /** Distance from `block` to the deadline on the deadline's own clock, 0 once
      expired, and a fixed sentinel when there is no deadline. The result type
      being `u64` is what shows that neither subtraction underflows. */
  function TimeLeft(e: Expiration, block: BlockInfo): (left: u64)
    ensures !HasDeadline(e) ==> left == NEVER_TIME_LEFT
    ensures HasDeadline(e) ==> (left == 0 <==> IsExpired(e, block))
    ensures HasDeadline(e) && !IsExpired(e, block) ==> Now(e, block) + left == Deadline(e)
  {
    match e
    case AtTime(t) => if block.time >= t then 0 else t - block.time
    case AtHeight(h) => if block.height >= h then 0 else h - block.height
    case Never => NEVER_TIME_LEFT
  }

  /** The length of one renewal: `duration` units, `frequency` times. */
  function Period(duration: u64, frequency: u64): nat {
    duration * frequency
  }

  /** The point a renewal starts from: the later of the deadline and now. */
  function Anchor(e: Expiration, block: BlockInfo): u64
    requires HasDeadline(e)
  {
    if Deadline(e) <= Now(e, block) then Now(e, block) else Deadline(e)
  }

  /** Whether extending `e` by `extension` at `block` stays within `u64`.
      A `Never` is returned unchanged, so it involves no arithmetic. */
  predicate RenewalFits(e: Expiration, block: BlockInfo, extension: nat) {
    HasDeadline(e) ==> Anchor(e, block) + extension <= U64_MAX
  }

  /** Renews the deadline by `duration * frequency`, counted from now when the
      deadline has already lapsed and from the deadline otherwise. */
  function AddTime(e: Expiration, block: BlockInfo, duration: u64, frequency: u64): (r: Expiration)
    requires RenewalFits(e, block, Period(duration, frequency))
    ensures r.AtHeight? == e.AtHeight? && r.AtTime? == e.AtTime? && r.Never? == e.Never?
    ensures HasDeadline(e) ==> Deadline(r) == Anchor(e, block) + Period(duration, frequency)
    ensures HasDeadline(e) ==> Deadline(e) <= Deadline(r) && Now(e, block) <= Deadline(r)
    ensures HasDeadline(e) && Period(duration, frequency) > 0 ==> !IsExpired(r, block)
  {
    match e
    case AtTime(t) =>
      if block.time >= t then AtTime(block.time + duration * frequency)
      else AtTime(t + duration * frequency)
    case AtHeight(h) =>
      if block.height >= h then AtHeight(block.height + duration * frequency)
      else AtHeight(h + duration * frequency)
    case Never => Never
  }

  /** The default expiration never expires and has the sentinel time left. */
  lemma DefaultNeverExpires(block: BlockInfo)
    ensures Default() == Never
    ensures !IsExpired(Default(), block)
    ensures TimeLeft(Default(), block) == NEVER_TIME_LEFT
  {
  }

  /** The deadline instant itself counts as expired; the instant before does not. */
  lemma ExpiredAtDeadline(e: Expiration, block: BlockInfo)
    requires HasDeadline(e)
    ensures Now(e, block) == Deadline(e) ==> IsExpired(e, block)
    ensures Now(e, block) + 1 == Deadline(e) ==> !IsExpired(e, block)
  {
  }

  /** Once expired, an expiration stays expired at every block that is no
      earlier on the deadline's own clock; the other clock plays no part. */
  lemma ExpiryIsMonotone(e: Expiration, earlier: BlockInfo, later: BlockInfo)
    requires HasDeadline(e) && Now(e, earlier) <= Now(e, later)
    requires IsExpired(e, earlier)
    ensures IsExpired(e, later)
  {
  }

  /** `TimeLeft` is exactly how far the clock must advance before the
      expiration is expired: among blocks no earlier than `block`, the expired
      ones are those at least `TimeLeft` further along. */
  lemma TimeLeftIsDistanceToExpiry(e: Expiration, block: BlockInfo, later: BlockInfo)
    requires HasDeadline(e)
    requires Now(e, block) <= Now(e, later)
    ensures IsExpired(e, later) <==> Now(e, later) - Now(e, block) >= TimeLeft(e, block)
  {
  }

  /** A renewal adds exactly one period to the time left at the same block,
      whether or not the deadline had lapsed. */
  lemma RenewalExtendsTimeLeft(e: Expiration, block: BlockInfo, duration: u64, frequency: u64)
    requires HasDeadline(e)
    requires RenewalFits(e, block, Period(duration, frequency))
    ensures TimeLeft(AddTime(e, block, duration, frequency), block)
            == TimeLeft(e, block) + Period(duration, frequency)
  {
  }

  /** `k` successive renewals of `e` at the same block. */
  function RenewTimes(e: Expiration, block: BlockInfo, duration: u64, frequency: u64, k: nat): (r: Expiration)
    requires RenewalFits(e, block, k * Period(duration, frequency))
    ensures r.AtHeight? == e.AtHeight? && r.AtTime? == e.AtTime? && r.Never? == e.Never?
    ensures HasDeadline(e) && k > 0 ==> Deadline(r) == Anchor(e, block) + k * Period(duration, frequency)
    decreases k
  {
    if k == 0 then e
    else
      var p := Period(duration, frequency);
      assert (k - 1) * p + p == k * p;
      var prev := RenewTimes(e, block, duration, frequency, k - 1);
      AddTime(prev, block, duration, frequency)
  }

  /** Renewing `k` times at one block equals renewing once with `k` times the
      frequency: only the first renewal can restart from now, every later one
      compounds from the deadline it produced. */
  lemma {:induction false} RepeatedRenewalCompounds(e: Expiration, block: BlockInfo, duration: u64, frequency: u64, k: nat)
    requires 0 < k && k * frequency <= U64_MAX
    requires RenewalFits(e, block, k * Period(duration, frequency))
    ensures Period(duration, k * frequency) == k * Period(duration, frequency)
    ensures RenewTimes(e, block, duration, frequency, k) == AddTime(e, block, duration, k * frequency)
  {
    assert duration * (k * frequency) == k * (duration * frequency);
  }

  /** The scenarios the module's unit test exercises. */
  lemma UnitScenarios()
    ensures IsExpired(AtHeight(1000), BlockInfo(1000, 1000000))
    ensures !IsExpired(AtHeight(1500), BlockInfo(1000, 1000000))
    ensures IsExpired(AtHeight(1500), BlockInfo(2000, 2000000))
    ensures !IsExpired(Default(), BlockInfo(2000, 2000000))
    ensures IsExpired(AtTime(1000000), BlockInfo(1000, 1000000))
    ensures !IsExpired(AtTime(1500000), BlockInfo(1000, 1000000))
    ensures IsExpired(AtTime(1500000), BlockInfo(2000, 2000000))
    ensures TimeLeft(AtTime(1000000), BlockInfo(2000, 2000000)) == 0
  {
  }

  /** A renewal of a lapsed time deadline, which restarts from now. */
  lemma RenewalScenario()
    ensures AddTime(AtTime(1000000), BlockInfo(1000, 1000000), 100, 2) == AtTime(1000200)
  {
  }
}
