/**
 Response deadlines of the client and the split of one creation budget over two
 attempts (crates/client/src/transport.rs, crates/assistant/src/launch.rs).
 Durations count nanoseconds.
 */
module Budgets {
  import opened Wrappers

  const MS: nat := 1_000_000
  const SECOND: nat := 1_000 * MS
  const MAX_DURATION: nat := 0xFFFF_FFFF_FFFF_FFFF * SECOND + SECOND - 1
  const U32_MAX: nat := 0xFFFF_FFFF

  type Duration = d: int | 0 <= d <= MAX_DURATION
  type U32 = n: int | 0 <= n <= U32_MAX

  const DEFAULT_REQUEST_TIMEOUT: Duration := 5 * SECOND
  const DEDICATED_WAIT_TRANSPORT_HEADROOM: Duration := SECOND
  const SESSION_NEW_REQUEST_BUDGET_MS: U32 := 60 * 60 * 1_000
  const MAX_SESSION_WAIT_MS: U32 := 8_000

  function SaturatingAdd(a: U32, b: U32): (r: U32) {
    if a + b > U32_MAX then U32_MAX else a + b
  }

  function SaturatingSub(a: Duration, b: Duration): (r: Duration) {
    if a < b then 0 else a - b
  }

  function MinDuration(a: Duration, b: Duration): (r: Duration) { if a < b then a else b }

  function MaxDuration(a: Duration, b: Duration): (r: Duration) { if a < b then b else a }

  /** The wire timeout plus headroom, never less than what is configured. */
  function DedicatedRequestTimeout(configured: Duration, wireMs: U32): (r: Duration)
    ensures r >= configured && r >= wireMs * MS + DEDICATED_WAIT_TRANSPORT_HEADROOM
    ensures r == configured || r == wireMs * MS + DEDICATED_WAIT_TRANSPORT_HEADROOM
  {
    var wire := wireMs * MS;
    var bounded := if wire + DEDICATED_WAIT_TRANSPORT_HEADROOM > MAX_DURATION then MAX_DURATION
                   else wire + DEDICATED_WAIT_TRANSPORT_HEADROOM;
    MaxDuration(bounded, configured)
  }

  /** Milliseconds of daemon work one creation may take. */
  function SessionNewBudgetMs(inputAckTimeoutMs: Option<U32>): (r: U32) {
    SaturatingAdd(SESSION_NEW_REQUEST_BUDGET_MS,
                  if inputAckTimeoutMs.Some? then SaturatingAdd(inputAckTimeoutMs.value, MAX_SESSION_WAIT_MS) else 0)
  }

  datatype ClientOptions = ClientOptions(requestTimeout: Duration, explicit: bool)

  /** The client options a connection with an optional explicit timeout gets. */
  function OptionsFor(explicit: Option<Duration>): (o: ClientOptions) {
    if explicit.Some? then ClientOptions(explicit.value, true) else ClientOptions(DEFAULT_REQUEST_TIMEOUT, false)
  }

  /** The response timeout of a lifecycle request: an explicit or nondefault one wins. */
  function LifecycleRequestTimeout(o: ClientOptions, budgetMs: U32): (r: Duration) {
    if o.explicit || o.requestTimeout != DEFAULT_REQUEST_TIMEOUT then o.requestTimeout
    else DedicatedRequestTimeout(o.requestTimeout, budgetMs)
  }

  /** The deadline a caller that splits one creation budget starts from. */
  function SessionNewRequestDeadline(inputAckTimeoutMs: Option<U32>, explicit: Option<Duration>): (r: Duration) {
    if explicit.Some? then explicit.value
    else DedicatedRequestTimeout(DEFAULT_REQUEST_TIMEOUT, SessionNewBudgetMs(inputAckTimeoutMs))
  }

  /**
   The published deadline is the one `session_new` applies, and without an
   explicit timeout it covers the creation budget, the acknowledgement window
   and the headroom whenever these fit 32-bit milliseconds.
   */
  lemma DeadlineIsTheOneSessionNewApplies(ack: Option<U32>, explicit: Option<Duration>)
    ensures SessionNewRequestDeadline(ack, explicit) ==
            LifecycleRequestTimeout(OptionsFor(explicit), SessionNewBudgetMs(ack))
    ensures explicit.None? ==>
            SessionNewRequestDeadline(ack, explicit) == SessionNewBudgetMs(ack) * MS + SECOND
    ensures ack.Some? && ack.value <= U32_MAX - MAX_SESSION_WAIT_MS - SESSION_NEW_REQUEST_BUDGET_MS ==>
            SessionNewBudgetMs(ack) == SESSION_NEW_REQUEST_BUDGET_MS + ack.value + MAX_SESSION_WAIT_MS
    ensures explicit.Some? ==> SessionNewRequestDeadline(ack, explicit) == explicit.value
    ensures explicit.None? && ack.None? ==> SessionNewRequestDeadline(ack, explicit) == 3_601_000_000_000
    ensures explicit.None? && ack.Some? ==>
              SessionNewRequestDeadline(ack, explicit) ==
              if ack.value <= 4_291_359_295 then (3_609_000 + ack.value) * 1_000_000 else 4_294_968_295_000_000
  {
    assert SessionNewBudgetMs(ack) >= SESSION_NEW_REQUEST_BUDGET_MS;
    assert SessionNewBudgetMs(ack) * MS >= SESSION_NEW_REQUEST_BUDGET_MS * MS;
  }

  /** What is kept back for a retry. */
  function Reserve(deadline: Duration): (r: Duration) {
    MinDuration(DEFAULT_REQUEST_TIMEOUT, deadline / 2)
  }

  function FirstShare(deadline: Duration): (r: Duration) {
    SaturatingSub(deadline, Reserve(deadline))
  }

  function RetryShare(deadline: Duration, elapsed: Duration): (r: Duration) {
    SaturatingSub(deadline, elapsed)
  }

  /**
   Whatever the budget: the first attempt gets at least half, a first attempt
   that ends within its share leaves at least the reserve, and what was used
   plus what is left is never more than the budget. A retry is ruled out by
   time alone exactly when the budget is used up.
   */
  lemma BudgetSplit(deadline: Duration, elapsed: Duration)
    ensures 2 * FirstShare(deadline) >= deadline
    ensures FirstShare(deadline) + Reserve(deadline) == deadline
    ensures elapsed <= FirstShare(deadline) ==> RetryShare(deadline, elapsed) >= Reserve(deadline)
    ensures elapsed <= deadline ==> elapsed + RetryShare(deadline, elapsed) == deadline
    ensures RetryShare(deadline, elapsed) == 0 <==> elapsed >= deadline
    ensures deadline >= 2 ==> Reserve(deadline) > 0
    ensures Reserve(deadline) == if deadline >= 10_000_000_000 then 5_000_000_000 else deadline / 2
  {
  }
}
