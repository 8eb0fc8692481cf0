/** Named constants (internal/config/constants.go), durations in nanoseconds. */
module Config {
  const MILLISECOND := 1_000_000
  const SECOND := 1_000_000_000

  const POLL_CYCLE_TIMEOUT := 25 * SECOND
  const PUBLISH_PHASE_BUDGET := 15 * SECOND
  const PER_PUBLISH_PUT_TIMEOUT := 3 * SECOND
  const PUBLISH_PUT_MAX_RETRIES := 1
  const PUBLISH_PUT_RETRY_DELAY := 200 * MILLISECOND
  const PUBLISH_CONCURRENCY := 4

  const HTTP_RETRY_MAX_ATTEMPTS := 3
  const HTTP_RETRY_BASE_DELAY := 500 * MILLISECOND
  const HTTP_RETRY_MAX_DELAY := 2000 * MILLISECOND
  const HTTP_RETRY_NEXT_ATTEMPT_FLOOR := 250 * MILLISECOND

  const ALERTS_FETCH_BUDGET_PERCENT := 50
  const SPC_FETCH_BUDGET_PERCENT := 20

  const CYCLE_SLACK := 5 * SECOND
  const CYCLE_FLOOR := 1 * SECOND
  const PHASE_FLOOR := 1 * SECOND
}
