/** Limits that several parts of the program share. */
module Limits {
  /** The bytes of a page that are read first. */
  const PREFIX_BYTES: nat := 8192

  /** Requests that may be outstanding at a time. */
  const CONCURRENCY: nat := 32

  /** Ordered reads that one simulation covers. */
  const MAX_READS: nat := 64
}
