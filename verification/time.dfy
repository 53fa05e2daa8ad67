/** Clock values. The model never computes with them: they are read from the
    clock by the caller and passed in as opaque values. */
module Time {

  /** A java.time.LocalDateTime read from LocalDateTime.now(). */
  type LocalDateTime = int

  /** A java.time.Instant, seen through Instant.toEpochMilli(). */
  type EpochMillis = int
}
