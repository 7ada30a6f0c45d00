/** DATE and TIMESTAMP between DuckDB's 1970 epoch and PostgreSQL's 2000 epoch. */
module DateTime {
  import opened Wrappers
  import opened Bytes

  const POSTGRES_EPOCH_JDATE := 2451545
  const DUCKDB_EPOCH_DATE := 2440588
  const POSTGRES_MIN_DATE := -2440589
  const POSTGRES_MAX_DATE := 2145042906
  const POSTGRES_DATE_INF := 2147483647
  const POSTGRES_DATE_NINF := 2147483648
  const POSTGRES_EPOCH_TS := 211813488000000000
  const DUCKDB_EPOCH_TS := 210866803200000000
  const POSTGRES_MIN_TIMESTAMP := -211813488000000000
  const POSTGRES_END_TIMESTAMP := 9223371331200000000
  const POSTGRES_INFINITY := 9223372036854775807
  const POSTGRES_NINFINITY := 9223372036854775808
  const TWO32 := 0x1_0000_0000
  const TWO64 := 0x1_0000_0000_0000_0000
  const INT64_MAX := 0x7FFF_FFFF_FFFF_FFFF

  // DuckDB's date_t and timestamp_t infinities: the extreme values of the type, symmetric
  const DATE_INFINITY := 2147483647
  const DATE_NINFINITY := -2147483647
  const TIMESTAMP_INFINITY := INT64_MAX
  const TIMESTAMP_NINFINITY := -INT64_MAX

  /** DuckDBDateToPostgres: a uint32_t. */
  function DateToPostgres(days: int): Result<nat> {
    if days == DATE_INFINITY then Ok(POSTGRES_DATE_INF)
    else if days == DATE_NINFINITY then Ok(POSTGRES_DATE_NINF)
    else if days <= POSTGRES_MIN_DATE || days >= POSTGRES_MAX_DATE then Err(OutOfRange)
    else Ok((days + DUCKDB_EPOCH_DATE - POSTGRES_EPOCH_JDATE) % TWO32)
  }

  /** ReadDate on the 32-bit word: the sum is unsigned, its conversion to int32_t wraps. */
  function DateFromPostgres(jd: nat): (days: int) {
    if jd == POSTGRES_DATE_INF then DATE_INFINITY
    else if jd == POSTGRES_DATE_NINF then DATE_NINFINITY
    else
      var u := (jd + POSTGRES_EPOCH_JDATE - DUCKDB_EPOCH_DATE) % TWO32;
      if u <= 0x7FFF_FFFF then u else u - TWO32
  }

  /** Every date the writer accepts is read back; the only dates with the two
      infinity codes are the infinities. */
  lemma DateRoundTrip(days: int)
    requires DateToPostgres(days).Ok?
    ensures DateToPostgres(days).value < TWO32
    ensures DateFromPostgres(DateToPostgres(days).value) == days
    ensures DateToPostgres(days).value == POSTGRES_DATE_INF <==> days == DATE_INFINITY
    ensures DateToPostgres(days).value == POSTGRES_DATE_NINF <==> days == DATE_NINFINITY
  {
    var d := days + DUCKDB_EPOCH_DATE - POSTGRES_EPOCH_JDATE;
    assert -TWO32 < d < TWO32;
    assert days != DATE_INFINITY && days != DATE_NINFINITY ==> -2451545 <= d < 2145042906 - 10957;
  }

  /** DuckDBTimestampToPostgres: a uint64_t. TrySubtract fails when the int64_t difference overflows. */
  function TimestampToPostgres(micros: int): Result<nat> {
    var usec := micros - (POSTGRES_EPOCH_TS - DUCKDB_EPOCH_TS);
    if micros == TIMESTAMP_INFINITY then Ok(POSTGRES_INFINITY)
    else if micros == TIMESTAMP_NINFINITY then Ok(POSTGRES_NINFINITY)
    else if !(-INT64_MAX - 1 <= usec <= INT64_MAX) then Err(OutOfRange)
    else if usec < POSTGRES_MIN_TIMESTAMP || usec >= POSTGRES_END_TIMESTAMP then Err(OutOfRange)
    else Ok(usec % TWO64)
  }

  /** ReadTimestamp on the 64-bit word. */
  function TimestampFromPostgres(usec: nat): Result<int> {
    var s := if usec <= INT64_MAX then usec else usec - TWO64;
    var t := s + (POSTGRES_EPOCH_TS - DUCKDB_EPOCH_TS);
    if usec == POSTGRES_INFINITY then Ok(TIMESTAMP_INFINITY)
    else if usec == POSTGRES_NINFINITY then Ok(TIMESTAMP_NINFINITY)
    else if !(-INT64_MAX - 1 <= t <= INT64_MAX) then Err(OutOfRange)
    else if t == TIMESTAMP_INFINITY || t == TIMESTAMP_NINFINITY then Err(OutOfRange)
    else Ok(t)
  }

  /** The same for timestamps, over every int64_t. */
  lemma TimestampRoundTrip(micros: int)
    requires -INT64_MAX - 1 <= micros <= INT64_MAX
    requires TimestampToPostgres(micros).Ok?
    ensures TimestampToPostgres(micros).value < TWO64
    ensures TimestampFromPostgres(TimestampToPostgres(micros).value) == Ok(micros)
    ensures TimestampToPostgres(micros).value == POSTGRES_INFINITY <==> micros == TIMESTAMP_INFINITY
    ensures TimestampToPostgres(micros).value == POSTGRES_NINFINITY <==> micros == TIMESTAMP_NINFINITY
  {
    var usec := micros - (POSTGRES_EPOCH_TS - DUCKDB_EPOCH_TS);
    assert -TWO64 < usec < TWO64;
  }
}
