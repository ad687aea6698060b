/** The configured capacity of every time slot, `MAX_CAPACITY`. A configuration that cannot be
    loaded counts as one without `maxCapacity`. */
module Config {
  import opened Wrappers

  /** `config.maxCapacity || 10`: a missing value, and equally a configured `0` (falsy in
      JavaScript), falls back to ten seats; any other configured number is kept. */
  function MaxCapacity(configured: Option<int>): (m: int)
    ensures m != 0
    ensures configured.Some? && configured.value != 0 ==> m == configured.value
    ensures configured == None || configured == Some(0) ==> m == 10
  {
    match configured
    case Some(v) => if v != 0 then v else 10
    case None => 10
  }
}
