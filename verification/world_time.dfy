/** Widths and the interval cap shared by the scheduler and the Hakoniwa stage. */
module WorldTime {
  import opened Numbers

  /** DEVICE_CLOCK_MAX_INTERVAL: no device event is scheduled. */
  const NO_INTERVAL: nat := TWO_TO_64 - 1

  /** cap_skip_interval: a skip must not jump past the world time; "no event" is left alone. */
  function Cap(lead: nat, interval: nat): (r: nat)
    ensures interval != NO_INTERVAL ==> r <= lead && r <= interval
    ensures interval == NO_INTERVAL ==> r == NO_INTERVAL
    ensures r == interval || r == lead
  {
    if interval != NO_INTERVAL && lead < interval then lead else interval
  }
}
