/** The resolved configuration a synchronizer is built from (Veeam/Repository.cs). */
module Configuration {

  /** A duration counted in 100-nanosecond ticks, as System.TimeSpan stores it. */
  datatype TimeSpan = TimeSpan(ticks: int)

  const TicksPerMinute: int := 600_000_000

  /** TimeSpan.FromMinutes for a whole number of minutes. */
  function FromMinutes(minutes: int): TimeSpan
  {
    TimeSpan(minutes * TicksPerMinute)
  }

  /** The record carrying the three directories and the check interval. */
  datatype Repository = Repository(
    sourceDirectory: string,
    replicaDirectory: string,
    logDirectory: string,
    checkInterval: TimeSpan)
}
