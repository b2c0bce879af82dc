/** The two configuration records and their defaults. */
module Configuration {
  import opened Common

  datatype BlueprintConfiguration = BlueprintConfiguration(
    serviceName: string,
    retryAttempts: Int32,
    requestTimeout: TimeSpan,
    maxConcurrentRequests: Int32)

  datatype DatabaseConfiguration = DatabaseConfiguration(
    connectionString: string,
    commandTimeout: Int32,
    maxPoolSize: Int32,
    connectionIdleTimeout: TimeSpan)

  /** `new BlueprintConfiguration()`. */
  function DefaultBlueprintConfiguration(): (c: BlueprintConfiguration)
    ensures c.serviceName == "BlueprintService" && c.retryAttempts == 3
    ensures c.requestTimeout == 30 * TicksPerSecond && c.maxConcurrentRequests == 100
  {
    BlueprintConfiguration("BlueprintService", 3, 30 * TicksPerSecond, 100)
  }

  /** `new DatabaseConfiguration()`: there is no default connection string. */
  function DefaultDatabaseConfiguration(): (c: DatabaseConfiguration)
    ensures c.connectionString == "" && c.commandTimeout == 30
    ensures c.maxPoolSize == 100 && c.connectionIdleTimeout == 5 * TicksPerMinute
  {
    DatabaseConfiguration("", 30, 100, 5 * TicksPerMinute)
  }
}
