/** The two health checks: the database check reports what the repository's
    probe says, the service check only looks at the configured name. */
module HealthChecks {
  import opened Common
  import opened Configuration
  import opened Repository
  import opened Validation

  datatype HealthStatus = Unhealthy | Degraded | Healthy

  /** `HealthCheckResult`: a status, its description and the exception caught, if any. */
  datatype HealthCheckResult = HealthCheckResult(
    status: HealthStatus,
    description: string,
    exception: Option<Failure>)

  const DatabaseHealthyText: string := "Database connection is healthy"
  const DatabaseFailedText: string := "Database health check failed"
  const ServiceRunningText: string := "Service is configured and running"
  const ServiceIssuesText: string := "Service has configuration issues"

  /** `DatabaseHealthCheck.CheckHealthAsync` given what the probe returned or threw. */
  function DatabaseHealth(probe: Result<bool>): (r: HealthCheckResult)
    ensures r.status == Healthy <==> probe == Ok(true)
    ensures r.status == Degraded <==> probe == Ok(false)
    ensures r.status == Unhealthy <==> probe.Err?
    ensures r.exception == (if probe.Err? then Some(probe.failure) else None)
    ensures r.description == if probe == Ok(true) then DatabaseHealthyText else DatabaseFailedText
  {
    match probe
    case Ok(isHealthy) =>
      if isHealthy then HealthCheckResult(Healthy, DatabaseHealthyText, None)
      else HealthCheckResult(Degraded, DatabaseFailedText, None)
    case Err(failure) => HealthCheckResult(Unhealthy, DatabaseFailedText, Some(failure))
  }

  /** `ServiceHealthCheck.CheckHealthAsync`: healthy when a service name is set. */
  function ServiceHealth(config: BlueprintConfiguration): (r: HealthCheckResult)
    ensures r.exception == None && r.status != Unhealthy
    ensures r.status == Healthy <==> config.serviceName != ""
    ensures r.description == if config.serviceName != "" then ServiceRunningText else ServiceIssuesText
  {
    if config.serviceName != "" then HealthCheckResult(Healthy, ServiceRunningText, None)
    else HealthCheckResult(Degraded, ServiceIssuesText, None)
  }

  /** Every configuration the validator accepts is reported healthy. */
  lemma ValidConfigurationIsHealthy(config: BlueprintConfiguration)
    requires Verdict(ConfigurationPrefix, FailureMessages(BlueprintChecks(config))) == Pass
    ensures ServiceHealth(config).status == Healthy
    ensures ServiceHealth(config).description == ServiceRunningText
  {
    FourChecks(BlueprintChecks(config));
  }

  /** The converse fails: the service check ignores every setting but the name,
      so a configuration the validator refuses can still be healthy. */
  lemma HealthyConfigurationMayBeInvalid(config: BlueprintConfiguration)
    requires config == DefaultBlueprintConfiguration().(retryAttempts := -1)
    ensures ServiceHealth(config).status == Healthy
    ensures Verdict(ConfigurationPrefix, FailureMessages(BlueprintChecks(config))).Fail?
  {
    FourChecks(BlueprintChecks(config));
  }

  /** The database health check, bound to a repository. */
  class DatabaseHealthCheck {
    const repository: BlueprintRepository

    constructor (repository: BlueprintRepository)
      ensures this.repository == repository
    {
      this.repository := repository;
    }

    /** The repository's probe never throws, so this check is never Unhealthy. */
    method CheckHealthAsync() returns (result: HealthCheckResult)
      modifies repository`calls
      ensures repository.calls == old(repository.calls) + [HealthCheck]
      ensures result == DatabaseHealth(Ok(repository.reachable))
      ensures result.status != Unhealthy && result.exception == None
    {
      var isHealthy := repository.HealthCheckAsync();
      result := DatabaseHealth(Ok(isHealthy));
    }
  }
}
