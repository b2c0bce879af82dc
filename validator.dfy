/** ConfigurationValidator: each overload runs its checks in order, collects one
    message per failing check, and throws one ArgumentException carrying all of
    them. A thrown exception is the `Fail` outcome. */
module Validation {
  import opened Common
  import opened Configuration
  import opened Formatting

  const ConfigurationPrefix: string := "Invalid configuration: "
  const DatabaseConfigurationPrefix: string := "Invalid database configuration: "
  const Separator: string := ", "

  /** One `if (...) { errors.Add(...); }` of a validator. */
  datatype Check = Check(failed: bool, message: string)

  /** The four checks of the blueprint overload, in order; each fails on the
      condition the source tests. */
  function BlueprintChecks(config: BlueprintConfiguration): (checks: seq<Check>)
    ensures |checks| == 4
    ensures checks[0].failed <==> config.serviceName == ""
    ensures checks[1].failed <==> config.retryAttempts < 0
    ensures checks[2].failed <==> config.requestTimeout <= 0
    ensures checks[3].failed <==> config.maxConcurrentRequests <= 0
  {
    [ Check(config.serviceName == "", "ServiceName cannot be empty"),
      Check(config.retryAttempts < 0,
            "RetryAttempts must be non-negative, but was " + FormatInt(config.retryAttempts)),
      Check(config.requestTimeout <= 0,
            "RequestTimeout must be positive, but was " + FormatTimeSpan(config.requestTimeout)),
      Check(config.maxConcurrentRequests <= 0,
            "MaxConcurrentRequests must be positive, but was " + FormatInt(config.maxConcurrentRequests)) ]
  }

  /** The four checks of the database overload, in order. */
  function DatabaseChecks(config: DatabaseConfiguration): (checks: seq<Check>)
    ensures |checks| == 4
    ensures checks[0].failed <==> config.connectionString == ""
    ensures checks[1].failed <==> config.commandTimeout <= 0
    ensures checks[2].failed <==> config.maxPoolSize <= 0
    ensures checks[3].failed <==> config.connectionIdleTimeout <= 0
  {
    [ Check(config.connectionString == "", "ConnectionString cannot be empty"),
      Check(config.commandTimeout <= 0,
            "CommandTimeout must be positive, but was " + FormatInt(config.commandTimeout)),
      Check(config.maxPoolSize <= 0,
            "MaxPoolSize must be positive, but was " + FormatInt(config.maxPoolSize)),
      Check(config.connectionIdleTimeout <= 0,
            "ConnectionIdleTimeout must be positive, but was " + FormatTimeSpan(config.connectionIdleTimeout)) ]
  }

  /** What one check contributes. */
  function Reported(check: Check): seq<string> {
    if check.failed then [check.message] else []
  }

  /** The messages of the failing checks, in check order. */
  function FailureMessages(checks: seq<Check>): seq<string> {
    if checks == [] then [] else Reported(checks[0]) + FailureMessages(checks[1..])
  }

  /** Nothing is reported exactly when no check fails, and never more messages
      than checks. */
  lemma {:induction false} FailureMessagesEmptyIffNoneFailed(checks: seq<Check>)
    ensures |FailureMessages(checks)| <= |checks|
    ensures FailureMessages(checks) == [] <==> forall i :: 0 <= i < |checks| ==> !checks[i].failed
  {
    if checks != [] {
      FailureMessagesEmptyIffNoneFailed(checks[1..]);
      assert forall i :: 0 < i < |checks| ==> checks[i] == checks[1..][i - 1];
    }
  }

  /** Four checks report, in order, what each of them contributes. */
  lemma FourChecks(checks: seq<Check>)
    requires |checks| == 4
    ensures FailureMessages(checks) == Reported(checks[0]) + Reported(checks[1]) + Reported(checks[2]) + Reported(checks[3])
  {
    var (a, b, c, d) := (Reported(checks[0]), Reported(checks[1]), Reported(checks[2]), Reported(checks[3]));
    assert checks[3..][1..] == [];
    assert FailureMessages(checks[3..]) == d;
    assert checks[2..][1..] == checks[3..];
    assert FailureMessages(checks[2..]) == c + d;
    assert checks[1..][1..] == checks[2..];
    assert FailureMessages(checks[1..]) == b + (c + d);
    assert FailureMessages(checks) == a + (b + (c + d));
    assert a + (b + (c + d)) == a + b + c + d;
  }

  /** Throws when there are messages: the prefix followed by the messages joined with ", ". */
  function Verdict(prefix: string, errors: seq<string>): (r: Outcome)
    ensures r.Pass? <==> errors == []
    ensures r.Fail? ==> r.failure.ArgumentError? && prefix <= r.failure.message
    ensures r.Fail? ==> r.failure.message[|prefix|..] == Join(errors, Separator)
  {
    if errors == [] then Pass else Fail(ArgumentError(prefix + Join(errors, Separator)))
  }

  /** The conditions the blueprint overload accepts, stated independently of the checks. */
  predicate IsValidBlueprintConfiguration(config: BlueprintConfiguration) {
    config.serviceName != "" && config.retryAttempts >= 0 && config.requestTimeout > 0
    && config.maxConcurrentRequests > 0
  }

  predicate IsValidDatabaseConfiguration(config: DatabaseConfiguration) {
    config.connectionString != "" && config.commandTimeout > 0 && config.maxPoolSize > 0
    && config.connectionIdleTimeout > 0
  }

  /** `ValidateConfiguration(BlueprintConfiguration)`. */
  method ValidateConfiguration(config: BlueprintConfiguration) returns (outcome: Outcome)
    ensures outcome == Verdict(ConfigurationPrefix, FailureMessages(BlueprintChecks(config)))
  {
    var errors: seq<string> := [];
    var message := "ServiceName cannot be empty";
    if config.serviceName == "" {
      errors := errors + [message];
    }
    ghost var reported := Reported(Check(config.serviceName == "", message));
    assert errors == reported;
    message := "RetryAttempts must be non-negative, but was " + FormatInt(config.retryAttempts);
    if config.retryAttempts < 0 {
      errors := errors + [message];
    }
    reported := reported + Reported(Check(config.retryAttempts < 0, message));
    assert errors == reported;
    message := "RequestTimeout must be positive, but was " + FormatTimeSpan(config.requestTimeout);
    if config.requestTimeout <= 0 {
      errors := errors + [message];
    }
    reported := reported + Reported(Check(config.requestTimeout <= 0, message));
    assert errors == reported;
    message := "MaxConcurrentRequests must be positive, but was " + FormatInt(config.maxConcurrentRequests);
    if config.maxConcurrentRequests <= 0 {
      errors := errors + [message];
    }
    reported := reported + Reported(Check(config.maxConcurrentRequests <= 0, message));
    assert errors == reported;
    FourChecks(BlueprintChecks(config));
    if |errors| != 0 {
      return Fail(ArgumentError(ConfigurationPrefix + Join(errors, Separator)));
    }
    outcome := Pass;
  }

  /** `ValidateConfiguration(DatabaseConfiguration)`. */
  method ValidateDatabaseConfiguration(config: DatabaseConfiguration) returns (outcome: Outcome)
    ensures outcome == Verdict(DatabaseConfigurationPrefix, FailureMessages(DatabaseChecks(config)))
  {
    var errors: seq<string> := [];
    var message := "ConnectionString cannot be empty";
    if config.connectionString == "" {
      errors := errors + [message];
    }
    ghost var reported := Reported(Check(config.connectionString == "", message));
    assert errors == reported;
    message := "CommandTimeout must be positive, but was " + FormatInt(config.commandTimeout);
    if config.commandTimeout <= 0 {
      errors := errors + [message];
    }
    reported := reported + Reported(Check(config.commandTimeout <= 0, message));
    assert errors == reported;
    message := "MaxPoolSize must be positive, but was " + FormatInt(config.maxPoolSize);
    if config.maxPoolSize <= 0 {
      errors := errors + [message];
    }
    reported := reported + Reported(Check(config.maxPoolSize <= 0, message));
    assert errors == reported;
    message := "ConnectionIdleTimeout must be positive, but was " + FormatTimeSpan(config.connectionIdleTimeout);
    if config.connectionIdleTimeout <= 0 {
      errors := errors + [message];
    }
    reported := reported + Reported(Check(config.connectionIdleTimeout <= 0, message));
    assert errors == reported;
    FourChecks(DatabaseChecks(config));
    if |errors| != 0 {
      return Fail(ArgumentError(DatabaseConfigurationPrefix + Join(errors, Separator)));
    }
    outcome := Pass;
  }

  /** Two messages are joined by one ", " after the prefix. */
  lemma VerdictOfTwo(prefix: string, first: string, second: string)
    ensures Verdict(prefix, [first, second]) == Fail(ArgumentError(prefix + (first + Separator + second)))
  {
    JoinPair(first, second, Separator);
  }

  lemma FirstAndThirdFail(checks: seq<Check>)
    requires |checks| == 4 && checks[0].failed && !checks[1].failed && checks[2].failed && !checks[3].failed
    ensures FailureMessages(checks) == [checks[0].message, checks[2].message]
  {
    FourChecks(checks);
  }
}
