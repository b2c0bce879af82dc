/** What the validator decides on particular configurations: the defaults,
    the retry boundary, and the order of several messages. */
module ValidationProperties {
  import opened Common
  import opened Configuration
  import opened Formatting
  import opened Validation

  /** The blueprint overload refuses a configuration exactly when one of its
      conditions fails. */
  lemma BlueprintRejectsIffAnyCheckFails(config: BlueprintConfiguration)
    ensures Verdict(ConfigurationPrefix, FailureMessages(BlueprintChecks(config))).Pass?
            <==> IsValidBlueprintConfiguration(config)
  {
    FourChecks(BlueprintChecks(config));
  }

  /** The database overload refuses a configuration exactly when one of its
      conditions fails. */
  lemma DatabaseRejectsIffAnyCheckFails(config: DatabaseConfiguration)
    ensures Verdict(DatabaseConfigurationPrefix, FailureMessages(DatabaseChecks(config))).Pass?
            <==> IsValidDatabaseConfiguration(config)
  {
    FourChecks(DatabaseChecks(config));
  }

  /** Zero retries are accepted; only a negative count is refused. */
  lemma ZeroRetriesAccepted(config: BlueprintConfiguration)
    requires config == DefaultBlueprintConfiguration().(retryAttempts := 0)
    ensures Verdict(ConfigurationPrefix, FailureMessages(BlueprintChecks(config))) == Pass
    ensures Verdict(ConfigurationPrefix, FailureMessages(BlueprintChecks(config.(retryAttempts := -1))))
            == Fail(ArgumentError(ConfigurationPrefix + ("RetryAttempts must be non-negative, but was " + "-1")))
  {
    FourChecks(BlueprintChecks(config));
    var checks := BlueprintChecks(config.(retryAttempts := -1));
    FourChecks(checks);
    var message := "RetryAttempts must be non-negative, but was " + FormatInt(-1);
    assert FormatInt(-1) == "-1";
    assert Reported(checks[1]) == [message];
    assert FailureMessages(checks) == [message];
    assert Join([message], Separator) == message;
  }

  /** The default blueprint configuration is valid. */
  lemma DefaultConfigurationPasses()
    ensures Verdict(ConfigurationPrefix, FailureMessages(BlueprintChecks(DefaultBlueprintConfiguration()))) == Pass
  {
    FourChecks(BlueprintChecks(DefaultBlueprintConfiguration()));
  }

  /** The default database configuration fails on the connection string alone. */
  lemma DefaultDatabaseConfigurationFails(config: DatabaseConfiguration)
    requires config == DefaultDatabaseConfiguration()
    ensures Verdict(DatabaseConfigurationPrefix, FailureMessages(DatabaseChecks(config)))
            == Fail(ArgumentError(DatabaseConfigurationPrefix + "ConnectionString cannot be empty"))
  {
    var checks := DatabaseChecks(config);
    FourChecks(checks);
    var message := "ConnectionString cannot be empty";
    assert Reported(checks[0]) == [message];
    assert Reported(checks[1]) == [] && Reported(checks[2]) == [] && Reported(checks[3]) == [];
    assert Join([message], Separator) == message;
  }

  /** A zero timeout is printed as "00:00:00" in its message. */
  lemma ZeroTimeoutMessage(config: BlueprintConfiguration)
    requires config.requestTimeout == 0
    ensures BlueprintChecks(config)[2].message == "RequestTimeout must be positive, but was " + "00:00:00"
  {
    FormatZeroSpan();
  }

  /** Every failing check is reported, in check order: with an empty name and a
      zero timeout, two messages appear, name first. */
  lemma TwoFailuresInCheckOrder(config: BlueprintConfiguration)
    requires config.serviceName == "" && config.requestTimeout == 0
    requires config.retryAttempts >= 0 && config.maxConcurrentRequests > 0
    ensures var first := "ServiceName cannot be empty";
            var second := "RequestTimeout must be positive, but was " + "00:00:00";
            FailureMessages(BlueprintChecks(config)) == [first, second]
  {
    FirstAndThirdFail(BlueprintChecks(config));
    ZeroTimeoutMessage(config);
  }
}
