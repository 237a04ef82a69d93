/** The configuration package: the option set handed to the store and discovery
    agents, and the checks a FlareConfiguration must pass before the service
    starts. URL parsing, the interface listing and the file check are answers
    of the host, passed in as a `Host`. */
module Config {
  import opened Common
  import opened GoStrings
  import opened Validation

  /** A set of KEY=VALUE options (configOptions); values are interface values. */
  class ConfigOptions {
    var arguments: map<string, Any>

    /** NewConfigurationOptions: an empty option set. */
    constructor ()
      ensures arguments == map[]
    {
      arguments := map[];
    }

    /** Get: the stored value of `id`, or the default `df` when there is none. */
    function Get(id: string, df: Any): (v: Any)
      reads this
      ensures id in arguments ==> v == arguments[id]
      ensures id !in arguments ==> v == df
    {
      if id in arguments then arguments[id] else df
    }

    /** Set: parses "KEY=VALUE". Only a text with exactly one "=" splits into two
        parts; anything else is an error and leaves the options as they were. */
    method Set(value: string) returns (r: Outcome<string>)
      modifies this
      ensures r.Pass? <==> Count(value, '=') == 1
      ensures r.Pass? ==> ('=' in value &&
        arguments == old(arguments)[SplitFirst(value, '=').0 := Str(SplitFirst(value, '=').1)])
      ensures r.Fail? ==> arguments == old(arguments)
    {
      var items := Split(value, '=');
      SplitInTwo(value, '=');
      if |items| != 2 {
        return Fail("invalid option: " + value + ", must be in KEY=VALUE format");
      }
      arguments := arguments[items[0] := Str(items[1])];
      r := Pass;
    }

    /** Add: stores `value` under `id`, replacing what was there. */
    method Add(id: string, value: Any)
      modifies this
      ensures arguments == old(arguments)[id := value]
    {
      arguments := arguments[id := value];
    }
  }

  /** The option get test: a stored value comes back, a missing key gives the default. */
  method OptionsGet() returns (stored: Any, missing: Any)
    ensures stored == Int(12) && missing == Int(12)
  {
    var options := new ConfigOptions();
    options.Add("test1", Int(12));
    stored := options.Get("test1", Nil);
    missing := options.Get("not_there", Int(12));
  }

  /** The option set test: two well-formed options are stored, a bare key is refused. */
  method OptionsSet() returns (first: Any, second: Any, bare: Outcome<string>)
    ensures first == Str("1") && second == Str("/var/log/cert.crt") && bare.Fail?
  {
    var options := new ConfigOptions();
    var key, value := "test1", "1";
    SeparatorBetween(key, value, '=');
    var _ := options.Set(key + ['='] + value);
    assert options.arguments[key] == Str(value);
    first := options.Get(key, Nil);
    key, value := "cacert", "/var/log/cert.crt";
    SeparatorBetween(key, value, '=');
    var _ := options.Set(key + ['='] + value);
    assert options.arguments[key] == Str(value);
    second := options.Get(key, Nil);
    CountZero("cacert", '=');
    bare := options.Set("cacert");
  }

  /** The service configuration. The two option sets are shared objects. */
  datatype FlareConfiguration = FlareConfiguration(
    metricsURL: string,
    metricsPort: int,
    dockerInterface: string,
    dockerSocket: string,
    defaultPolicy: string,
    defaultSecurityGroup: string,
    logLevel: string,
    bootstrap: string,
    flarePrefix: string,
    storeURL: string,
    storeOptions: ConfigOptions,
    storeArguments: seq<string>,
    storeNamespace: string,
    storeEncoding: string,
    discoveryURL: string,
    discoveryOptions: ConfigOptions)

  /** What the host answers: whether a URL parses, the names of the network
      interfaces (or the error listing them), and whether a file exists (or the
      error checking it). */
  datatype Host = Host(
    validURL: string -> bool,
    interfaces: Result<seq<string>, string>,
    fileExists: string -> Result<bool, string>)

  /** The reasons IsValid gives, each carrying the value it names. */
  datatype ConfigError =
    | InvalidStoreURL(url: string)
    | InvalidDiscoveryURL(url: string)
    | NoFlarePrefix
    | InvalidEncoding(encoding: string)
    | InterfaceLookup(message: string)
    | NoInterface(name: string)
    | BootstrapLookup(path: string, message: string)
    | NoBootstrap(path: string)
    | InvalidLogLevel(level: string)
    | InvalidPolicy(policy: string)

  const ENCODINGS: seq<string> := ["json", "yaml"]
  const LOG_LEVELS: seq<string> := ["INFO", "DEBUG", "NONE"]
  const POLICIES: seq<string> := ["DROP", "ACCEPT"]

  /** Every check of IsValid passes: an independent statement of what IsValid accepts. */
  predicate Acceptable(config: FlareConfiguration, host: Host)
  {
    && host.validURL(config.storeURL)
    && (config.discoveryURL != "" ==> host.validURL(config.discoveryURL))
    && config.flarePrefix != ""
    && ToLower(config.storeEncoding) in ENCODINGS
    && host.interfaces.Ok? && config.dockerInterface in host.interfaces.value
    && (config.bootstrap != "" ==> host.fileExists(config.bootstrap) == Ok(true))
    && ToUpper(config.logLevel) in LOG_LEVELS
    && ToUpper(config.defaultPolicy) in POLICIES
  }

  /** The encoding check of IsValid: the lower-cased encoding must be non-empty and
      one of the known encodings. */
  function CheckEncoding(config: FlareConfiguration): (r: Outcome<ConfigError>)
    ensures r.Pass? <==> ToLower(config.storeEncoding) in ENCODINGS
    ensures r.Fail? ==> r == Fail(InvalidEncoding(ToLower(config.storeEncoding))) && r.error.encoding !in ENCODINGS
  {
    var encoding := ToLower(config.storeEncoding);
    StringArgument(encoding, ENCODINGS);
    if encoding == "" || !IsValidArgument(Str(encoding), Strs(ENCODINGS)) then Fail(InvalidEncoding(encoding))
    else Pass
  }

  /** The checks of IsValid after the encoding: the docker interface exists and the
      bootstrap file, when one is named, exists. */
  function CheckHost(config: FlareConfiguration, host: Host): (r: Outcome<ConfigError>)
    ensures r.Pass? <==>
      host.interfaces.Ok? && config.dockerInterface in host.interfaces.value &&
      (config.bootstrap != "" ==> host.fileExists(config.bootstrap) == Ok(true))
    ensures host.interfaces.Err? ==> r == Fail(InterfaceLookup(host.interfaces.error))
  {
    match IsNetworkInterface(config.dockerInterface, host.interfaces)
    case Err(e) => Fail(InterfaceLookup(e))
    case Ok(false) => Fail(NoInterface(config.dockerInterface))
    case Ok(true) =>
      if config.bootstrap != "" && host.fileExists(config.bootstrap).Err? then
        Fail(BootstrapLookup(config.bootstrap, host.fileExists(config.bootstrap).error))
      else if config.bootstrap != "" && !host.fileExists(config.bootstrap).value then
        Fail(NoBootstrap(config.bootstrap))
      else Pass
  }

  /** The last checks of IsValid: the log level and the default policy, upper-cased. */
  function CheckCase(config: FlareConfiguration): (r: Outcome<ConfigError>)
    ensures r.Pass? <==> ToUpper(config.logLevel) in LOG_LEVELS && ToUpper(config.defaultPolicy) in POLICIES
    ensures r.Fail? && r.error.InvalidLogLevel? ==> r.error.level == ToUpper(config.logLevel) && r.error.level !in LOG_LEVELS
  {
    var level, policy := ToUpper(config.logLevel), ToUpper(config.defaultPolicy);
    StringArgument(level, LOG_LEVELS);
    StringArgument(policy, POLICIES);
    if !IsValidArgument(Str(level), Strs(LOG_LEVELS)) then Fail(InvalidLogLevel(level))
    else if !IsValidArgument(Str(policy), Strs(POLICIES)) then Fail(InvalidPolicy(policy))
    else Pass
  }

  /** IsValid: the checks in order, stopping at the first that fails. The encoding,
      level and policy are case-normalised in a copy, so the caller's
      configuration is never altered. */
  function IsValid(config: FlareConfiguration, host: Host): (r: Outcome<ConfigError>)
    ensures r.Pass? <==> Acceptable(config, host)
    ensures config.flarePrefix == "" ==> r.Fail?
    ensures r == Fail(NoFlarePrefix) <==>
      host.validURL(config.storeURL) && (config.discoveryURL != "" ==> host.validURL(config.discoveryURL)) &&
      config.flarePrefix == ""
    ensures r.Fail? && r.error.InvalidEncoding? ==>
      r.error.encoding == ToLower(config.storeEncoding) && r.error.encoding !in ENCODINGS
  {
    if !host.validURL(config.storeURL) then Fail(InvalidStoreURL(config.storeURL))
    else if config.discoveryURL != "" && !host.validURL(config.discoveryURL) then
      Fail(InvalidDiscoveryURL(config.discoveryURL))
    else if IsEmpty(config.flarePrefix) then Fail(NoFlarePrefix)
    else if CheckEncoding(config).Fail? then CheckEncoding(config)
    else
      var found := CheckHost(config, host);
      if found.Fail? then found else CheckCase(config)
  }

  /** IsValid sees the encoding, level and policy only in their normalised case. */
  lemma CaseDoesNotMatter(config: FlareConfiguration, host: Host, encoding: string, level: string, policy: string)
    requires ToLower(encoding) == ToLower(config.storeEncoding)
    requires ToUpper(level) == ToUpper(config.logLevel) && ToUpper(policy) == ToUpper(config.defaultPolicy)
    ensures IsValid(config.(storeEncoding := encoding, logLevel := level, defaultPolicy := policy), host) == IsValid(config, host)
  {
    var renamed := config.(storeEncoding := encoding, logLevel := level, defaultPolicy := policy);
    assert CheckHost(renamed, host) == CheckHost(config, host);
    assert CheckCase(renamed) == CheckCase(config);
  }

  /** The values DefaultConfig fills in, and the zero values of the fields it
      leaves out. */
  predicate IsDefault(config: FlareConfiguration)
  {
    && config.metricsURL == ""
    && config.metricsPort == 0
    && config.storeArguments == []
    && config.dockerInterface == "docker0"
    && config.dockerSocket == "/var/run/docker.sock"
    && config.defaultPolicy == "DROP"
    && config.defaultSecurityGroup == ""
    && config.logLevel == "INFO"
    && config.storeNamespace == "flare"
    && config.storeURL == "etcd://127.0.0.1:4001"
    && config.storeEncoding == "json"
    && config.discoveryURL == ""
    && config.bootstrap == ""
    && config.flarePrefix == "FLARE_"
  }

  /** DefaultConfig: the defaults, with two new empty option sets. */
  method DefaultConfig() returns (config: FlareConfiguration)
    ensures IsDefault(config)
    ensures fresh(config.storeOptions) && fresh(config.discoveryOptions)
    ensures config.storeOptions != config.discoveryOptions
    ensures config.storeOptions.arguments == map[] && config.discoveryOptions.arguments == map[]
  {
    var storeOptions := new ConfigOptions();
    var discoveryOptions := new ConfigOptions();
    config := FlareConfiguration("", 0, "docker0", "/var/run/docker.sock", "DROP", "", "INFO", "", "FLARE_",
      "etcd://127.0.0.1:4001", storeOptions, [], "flare", "json", "", discoveryOptions);
  }

  /** The default encoding, level and policy are already in their normalised case. */
  lemma DefaultCase()
    ensures ToLower("json") == "json" && ToUpper("INFO") == "INFO" && ToUpper("DROP") == "DROP"
  {
    LowerStable("json");
    UpperStable("INFO");
    UpperStable("DROP");
  }

  /** The configuration test: the defaults pass on a host where the store URL parses
      and "docker0" exists; with the prefix cleared they fail for want of a prefix. */
  lemma DefaultsValid(config: FlareConfiguration, host: Host)
    requires IsDefault(config)
    requires host.validURL("etcd://127.0.0.1:4001") && host.interfaces.Ok? && "docker0" in host.interfaces.value
    ensures IsValid(config, host) == Pass
    ensures IsValid(config.(flarePrefix := ""), host) == Fail(NoFlarePrefix)
  {
    DefaultCase();
    assert Acceptable(config, host);
  }
}
