/**
 * The connection settings of the two Vault servers, read from the process
 * environment (main.go:86-125).  The environment is a parameter: a map from
 * variable name to value.
 */
module Config {

  /** The address, token and CA certificate path of one Vault server; "" where not given. */
  datatype VaultConfig = VaultConfig(address: string, token: string, caCertPath: string)

  /** The Vault client's standard variable names (api.EnvVaultAddress, api.EnvVaultToken, api.EnvVaultCACert). */
  const EnvVaultAddress := "VAULT_ADDR"
  const EnvVaultToken := "VAULT_TOKEN"
  const EnvVaultCACert := "VAULT_CACERT"

  const SourcePrefix := "SOURCE_"
  const DestinationPrefix := "DESTINATION_"

  /** os.Getenv: the variable's value, or "" when it is unset. */
  function Getenv(env: map<string, string>, name: string): string
  {
    if name in env then env[name] else ""
  }

  /** The configuration that the variables prefix+VAULT_ADDR, prefix+VAULT_TOKEN and prefix+VAULT_CACERT describe. */
  function ConfigOf(env: map<string, string>, prefix: string): VaultConfig
  {
    VaultConfig(Getenv(env, prefix + EnvVaultAddress), Getenv(env, prefix + EnvVaultToken),
                Getenv(env, prefix + EnvVaultCACert))
  }

  /**
   * getVaultConfig: start from the empty configuration and take each of the
   * three variables that is set to a non-empty value.
   */
  method GetVaultConfig(env: map<string, string>, envPrefix: string) returns (config: VaultConfig)
    ensures config == ConfigOf(env, envPrefix)
    ensures envPrefix + EnvVaultAddress !in env ==> config.address == ""
    ensures envPrefix + EnvVaultToken !in env ==> config.token == ""
    ensures envPrefix + EnvVaultCACert !in env ==> config.caCertPath == ""
  {
    config := VaultConfig("", "", "");
    var address := Getenv(env, envPrefix + EnvVaultAddress);
    if address != "" {
      config := config.(address := address);
    }
    var token := Getenv(env, envPrefix + EnvVaultToken);
    if token != "" {
      config := config.(token := token);
    }
    var caCertPath := Getenv(env, envPrefix + EnvVaultCACert);
    if caCertPath != "" {
      config := config.(caCertPath := caCertPath);
    }
  }

  /** getSourceVaultConfig: SOURCE_VAULT_ADDR, SOURCE_VAULT_TOKEN, SOURCE_VAULT_CACERT. */
  method GetSourceVaultConfig(env: map<string, string>) returns (config: VaultConfig)
    ensures config == VaultConfig(Getenv(env, "SOURCE_VAULT_ADDR"), Getenv(env, "SOURCE_VAULT_TOKEN"),
                                  Getenv(env, "SOURCE_VAULT_CACERT"))
  {
    assert SourcePrefix + EnvVaultAddress == "SOURCE_VAULT_ADDR";
    assert SourcePrefix + EnvVaultToken == "SOURCE_VAULT_TOKEN";
    assert SourcePrefix + EnvVaultCACert == "SOURCE_VAULT_CACERT";
    config := GetVaultConfig(env, SourcePrefix);
  }

  /** getDestinationVaultConfig: DESTINATION_VAULT_ADDR, DESTINATION_VAULT_TOKEN, DESTINATION_VAULT_CACERT. */
  method GetDestinationVaultConfig(env: map<string, string>) returns (config: VaultConfig)
    ensures config == VaultConfig(Getenv(env, "DESTINATION_VAULT_ADDR"), Getenv(env, "DESTINATION_VAULT_TOKEN"),
                                  Getenv(env, "DESTINATION_VAULT_CACERT"))
  {
    assert DestinationPrefix + EnvVaultAddress == "DESTINATION_VAULT_ADDR";
    assert DestinationPrefix + EnvVaultToken == "DESTINATION_VAULT_TOKEN";
    assert DestinationPrefix + EnvVaultCACert == "DESTINATION_VAULT_CACERT";
    config := GetVaultConfig(env, DestinationPrefix);
  }

  /** A configuration depends on its own three variables and no others. */
  lemma ConfigReadsOwnVariables(env: map<string, string>, env': map<string, string>, prefix: string)
    requires forall name :: name in {prefix + EnvVaultAddress, prefix + EnvVaultToken, prefix + EnvVaultCACert} ==>
               Getenv(env, name) == Getenv(env', name)
    ensures ConfigOf(env, prefix) == ConfigOf(env', prefix)
  {
    assert prefix + EnvVaultAddress in {prefix + EnvVaultAddress, prefix + EnvVaultToken, prefix + EnvVaultCACert};
    assert prefix + EnvVaultToken in {prefix + EnvVaultAddress, prefix + EnvVaultToken, prefix + EnvVaultCACert};
    assert prefix + EnvVaultCACert in {prefix + EnvVaultAddress, prefix + EnvVaultToken, prefix + EnvVaultCACert};
  }

  /** Setting a destination variable never changes the source configuration, and the other way round. */
  lemma ServersConfiguredApart(env: map<string, string>, suffix: string, value: string)
    ensures ConfigOf(env[DestinationPrefix + suffix := value], SourcePrefix) == ConfigOf(env, SourcePrefix)
    ensures ConfigOf(env[SourcePrefix + suffix := value], DestinationPrefix) == ConfigOf(env, DestinationPrefix)
  {
    var env1 := env[DestinationPrefix + suffix := value];
    var env2 := env[SourcePrefix + suffix := value];
    forall other | other in [EnvVaultAddress, EnvVaultToken, EnvVaultCACert]
      ensures SourcePrefix + other != DestinationPrefix + suffix
      ensures DestinationPrefix + other != SourcePrefix + suffix
    {
      assert (SourcePrefix + other)[0] != (DestinationPrefix + suffix)[0];
      assert (DestinationPrefix + other)[0] != (SourcePrefix + suffix)[0];
    }
    ConfigReadsOwnVariables(env, env1, SourcePrefix);
    ConfigReadsOwnVariables(env, env2, DestinationPrefix);
  }
}
