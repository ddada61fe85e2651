/** The OAuth settings of the CMS (morinolab_cms/src/github-config.ts): the
    client id and secret come from the environment when both are set, and
    from a built-in development pair otherwise; `validateGitHubConfig`
    accepts only a pair that looks like real credentials. The two
    environment variables are parameters (`undefined` is None). */
module GitHubConfig {
  import opened Wrappers

  datatype OAuthConfig = OAuthConfig(clientId: string, clientSecret: string)

  const PlaceholderClientId: string := "YOUR_GITHUB_CLIENT_ID"
  const PlaceholderClientSecret: string := "YOUR_GITHUB_CLIENT_SECRET"

  /** The development pair: a real-looking client id and the placeholder secret. */
  const Fallback: OAuthConfig := OAuthConfig("Ov23ctlbBnAjnisOSCrm", PlaceholderClientSecret)

  /** JavaScript truthiness of an optional string. */
  predicate Set(v: Option<string>) {
    v.Some? && v.value != ""
  }

  /** `getGitHubOAuthConfig()` over `GITHUB_CLIENT_ID` and `GITHUB_CLIENT_SECRET`. */
  function GetOAuthConfig(envClientId: Option<string>, envClientSecret: Option<string>): (config: OAuthConfig)
    ensures Set(envClientId) && Set(envClientSecret) ==> config == OAuthConfig(envClientId.value, envClientSecret.value)
    ensures !(Set(envClientId) && Set(envClientSecret)) ==> config == Fallback
    ensures config.clientId != "" && config.clientSecret != ""
  {
    if Set(envClientId) && Set(envClientSecret) then OAuthConfig(envClientId.value, envClientSecret.value)
    else Fallback
  }

  /** `validateGitHubConfig(config)`: both values present, neither the
      placeholder, and both longer than ten characters. */
  function ValidateConfig(config: OAuthConfig): (ok: bool)
    ensures ok ==> |config.clientId| > 10 && |config.clientSecret| > 10
    ensures ok ==> config.clientId != PlaceholderClientId && config.clientSecret != PlaceholderClientSecret
  {
    && config.clientId != ""
    && config.clientId != PlaceholderClientId
    && config.clientSecret != ""
    && config.clientSecret != PlaceholderClientSecret
    && |config.clientId| > 10
    && |config.clientSecret| > 10
  }

  /** The placeholders are long enough to pass the length test, so only
      their own comparisons reject them; the emptiness tests add nothing to
      the length tests. */
  lemma ValidationIsLengthAndPlaceholders(config: OAuthConfig)
    ensures ValidateConfig(config) <==>
      (&& |config.clientId| > 10 && |config.clientSecret| > 10
       && config.clientId != PlaceholderClientId && config.clientSecret != PlaceholderClientSecret)
    ensures |PlaceholderClientId| > 10 && |PlaceholderClientSecret| > 10
    ensures !ValidateConfig(OAuthConfig(PlaceholderClientId, PlaceholderClientSecret))
  {
  }

  /** The built-in pair never validates: a valid configuration always comes
      from the environment, and is exactly its two values. */
  lemma FallbackNeverValidates(envClientId: Option<string>, envClientSecret: Option<string>)
    ensures !ValidateConfig(Fallback)
    ensures ValidateConfig(GetOAuthConfig(envClientId, envClientSecret)) ==>
      Set(envClientId) && Set(envClientSecret) &&
      GetOAuthConfig(envClientId, envClientSecret) == OAuthConfig(envClientId.value, envClientSecret.value)
  {
  }
}
