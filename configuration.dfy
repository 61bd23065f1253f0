/** Where the Canvas URL and API token come from: the user-secrets configuration first,
    the preferences store as the fallback, and an empty string when neither has a value. */
module Configuration {
  import Preferences

  const UrlSecret: string := "Canvas:Url"
  const TokenSecret: string := "Canvas:ApiToken"
  const UrlPreference: string := "Canvas_Url"
  const TokenPreference: string := "Canvas_ApiToken"

  datatype ConfigurationSource = None | UserSecrets | Preferences

  /** !string.IsNullOrEmpty(_configuration[key]): a missing key reads as null. */
  predicate SecretPresent(secrets: map<string, string>, key: string) {
    key in secrets && secrets[key] != ""
  }

  /** A value resolved from the secret `key`, else the preference `pref`, else "". */
  function Resolve(secrets: map<string, string>, prefs: map<string, string>, key: string, pref: string)
    : (r: string)
    ensures SecretPresent(secrets, key) ==> r == secrets[key]
    ensures !SecretPresent(secrets, key) ==> r == Preferences.Lookup(prefs, pref, "")
    ensures r != "" <==> SecretPresent(secrets, key) || Preferences.Lookup(prefs, pref, "") != ""
  {
    if SecretPresent(secrets, key) then secrets[key] else Preferences.Lookup(prefs, pref, "")
  }

  function CanvasUrl(secrets: map<string, string>, prefs: map<string, string>): string {
    Resolve(secrets, prefs, UrlSecret, UrlPreference)
  }

  function CanvasApiToken(secrets: map<string, string>, prefs: map<string, string>): string {
    Resolve(secrets, prefs, TokenSecret, TokenPreference)
  }

  predicate HasCredentials(secrets: map<string, string>, prefs: map<string, string>) {
    CanvasUrl(secrets, prefs) != "" && CanvasApiToken(secrets, prefs) != ""
  }

  /** Both secrets present: UserSecrets; else both preferences non-empty: Preferences. */
  function Source(secrets: map<string, string>, prefs: map<string, string>): ConfigurationSource {
    if SecretPresent(secrets, UrlSecret) && SecretPresent(secrets, TokenSecret) then UserSecrets
    else if Preferences.Lookup(prefs, UrlPreference, "") != "" && Preferences.Lookup(prefs, TokenPreference, "") != ""
    then ConfigurationSource.Preferences
    else None
  }

  /** A source other than None means both values resolve to non-empty strings, and when
      the source is UserSecrets they are the secrets themselves. */
  lemma SourceImpliesCredentials(secrets: map<string, string>, prefs: map<string, string>)
    ensures Source(secrets, prefs) != None ==> HasCredentials(secrets, prefs)
    ensures Source(secrets, prefs) == UserSecrets ==>
      CanvasUrl(secrets, prefs) == secrets[UrlSecret] && CanvasApiToken(secrets, prefs) == secrets[TokenSecret]
  {
  }

  /** The converse fails: a URL from the secrets and a token from the preferences are
      credentials, yet neither store holds both, so the source is None. */
  lemma CredentialsWithoutSource()
    ensures var secrets := map[UrlSecret := "https://canvas.example.edu"];
            var prefs := map[TokenPreference := "token"];
            HasCredentials(secrets, prefs) && Source(secrets, prefs) == None
  {
    var secrets := map[UrlSecret := "https://canvas.example.edu"];
    var prefs := map[TokenPreference := "token"];
    assert !SecretPresent(secrets, TokenSecret);
    assert Preferences.Lookup(prefs, UrlPreference, "") == "";
  }

  /** After SaveCanvasSettingsAsync(url, token) the getters answer what was saved, unless
      a user secret takes precedence. */
  lemma SaveThenGet(secrets: map<string, string>, prefs: map<string, string>, url: string, token: string)
    ensures var saved := prefs[UrlPreference := url][TokenPreference := token];
      && (!SecretPresent(secrets, UrlSecret) ==> CanvasUrl(secrets, saved) == url)
      && (!SecretPresent(secrets, TokenSecret) ==> CanvasApiToken(secrets, saved) == token)
      && (SecretPresent(secrets, UrlSecret) ==> CanvasUrl(secrets, saved) == secrets[UrlSecret])
  {
    var saved := prefs[UrlPreference := url][TokenPreference := token];
    assert Preferences.Lookup(saved, UrlPreference, "") == url;
    assert Preferences.Lookup(saved, TokenPreference, "") == token;
  }

  /** After ClearCanvasSettings the getters answer the secrets or "", and no source but
      UserSecrets remains. */
  lemma ClearThenGet(secrets: map<string, string>, prefs: map<string, string>)
    ensures var cleared := prefs - {UrlPreference} - {TokenPreference};
      && CanvasUrl(secrets, cleared) == (if SecretPresent(secrets, UrlSecret) then secrets[UrlSecret] else "")
      && CanvasApiToken(secrets, cleared) == (if SecretPresent(secrets, TokenSecret) then secrets[TokenSecret] else "")
      && Source(secrets, cleared) != ConfigurationSource.Preferences
  {
    var cleared := prefs - {UrlPreference} - {TokenPreference};
    assert UrlPreference !in cleared && TokenPreference !in cleared;
  }

  class ConfigurationService {
    /** The IConfiguration user secrets; a missing key reads as null. */
    const secrets: map<string, string>
    /** Preferences.Default. */
    const preferences: Preferences.TestPreferences

    constructor(secrets: map<string, string>, preferences: Preferences.TestPreferences)
      ensures this.secrets == secrets && this.preferences == preferences
    {
      this.secrets := secrets;
      this.preferences := preferences;
    }

    function GetCanvasUrl(): string
      reads preferences
    {
      CanvasUrl(secrets, preferences.entries)
    }

    function GetCanvasApiToken(): string
      reads preferences
    {
      CanvasApiToken(secrets, preferences.entries)
    }

    function HasCanvasCredentials(): bool
      reads preferences
    {
      HasCredentials(secrets, preferences.entries)
    }

    function GetConfigurationSource(): ConfigurationSource
      reads preferences
    {
      Source(secrets, preferences.entries)
    }

    /** Writes both values to the preferences store. */
    method SaveCanvasSettingsAsync(url: string, apiToken: string)
      requires preferences.Valid()
      modifies preferences
      ensures preferences.Valid()
      ensures preferences.entries == old(preferences.entries)[UrlPreference := url][TokenPreference := apiToken]
      ensures !SecretPresent(secrets, UrlSecret) ==> GetCanvasUrl() == url
      ensures !SecretPresent(secrets, TokenSecret) ==> GetCanvasApiToken() == apiToken
    {
      preferences.Set(UrlPreference, url);
      preferences.Set(TokenPreference, apiToken);
      SaveThenGet(secrets, old(preferences.entries), url, apiToken);
    }

    /** Removes both values from the preferences store. */
    method ClearCanvasSettings()
      requires preferences.Valid()
      modifies preferences
      ensures preferences.Valid()
      ensures preferences.entries == old(preferences.entries) - {UrlPreference} - {TokenPreference}
      ensures !preferences.ContainsKey(UrlPreference) && !preferences.ContainsKey(TokenPreference)
    {
      preferences.Remove(UrlPreference);
      preferences.Remove(TokenPreference);
    }
  }
}
