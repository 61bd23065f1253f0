/** The settings screen's service: checks the entered credentials against Canvas after a
    blank-input guard, saves and clears them through the configuration service, and
    reports where the current values were loaded from. */
module Settings {
  import opened Wrappers
  import opened Exceptions
  import opened Text
  import Configuration
  import Preferences

  const EnterBothMessage: string := "Please enter both Canvas URL and API Token"
  const ValidMessage: string := "✅ Credentials are valid!"
  const InvalidMessage: string := "❌ Invalid credentials. Please check your Canvas URL and API token."
  const ErrorMessage: string := "❌ Error validating credentials. Please check your network connection."
  const UserSecretsMessage: string := "Credentials loaded from User Secrets"
  const PreferencesMessage: string := "Credentials loaded from Preferences"

  datatype SettingsValidationResult = SettingsValidationResult(
    isValid: bool, message: string, error: Option<Exception>)

  datatype SettingsData = SettingsData(
    canvasUrl: string, canvasApiToken: string, loadMessage: string,
    source: Configuration.ConfigurationSource)

  /** string.IsNullOrWhiteSpace, with None standing for null. */
  predicate NullOrWhiteSpace(s: Option<string>) {
    s.None? || IsBlank(s.value)
  }

  /** ValidateCredentialsAsync. `gateway` is ICanvasService.ValidateCredentialsAsync:
      its answer, or the exception it throws. */
  function ValidateCredentials(canvasUrl: Option<string>, canvasApiToken: Option<string>,
                               gateway: (string, string) -> Result<bool, Exception>)
    : (r: SettingsValidationResult)
    ensures NullOrWhiteSpace(canvasUrl) || NullOrWhiteSpace(canvasApiToken) ==>
      r == SettingsValidationResult(false, EnterBothMessage, None)
    ensures !NullOrWhiteSpace(canvasUrl) && !NullOrWhiteSpace(canvasApiToken) ==>
      match gateway(canvasUrl.value, canvasApiToken.value)
      case Success(ok) => r.isValid == ok && r.error == None &&
                          r.message == (if ok then ValidMessage else InvalidMessage)
      case Failure(e) => r == SettingsValidationResult(false, ErrorMessage, Some(e))
    ensures r.isValid ==> r.message == ValidMessage
  {
    if NullOrWhiteSpace(canvasUrl) || NullOrWhiteSpace(canvasApiToken) then
      SettingsValidationResult(false, EnterBothMessage, None)
    else
      match gateway(canvasUrl.value, canvasApiToken.value)
      case Success(ok) => SettingsValidationResult(ok, if ok then ValidMessage else InvalidMessage, None)
      case Failure(e) => SettingsValidationResult(false, ErrorMessage, Some(e))
  }

  /** Rejected input never reaches the gateway: any two gateways give the same answer. */
  lemma BlankInputSkipsGateway(canvasUrl: Option<string>, canvasApiToken: Option<string>,
                               g1: (string, string) -> Result<bool, Exception>,
                               g2: (string, string) -> Result<bool, Exception>)
    requires NullOrWhiteSpace(canvasUrl) || NullOrWhiteSpace(canvasApiToken)
    ensures ValidateCredentials(canvasUrl, canvasApiToken, g1) == ValidateCredentials(canvasUrl, canvasApiToken, g2)
    ensures !ValidateCredentials(canvasUrl, canvasApiToken, g1).isValid
  {
  }

  /** The guard here is stricter than HasCanvasCredentials: a token of one space is
      rejected by validation, yet counts as present once saved. */
  lemma WhitespaceTokenRejectedButPresent(g: (string, string) -> Result<bool, Exception>)
    ensures ValidateCredentials(Some("https://canvas.example.edu"), Some(" "), g).message == EnterBothMessage
    ensures var prefs := map[Configuration.UrlPreference := "https://canvas.example.edu",
                             Configuration.TokenPreference := " "];
            Configuration.HasCredentials(map[], prefs)
  {
    assert IsBlank(" ") by {
      assert IsWhiteSpace(" "[0]);
    }
    var prefs := map[Configuration.UrlPreference := "https://canvas.example.edu",
                     Configuration.TokenPreference := " "];
    assert Preferences.Lookup(prefs, Configuration.TokenPreference, "") == " ";
    assert Preferences.Lookup(prefs, Configuration.UrlPreference, "") == "https://canvas.example.edu";
  }

  /** The load message for a source. */
  function LoadMessage(source: Configuration.ConfigurationSource): (m: string)
    ensures m == "" <==> source == Configuration.None
  {
    match source
    case UserSecrets => UserSecretsMessage
    case Preferences => PreferencesMessage
    case None => ""
  }

  class SettingsService {
    const configuration: Configuration.ConfigurationService

    constructor(configuration: Configuration.ConfigurationService)
      ensures this.configuration == configuration
    {
      this.configuration := configuration;
    }

    /** Saving to the preferences store cannot fail, so the answer is always true. */
    method SaveSettingsAsync(canvasUrl: string, canvasApiToken: string) returns (saved: bool)
      requires configuration.preferences.Valid()
      modifies configuration.preferences
      ensures configuration.preferences.Valid() && saved
      ensures configuration.preferences.entries == old(configuration.preferences.entries)
        [Configuration.UrlPreference := canvasUrl][Configuration.TokenPreference := canvasApiToken]
    {
      configuration.SaveCanvasSettingsAsync(canvasUrl, canvasApiToken);
      return true;
    }

    method ClearSettings()
      requires configuration.preferences.Valid()
      modifies configuration.preferences
      ensures configuration.preferences.Valid()
      ensures configuration.preferences.entries == old(configuration.preferences.entries)
        - {Configuration.UrlPreference} - {Configuration.TokenPreference}
    {
      configuration.ClearCanvasSettings();
    }

    /** The current values, their source and that source's message. */
    function LoadSettings(): (d: SettingsData)
      reads configuration.preferences
      ensures d.canvasUrl == configuration.GetCanvasUrl()
      ensures d.canvasApiToken == configuration.GetCanvasApiToken()
      ensures d.source == configuration.GetConfigurationSource()
      ensures d.loadMessage == LoadMessage(d.source)
    {
      var source := configuration.GetConfigurationSource();
      SettingsData(configuration.GetCanvasUrl(), configuration.GetCanvasApiToken(), LoadMessage(source), source)
    }
  }
}
