/** Saving and loading the application settings: the API key field is
    obfuscated on save and restored on load; everything else is stored as
    given. JSON (de)serialisation is represented by the record the file
    holds. */
module Settings {
  import opened Wrappers
  import ApiKeyCodec

  datatype AppSettings = AppSettings(mode: string, geminiApiKey: string, language: string)

  /** The record in the settings file; a file written by an older version
      may lack the language. */
  datatype StoredSettings = StoredSettings(mode: string, geminiApiKey: string, language: Option<string>)

  /** The language a settings file without one is read with. */
  const DefaultLanguage: string := "japanese"

  /** The filesystem step at which saving fails, if any. */
  datatype SaveFault = NoFault | ConfigDirFailed(error: string) | CreateDirFailed(error: string) | WriteFailed(error: string)

  /** The state of the settings file when loading. */
  datatype ConfigFile = Missing | ReadFailed(error: string) | ParseFailed(error: string) | Parsed(stored: StoredSettings)

  /** `save_settings`: the record written, with the key obfuscated. */
  function SaveSettings(settings: AppSettings, fault: SaveFault): (r: Result<StoredSettings>)
    ensures r.Ok? <==> fault.NoFault?
    ensures r.Ok? ==> r.value.mode == settings.mode && r.value.language == Some(settings.language)
    ensures r.Ok? ==> r.value.geminiApiKey == ApiKeyCodec.Encrypt(settings.geminiApiKey)
    ensures fault.ConfigDirFailed? ==> r == Err("Failed to get app config directory: " + fault.error)
    ensures fault.CreateDirFailed? ==> r == Err("Failed to create config directory: " + fault.error)
    ensures fault.WriteFailed? ==> r == Err("Failed to write settings file: " + fault.error)
  {
    match fault
    case ConfigDirFailed(e) => Err("Failed to get app config directory: " + e)
    case CreateDirFailed(e) => Err("Failed to create config directory: " + e)
    case WriteFailed(e) => Err("Failed to write settings file: " + e)
    case NoFault =>
      Ok(StoredSettings(settings.mode, ApiKeyCodec.Encrypt(settings.geminiApiKey), Some(settings.language)))
  }

  /** `load_settings`: no settings when the file does not exist, otherwise
      the stored record with the key restored. */
  function LoadSettings(configDirError: Option<string>, file: ConfigFile): (r: Result<Option<AppSettings>>)
    ensures r == Ok(None) <==> configDirError.None? && file.Missing?
    ensures r.Ok? && r.value.Some? ==>
      file.Parsed? && r.value.value.geminiApiKey == ApiKeyCodec.Decrypt(file.stored.geminiApiKey)
  {
    if configDirError.Some? then Err("Failed to get app config directory: " + configDirError.value)
    else match file
      case Missing => Ok(None)
      case ReadFailed(e) => Err("Failed to read settings file: " + e)
      case ParseFailed(e) => Err("Failed to parse settings file: " + e)
      case Parsed(stored) =>
        var language := if stored.language.Some? then stored.language.value else DefaultLanguage;
        Ok(Some(AppSettings(stored.mode, ApiKeyCodec.Decrypt(stored.geminiApiKey), language)))
  }

  /** Loading what was saved gives back the settings that were saved. */
  lemma SaveThenLoad(settings: AppSettings)
    ensures SaveSettings(settings, NoFault).Ok?
    ensures LoadSettings(None, Parsed(SaveSettings(settings, NoFault).value)) == Ok(Some(settings))
  {
    ApiKeyCodec.DecryptEncrypt(settings.geminiApiKey);
  }

  /** A file without a language is read as Japanese. */
  lemma MissingLanguageIsJapanese(mode: string, key: string)
    ensures LoadSettings(None, Parsed(StoredSettings(mode, key, None))).value.value.language == "japanese"
  {
  }
}
