/**
 * The settings dialog that keeps its field assignment in the host's
 * settings store under one key, as JSON text: loading accepts the stored
 * text only when it parses to a valid settings object.
 */
module FixedSettings {
  import opened Wrappers
  import JsText
  import F = FieldSettings

  /** The key the assignment is stored under. */
  const SettingsKey: string := "flextable-field-config"

  /**
   * `loadSettings`' accept rule: a stored value, not blank after `trim`,
   * that `JSON.parse` turns into a value `validateSettings` accepts. `parse`
   * stands for `JSON.parse`, None where it throws.
   */
  predicate Accepts(saved: Option<string>, parse: string -> Option<F.Json>) {
    saved.Some? && JsText.Trim(saved.value) != "" && F.ValidateSettings(parse(saved.value))
  }

  /** A missing or blank stored value is never loaded, whatever the parser does. */
  lemma BlankRejected(saved: string, parse: string -> Option<F.Json>)
    requires forall i :: 0 <= i < |saved| ==> JsText.IsSpace(saved[i])
    ensures !Accepts(Some(saved), parse) && !Accepts(None, parse)
  {
    JsText.TrimAllSpace(saved);
  }

  /**
   * Text that parses back to the saved object of four category lists (as
   * `JSON.stringify` writes it, starting with '{') is accepted, and loads
   * exactly those lists.
   */
  lemma LoadAfterSave(s: F.Settings, text: string, parse: string -> Option<F.Json>)
    requires F.WellFormed(s) && F.Keys(s) == F.CategoryKeys
    requires text != [] && text[0] == '{' && parse(text) == Some(F.ToJson(s))
    ensures Accepts(Some(text), parse) && F.AsSettings(parse(text).value) == s
  {
    JsText.TrimNonBlank(text, 0);
    F.SavedSettingsValidate(s);
  }

  class FixedSettings {
    var settings: F.Settings

    predicate Valid()
      reads this
    {
      F.WellFormed(settings)
    }

    constructor ()
      ensures Valid() && settings == F.Initial()
    {
      settings := F.Initial();
    }

    /**
     * `loadSettings`: true and the parsed lists stored when the stored text
     * is accepted; otherwise false with the settings as they were. `saved`
     * is `settings.get(SettingsKey)`, None when the key is missing.
     */
    method LoadSettings(saved: Option<string>, parse: string -> Option<F.Json>) returns (ok: bool)
      requires Valid()
      modifies this
      ensures Valid()
      ensures ok <==> Accepts(saved, parse)
      ensures ok ==> settings == F.AsSettings(parse(saved.value).value)
      ensures !ok ==> settings == old(settings)
    {
      if saved.Some? && JsText.Trim(saved.value) != "" {
        var parsed := parse(saved.value);
        if F.ValidateSettings(parsed) {
          settings := F.AsSettings(parsed.value);
          return true;
        }
      }
      return false;
    }

    /** `saveSettings`: the text stored under SettingsKey. `stringify` stands for `JSON.stringify`. */
    method SaveSettings(stringify: F.Json -> string) returns (text: string)
      ensures text == stringify(F.ToJson(settings))
    {
      text := stringify(F.ToJson(settings));
    }

    /** `getSettings`: the settings object itself, not a copy; a valid one holds all four lists. */
    function GetSettings(): (r: F.Settings)
      reads this
      ensures r == settings
      ensures Valid() ==> F.HasCategoryLists(r)
    {
      settings
    }

    /** `isFieldInUse`: the four lists are always present, so the spread never throws. */
    function IsFieldInUse(fieldName: string): (r: bool)
      requires Valid()
      reads this
      ensures r <==> F.InUse(settings, fieldName)
    {
      F.WellFormedHasLists(settings);
      F.IsFieldInUse(settings, fieldName).value
    }

    method AddFieldToCategory(fieldName: string, fieldType: string, categoryId: string)
      requires Valid()
      modifies this
      ensures Valid() && settings == F.AddStep(old(settings), fieldName, fieldType, categoryId)
    {
      F.AddOnce(settings, fieldName, fieldType, categoryId);
      settings := F.AddToCategory(settings, fieldName, fieldType, categoryId);
    }

    method RemoveFieldFromCategory(fieldName: string)
      requires Valid()
      modifies this
      ensures Valid() && settings == F.RemoveStep(old(settings), fieldName)
    {
      ghost var s0 := settings;
      settings := F.RemoveEverywhere(settings, fieldName);
      F.WellFormedKeys(s0, settings);
    }

    method ResetSettings()
      modifies this
      ensures Valid() && settings == F.Initial()
    {
      settings := F.Initial();
    }
  }
}
