/**
 * The settings dialog over a `WorksheetSettings` object: every change reads
 * the object's settings, changes them and writes them back with
 * `updateSettings`.
 */
module SimpleSettingsUi {
  import opened Wrappers
  import F = FieldSettings
  import W = WorksheetMarker

  class SimpleSettingsUi {
    const worksheetSettings: W.WorksheetSettings

    constructor (worksheetSettings: W.WorksheetSettings)
      ensures this.worksheetSettings == worksheetSettings
    {
      this.worksheetSettings := worksheetSettings;
    }

    /**
     * `isFieldInUse`, on the worksheet object's current settings. Those are
     * stored by `load` without validation, so a category list can be
     * missing, and then spreading it throws a TypeError (None).
     */
    function IsFieldInUse(fieldName: string): (r: Option<bool>)
      reads this, worksheetSettings
      ensures r.None? <==> !F.HasCategoryLists(worksheetSettings.settings)
      ensures r.Some? ==> (r.value <==> F.InUse(worksheetSettings.settings, fieldName))
    {
      F.IsFieldInUse(worksheetSettings.GetSettings(), fieldName)
    }

    method RemoveFieldFromCategory(fieldName: string)
      modifies worksheetSettings
      ensures worksheetSettings.settings == F.RemoveStep(old(worksheetSettings.settings), fieldName)
    {
      var settings := worksheetSettings.GetSettings();
      settings := F.RemoveEverywhere(settings, fieldName);
      worksheetSettings.UpdateSettings(settings);
    }

    /**
     * `addFieldToCategory`. The source holds the object it read before the
     * removal; the removal changed that same object, so this reads it again.
     */
    method AddFieldToCategory(fieldName: string, fieldType: string, categoryId: string)
      modifies worksheetSettings
      ensures worksheetSettings.settings == F.AddStep(old(worksheetSettings.settings), fieldName, fieldType, categoryId)
    {
      RemoveFieldFromCategory(fieldName);
      var settings := worksheetSettings.GetSettings();
      settings := F.PushField(settings, F.CategoryIdToKey(categoryId), F.Field(fieldName, fieldType));
      worksheetSettings.UpdateSettings(settings);
    }

    method ResetSettings()
      modifies worksheetSettings
      ensures worksheetSettings.settings == F.Initial()
    {
      worksheetSettings.UpdateSettings(F.Initial());
    }
  }
}
