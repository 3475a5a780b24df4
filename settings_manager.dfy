/**
 * The settings dialog's owner of the field assignment: `settings` holds one
 * list of fields per category key, changed by push, filter-reassign and
 * in-place swaps.
 */
module SettingsManager {
  import opened Wrappers
  import SeqOps
  import F = FieldSettings

  class SettingsManager {
    var settings: F.Settings

    predicate Valid()
      reads this
    {
      F.WellFormed(settings)
    }

    constructor ()
      ensures Valid() && settings == F.Initial()
    {
      settings := F.Initial();
    }

    /** `getSettings`: the settings object itself, not a copy; a valid one holds all four lists. */
    function GetSettings(): (r: F.Settings)
      reads this
      ensures r == settings
      ensures Valid() ==> F.HasCategoryLists(r)
    {
      settings
    }

    /** `isFieldInUse`: the four lists are always present, so the spread never throws. */
    function IsFieldInUse(fieldName: string): (r: bool)
      requires Valid()
      reads this
      ensures r <==> F.InUse(settings, fieldName)
    {
      F.WellFormedHasLists(settings);
      F.IsFieldInUse(settings, fieldName).value
    }

    /** `hasConfiguredFields`: some field name is in use. */
    function HasConfiguredFields(): (r: bool)
      requires Valid()
      reads this
      ensures r <==> exists n :: F.InUse(settings, n)
    {
      F.WellFormedHasLists(settings);
      F.ConfiguredIffSomeInUse(settings);
      F.HasConfiguredFields(settings).value
    }

    /** `removeFieldFromCategory`: each key's list reassigned to its filtered copy. */
    method RemoveFieldFromCategory(fieldName: string)
      requires Valid()
      modifies this
      ensures Valid() && settings == F.RemoveStep(old(settings), fieldName)
    {
      ghost var s0 := settings;
      settings := F.RemoveEverywhere(settings, fieldName);
      F.WellFormedKeys(s0, settings);
    }

    /** `addFieldToCategory`: removed everywhere, the key's list created when missing, then the field pushed. */
    method AddFieldToCategory(fieldName: string, fieldType: string, categoryId: string)
      requires Valid()
      modifies this
      ensures Valid() && settings == F.AddStep(old(settings), fieldName, fieldType, categoryId)
    {
      F.AddOnce(settings, fieldName, fieldType, categoryId);
      settings := F.AddToCategory(settings, fieldName, fieldType, categoryId);
    }

    /** `moveFieldUp`; false when the category's list is missing, where the source throws. */
    method MoveFieldUp(fieldName: string, categoryId: string) returns (ok: bool)
      requires Valid()
      modifies this
      ensures Valid()
      ensures ok <==> F.MoveUpStep(old(settings), fieldName, categoryId).Some?
      ensures settings == F.MoveUpStep(old(settings), fieldName, categoryId).GetOr(old(settings))
    {
      var k := SeqOps.IndexOf(F.Keys(settings), F.CategoryIdToKey(categoryId));
      if k == -1 {
        return false;
      }
      ghost var s0 := settings;
      var fields := settings[k].1;
      var index := F.FindName(fields, fieldName);
      if index > 0 {
        settings := F.ReplaceList(settings, k, SeqOps.Swap(fields, index - 1, index));
        F.WellFormedKeys(s0, settings);
      }
      return true;
    }

    /** `moveFieldDown`, with the present-field guard (see `FieldSettings.MoveDownAsWritten`). */
    method MoveFieldDown(fieldName: string, categoryId: string) returns (ok: bool)
      requires Valid()
      modifies this
      ensures Valid()
      ensures ok <==> F.MoveDownStep(old(settings), fieldName, categoryId).Some?
      ensures settings == F.MoveDownStep(old(settings), fieldName, categoryId).GetOr(old(settings))
    {
      var k := SeqOps.IndexOf(F.Keys(settings), F.CategoryIdToKey(categoryId));
      if k == -1 {
        return false;
      }
      ghost var s0 := settings;
      var fields := settings[k].1;
      var index := F.FindName(fields, fieldName);
      if 0 <= index < |fields| - 1 {
        settings := F.ReplaceList(settings, k, SeqOps.Swap(fields, index, index + 1));
        F.WellFormedKeys(s0, settings);
      }
      return true;
    }

    method ResetSettings()
      modifies this
      ensures Valid() && settings == F.Initial()
    {
      settings := F.Initial();
    }
  }
}
