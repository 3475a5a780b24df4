/**
 * Settings kept in the worksheet's name: saving appends `[FT:<encoded>]` to
 * the name with any earlier marker cut off, loading looks for the first
 * `[FT:…]` in the name, and cleaning cuts the marker off again.
 */
module WorksheetMarker {
  import opened Wrappers
  import F = FieldSettings

  /** "[FT:" starts at position p. */
  predicate MarkerAt(s: string, p: nat) {
    p + 4 <= |s| && s[p] == '[' && s[p + 1] == 'F' && s[p + 2] == 'T' && s[p + 3] == ':'
  }

  predicate NoMarker(s: string) {
    forall p: nat :: p < |s| ==> !MarkerAt(s, p)
  }

  /** The first position from `from` on where "[FT:" starts, or -1. */
  function MarkerFrom(s: string, from: nat): (r: int)
    requires from <= |s|
    ensures r == -1 || from <= r < |s|
    ensures r == -1 <==> forall p: nat :: from <= p ==> !MarkerAt(s, p)
    ensures r >= 0 ==> MarkerAt(s, r) && forall p: nat :: from <= p < r ==> !MarkerAt(s, p)
    decreases |s| - from
  {
    if from + 4 > |s| then -1
    else if MarkerAt(s, from) then from
    else MarkerFrom(s, from + 1)
  }

  /** `name.split('[FT:')[0]`: the name up to its first marker, or all of it. */
  function BeforeMarker(name: string): (r: string)
    ensures NoMarker(r)
    ensures r <= name
    ensures r == name <==> NoMarker(name)
  {
    var i := MarkerFrom(name, 0);
    if i == -1 then name
    else
      assert !NoMarker(name) by {
        assert MarkerAt(name, i);
      }
      assert forall p: nat :: MarkerAt(name[..i], p) ==> MarkerAt(name, p);
      name[..i]
  }

  /** `cleanWorksheetName` cuts no more than once: cleaning a clean name changes nothing. */
  lemma CleanIdempotent(name: string)
    ensures BeforeMarker(BeforeMarker(name)) == BeforeMarker(name)
  {
  }

  /** The name `save` writes: the name before its first marker, then the new marker. */
  function SaveName(currentName: string, encoded: string): string {
    BeforeMarker(currentName) + "[FT:" + encoded + "]"
  }

  /** When the encoded text holds no '[', the saved name has exactly one marker, right after the kept prefix. */
  lemma SavedMarkerOnce(currentName: string, encoded: string)
    requires '[' !in encoded
    ensures forall p: nat :: MarkerAt(SaveName(currentName, encoded), p) <==> p == |BeforeMarker(currentName)|
  {
    var base := BeforeMarker(currentName);
    var saved := SaveName(currentName, encoded);
    var b := |base|;
    assert saved[b] == '[' && saved[b + 1] == 'F' && saved[b + 2] == 'T' && saved[b + 3] == ':';
    forall p: nat | MarkerAt(saved, p)
      ensures p == b
    {
      if p + 4 <= b {
        assert MarkerAt(base, p);
      }
    }
  }

  /** Saving again replaces the marker instead of stacking a second one. */
  lemma ResaveReplaces(currentName: string, e1: string, e2: string)
    requires '[' !in e1
    ensures SaveName(SaveName(currentName, e1), e2) == SaveName(currentName, e2)
  {
    var saved := SaveName(currentName, e1);
    var b := |BeforeMarker(currentName)|;
    SavedMarkerOnce(currentName, e1);
    assert MarkerAt(saved, b);
    assert MarkerFrom(saved, 0) == b;
    assert saved[..b] == BeforeMarker(currentName);
  }

  /** The longest run of characters other than ']' from position p. */
  function RunFrom(s: string, p: nat): (n: nat)
    requires p <= |s|
    ensures p + n <= |s|
    ensures forall k :: p <= k < p + n ==> s[k] != ']'
    ensures p + n == |s| || s[p + n] == ']'
    decreases |s| - p
  {
    if p == |s| || s[p] == ']' then 0 else 1 + RunFrom(s, p + 1)
  }

  /** The match of `/\[FT:([^\]]+)\]/` from position `from` on, leftmost first: its group 1. */
  function MatchFrom(s: string, from: nat): (r: Option<string>)
    requires from <= |s|
    decreases |s| - from
  {
    if from + 4 > |s| then None
    else if MarkerAt(s, from) && RunFrom(s, from + 4) > 0 && from + 4 + RunFrom(s, from + 4) < |s| then
      Some(s[from + 4..from + 4 + RunFrom(s, from + 4)])
    else MatchFrom(s, from + 1)
  }

  function MatchMarker(name: string): Option<string> {
    MatchFrom(name, 0)
  }

  lemma {:induction false} MatchSkips(s: string, from: nat, to: nat)
    requires from <= to <= |s|
    requires forall p: nat :: from <= p < to ==> !MarkerAt(s, p)
    ensures MatchFrom(s, from) == MatchFrom(s, to)
    decreases |s| - from
  {
    if from < to {
      MatchSkips(s, from + 1, to);
    }
  }

  lemma {:induction false} MatchNone(s: string, from: nat)
    requires from <= |s|
    requires forall p: nat :: from <= p ==> !MarkerAt(s, p)
    ensures MatchFrom(s, from) == None
    decreases |s| - from
  {
    if from + 4 <= |s| {
      MatchNone(s, from + 1);
    }
  }

  /** A name with no marker at all loads nothing. */
  lemma NoMarkerNoMatch(name: string)
    requires NoMarker(name)
    ensures MatchMarker(name) == None
  {
    MatchNone(name, 0);
  }

  /** The run from p stops at the first ']', so it spans exactly a text without ']' that a ']' follows. */
  lemma {:induction false} RunOver(s: string, p: nat, n: nat)
    requires p + n < |s| && s[p + n] == ']'
    requires forall k :: p <= k < p + n ==> s[k] != ']'
    ensures RunFrom(s, p) == n
    decreases n
  {
    if n > 0 {
      RunOver(s, p + 1, n - 1);
    }
  }

  /** Text that starts with '[' after a marker-free prefix adds no marker inside that prefix. */
  lemma MarkerFreeBefore(base: string, rest: string)
    requires NoMarker(base) && rest != [] && rest[0] == '['
    ensures forall p: nat :: p < |base| ==> !MarkerAt(base + rest, p)
  {
    var s := base + rest;
    forall p: nat | p < |base|
      ensures !MarkerAt(s, p)
    {
      if p + 4 <= |base| {
        assert !MarkerAt(base, p);
      } else {
        assert s[|base|] == '[';
      }
    }
  }

  /** A marker at b followed by a non-empty run and a ']' is matched there. */
  lemma MatchAt(s: string, b: nat, n: nat)
    requires MarkerAt(s, b) && n > 0 && b + 4 + n < |s| && s[b + 4 + n] == ']'
    requires forall k :: b + 4 <= k < b + 4 + n ==> s[k] != ']'
    ensures MatchFrom(s, b) == Some(s[b + 4..b + 4 + n])
  {
    RunOver(s, b + 4, n);
  }

  /** What `load` extracts is what `save` wrote, for any non-empty encoded text without ']'. */
  lemma SaveLoadRoundTrip(currentName: string, encoded: string)
    requires encoded != [] && ']' !in encoded
    ensures MatchMarker(SaveName(currentName, encoded)) == Some(encoded)
  {
    var base := BeforeMarker(currentName);
    var rest := "[FT:" + encoded + "]";
    var saved := base + rest;
    var b := |base|;
    var e := |encoded|;
    assert SaveName(currentName, encoded) == saved;
    MarkerFreeBefore(base, rest);
    MatchSkips(saved, 0, b);
    assert saved[b + 4..b + 4 + e] == encoded;
    assert forall k :: b + 4 <= k < b + 4 + e ==> saved[k] == encoded[k - b - 4];
    MatchAt(saved, b, e);
  }

  /** An empty marker `[FT:]` does not match, so saving empty text is not loaded back. */
  lemma EmptyEncodedNotLoaded(currentName: string)
    ensures MatchMarker(SaveName(currentName, "")) == None
  {
    var saved := SaveName(currentName, "");
    SavedMarkerOnce(currentName, "");
    var b := |BeforeMarker(currentName)|;
    MatchSkips(saved, 0, b);
    assert RunFrom(saved, b + 4) == 0;
    MatchNone(saved, b + 1);
  }

  /** The base64 alphabet of section 4 of RFC 4648, padding included. */
  predicate Base64(e: string) {
    forall i :: 0 <= i < |e| ==>
      ('A' <= e[i] <= 'Z') || ('a' <= e[i] <= 'z') || ('0' <= e[i] <= '9') || e[i] == '+' || e[i] == '/' || e[i] == '='
  }

  /** Non-empty base64 text is saved under exactly one marker and loaded back exactly. */
  lemma Base64RoundTrip(currentName: string, encoded: string)
    requires encoded != [] && Base64(encoded)
    ensures MatchMarker(SaveName(currentName, encoded)) == Some(encoded)
    ensures forall p: nat :: MarkerAt(SaveName(currentName, encoded), p) <==> p == |BeforeMarker(currentName)|
  {
    assert ']' !in encoded && '[' !in encoded by {
      forall i | 0 <= i < |encoded|
        ensures encoded[i] != ']' && encoded[i] != '['
      {
      }
    }
    SaveLoadRoundTrip(currentName, encoded);
    SavedMarkerOnce(currentName, encoded);
  }

  /** The object behind `worksheetSettings`: the settings it holds. */
  class WorksheetSettings {
    var settings: F.Settings

    constructor ()
      ensures settings == F.Initial()
    {
      settings := F.Initial();
    }

    /**
     * `save`: the new worksheet name, or None when encoding throws (`btoa`
     * on a character outside Latin-1). `encode` stands for `btoa` after
     * `JSON.stringify`; the host's rename is left to the caller.
     */
    method Save(currentName: string, encode: F.Settings -> Option<string>) returns (newName: Option<string>)
      ensures encode(settings).None? ==> newName.None?
      ensures encode(settings).Some? ==> newName == Some(SaveName(currentName, encode(settings).value))
    {
      var encoded := encode(settings);
      if encoded.None? {
        return None;
      }
      newName := Some(BeforeMarker(currentName) + "[FT:" + encoded.value + "]");
    }

    /** `load`: false and nothing changed without a marker or when decoding throws; otherwise the decoded settings. */
    method Load(name: string, decode: string -> Option<F.Settings>) returns (ok: bool)
      modifies this
      ensures ok <==> MatchMarker(name).Some? && decode(MatchMarker(name).value).Some?
      ensures ok ==> settings == decode(MatchMarker(name).value).value
      ensures !ok ==> settings == old(settings)
    {
      var m := MatchMarker(name);
      if m.None? {
        return false;
      }
      var decoded := decode(m.value);
      if decoded.None? {
        return false;
      }
      settings := decoded.value;
      return true;
    }

    /** `getSettings`: the object `load` or `updateSettings` last stored, unvalidated. */
    function GetSettings(): (r: F.Settings)
      reads this
      ensures r == settings
    {
      settings
    }

    method UpdateSettings(newSettings: F.Settings)
      modifies this
      ensures settings == newSettings
    {
      settings := newSettings;
    }

    /** `cleanWorksheetName`: the clean name to rename to, only when it differs from the current one. */
    method CleanWorksheetName(currentName: string) returns (rename: Option<string>)
      ensures rename.Some? <==> !NoMarker(currentName)
      ensures rename.Some? ==> rename.value == BeforeMarker(currentName) && NoMarker(rename.value)
    {
      var clean := BeforeMarker(currentName);
      if clean != currentName {
        return Some(clean);
      }
      return None;
    }
  }
}
