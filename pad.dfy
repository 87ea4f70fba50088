/**
 * The pad bookkeeping of the editor page: the list of pad names, the selected
 * pad, the editor buffer, and their persistence in the key/value store (pad
 * text under "mdp_pad_" + name, the list under "mdp_list"), plus the one-shot
 * migration out of the legacy localStorage format.
 */
module Pads {
  import opened Optional
  import opened SimpleIndexedDB

  const PadPrefix := "mdp_pad_"
  const ListName := "mdp_list"
  const Home := "home"
  const LegacyListKey := "mdp-list"
  const LegacyPrefix := "smde_"

  /**
   * A stored value: `null`, a text, or the JSON text of a list of pad names
   * (`Json(names)` stands for `JSON.stringify(names)`; JSON text itself is not modelled).
   */
  datatype Val = Null | Text(s: string) | Json(names: seq<string>)

  /** JavaScript truthiness of a stored value or `undefined`: JSON of an array is never empty. */
  predicate Truthy(v: Option<Val>)
  {
    match v
    case None => false
    case Some(Null) => false
    case Some(Text(s)) => s != ""
    case Some(Json(_)) => true
  }

  /** `JSON.parse` of a truthy stored value as a list of names; `None` when it throws. */
  function Parse(v: Val): Option<seq<string>>
  {
    if v.Json? then Some(v.names) else None
  }

  /** The store key of a pad's text. */
  function PadKey(name: string): string
  {
    PadPrefix + name
  }

  /** Distinct pads never share a store key, and no pad key is the list's key. */
  lemma PadKeyInjective(a: string, b: string)
    ensures PadKey(a) == PadKey(b) <==> a == b
    ensures PadKey(a) != ListName
  {
    if PadKey(a) == PadKey(b) {
      assert a == PadKey(a)[|PadPrefix|..];
    }
    assert PadKey(a)[4] != ListName[4];
  }

  /** `localStorage.getItem(key)`: the stored value, or `null`. */
  function GetItem(legacy: map<string, Val>, key: string): Val
  {
    if key in legacy then legacy[key] else Null
  }

  /**
   * The editor buffer after `mde.value(v)`: a text replaces it, and so does a
   * serialized list, which is a text too; `undefined` makes `value` a getter,
   * so the buffer stays; the widget refuses `null`.
   */
  function Shown(buffer: string, v: Option<Val>): string
  {
    if v.None? then buffer
    else match v.value
      case Null => buffer
      case Text(s) => s
      case Json(names) => Stringified(names)
  }

  /** `JSON.stringify(names)`: the names quoted, separated by commas, in brackets. */
  function Stringified(names: seq<string>): string
  {
    "[" + Quoted(names) + "]"
  }

  function Quoted(names: seq<string>): string
  {
    if names == [] then ""
    else if |names| == 1 then "\"" + names[0] + "\""
    else "\"" + names[0] + "\"," + Quoted(names[1..])
  }

  /** `pads.filter(el => el != name)`. */
  function Without(pads: seq<string>, name: string): (r: seq<string>)
    ensures name !in r
    ensures forall x :: x != name ==> multiset(r)[x] == multiset(pads)[x]
    ensures name !in pads ==> r == pads
  {
    if pads == [] then []
    else
      assert pads == [pads[0]] + pads[1..];
      if pads[0] == name then Without(pads[1..], name)
      else [pads[0]] + Without(pads[1..], name)
  }

  /**
   * Filtering a concatenation filters each part and concatenates the results:
   * with `WithoutOne` this determines `Without` completely, so the survivors
   * keep their order, repeats included.
   */
  lemma {:induction false} WithoutSplits(a: seq<string>, b: seq<string>, name: string)
    ensures Without(a + b, name) == Without(a, name) + Without(b, name)
  {
    if a == [] {
      assert a + b == b;
    } else {
      var ab := a + b;
      assert ab[0] == a[0] && ab[1..] == a[1..] + b;
      WithoutSplits(a[1..], b, name);
      var head := if a[0] == name then [] else [a[0]];
      assert Without(ab, name) == head + Without(ab[1..], name);
      assert Without(a, name) == head + Without(a[1..], name);
    }
  }

  /** A single name survives exactly when it is not the removed one. */
  lemma WithoutOne(x: string, name: string)
    ensures Without([x], name) == if x == name then [] else [x]
  {
  }

  /** The export file name: the selected pad's name with ".md" appended. */
  function DownloadName(pad: string): string
  {
    pad + ".md"
  }

  /** The file name carries the pad name as its stem, so different pads export to different files. */
  lemma DownloadNameStem(a: string, b: string)
    ensures DownloadName(a)[..|a|] == a && DownloadName(a)[|a|..] == ".md"
    ensures DownloadName(a) == DownloadName(b) ==> a == b
  {
    if DownloadName(a) == DownloadName(b) {
      assert |a| == |b|;
      assert a == DownloadName(a)[..|a|];
    }
  }

  /** The store after the migration loop copied each listed legacy pad to its new key. */
  function Copied(entries: map<string, Val>, legacy: map<string, Val>, names: seq<string>): map<string, Val>
  {
    if names == [] then entries
    else
      var last := names[|names| - 1];
      Copied(entries, legacy, names[..|names| - 1])[PadKey(last) := GetItem(legacy, LegacyPrefix + last)]
  }

  /**
   * After the copy, every listed pad's new key holds its legacy text (a name
   * listed twice is copied twice from the same place) and every other key is
   * as it was.
   */
  lemma {:induction false} CopiedContent(entries: map<string, Val>, legacy: map<string, Val>, names: seq<string>, key: string)
    ensures forall n :: n in names ==> PadKey(n) in Copied(entries, legacy, names)
    ensures forall n :: n in names ==> Copied(entries, legacy, names)[PadKey(n)] == GetItem(legacy, LegacyPrefix + n)
    ensures (forall n :: n in names ==> key != PadKey(n)) ==> Lookup(Copied(entries, legacy, names), key) == Lookup(entries, key)
  {
    if names != [] {
      var init, last := names[..|names| - 1], names[|names| - 1];
      CopiedContent(entries, legacy, init, key);
      forall n | n in names
        ensures Copied(entries, legacy, names)[PadKey(n)] == GetItem(legacy, LegacyPrefix + n)
      {
        if n != last {
          PadKeyInjective(n, last);
          assert n in init;
        }
      }
    }
  }

  /** The Vue component's state: `pads`, `selected`, the editor buffer, and the two stores. */
  class App {
    var pads: seq<string>
    var selected: string
    var editor: string
    /** The legacy flat store (`localStorage`). */
    var legacy: map<string, Val>
    const db: KvStore<Val>

    ghost predicate Valid()
      reads this, db
    {
      db.Valid() && db.hostOpens
    }

    /** The component's initial data: no pads yet, "home" selected, an empty editor. */
    constructor (db: KvStore<Val>, legacy: map<string, Val>)
      requires db.Valid() && db.hostOpens
      ensures Valid() && this.db == db && this.legacy == legacy
      ensures pads == [] && selected == Home && editor == ""
    {
      this.db := db;
      this.legacy := legacy;
      pads := [];
      selected := Home;
      editor := "";
    }

    /** `savePad(location)`: the editor text goes to the pad's key; no other key changes. */
    method SavePad(location: string)
      requires Valid()
      modifies db
      ensures Valid()
      ensures db.entries == old(db.entries)[PadKey(location) := Text(editor)]
    {
      var ok, stored := db.Set(PadKey(location), Text(editor));
    }

    /** `getPad(location)`: what the store holds under the pad's key, or `undefined`. */
    method GetPad(location: string) returns (v: Option<Val>)
      requires Valid()
      modifies db
      ensures Valid()
      ensures db.entries == old(db.entries)
      ensures v == Lookup(db.entries, PadKey(location))
    {
      var ok;
      ok, v := db.Get(PadKey(location));
    }

    /** `savePadList()`: the list, as JSON, goes to "mdp_list". */
    method SavePadList()
      requires Valid()
      modifies db
      ensures Valid()
      ensures db.entries == old(db.entries)[ListName := Json(pads)]
    {
      var ok, stored := db.Set(ListName, Json(pads));
    }

    /**
     * `loadPadList()`: a truthy stored list replaces `pads`; without one the
     * list is `["home"]`. `ok` is false when the stored value does not parse
     * (`JSON.parse` throws), and then nothing changes.
     */
    method LoadPadList() returns (ok: bool)
      requires Valid()
      modifies this, db
      ensures Valid()
      ensures db.entries == old(db.entries)
      ensures selected == old(selected) && editor == old(editor) && legacy == old(legacy)
      ensures var stored := Lookup(db.entries, ListName);
              && ok == (!Truthy(stored) || Parse(stored.value).Some?)
              && pads == if !Truthy(stored) then [Home]
                         else if ok then Parse(stored.value).value
                         else old(pads)
    {
      var got, stored := db.Get(ListName);
      ok := true;
      if Truthy(stored) {
        var parsed := Parse(stored.value);
        if parsed.Some? {
          pads := parsed.value;
        } else {
          ok := false;
        }
      } else {
        pads := [Home];
      }
    }

    /**
     * `addPad()` with the prompt's answer (`None` when cancelled): a truthy
     * name is appended, even when the list already has it, becomes the
     * selection, and the list is saved; otherwise nothing changes.
     */
    method AddPad(answer: Option<string>)
      requires Valid()
      modifies this, db
      ensures Valid()
      ensures editor == old(editor) && legacy == old(legacy)
      ensures answer.Some? && answer.value != "" ==>
                && pads == old(pads) + [answer.value]
                && selected == answer.value
                && db.entries == old(db.entries)[ListName := Json(pads)]
      ensures answer.None? || answer.value == "" ==>
                pads == old(pads) && selected == old(selected) && db.entries == old(db.entries)
    {
      if answer.Some? && answer.value != "" {
        pads := pads + [answer.value];
        selected := answer.value;
        SavePadList();
      }
    }

    /**
     * `removePad()` with the confirmation's answer: every occurrence of the
     * selected name leaves the list, the list is saved, the pad's text is
     * deleted, and "home" becomes the selection.
     */
    method RemovePad(confirmed: bool)
      requires Valid()
      modifies this, db
      ensures Valid()
      ensures editor == old(editor) && legacy == old(legacy)
      ensures confirmed ==>
                && pads == Without(old(pads), old(selected))
                && db.entries == old(db.entries)[ListName := Json(pads)] - {PadKey(old(selected))}
                && selected == Home
      ensures !confirmed ==> pads == old(pads) && selected == old(selected) && db.entries == old(db.entries)
    {
      var gone := selected;
      if confirmed {
        pads := Without(pads, gone);
        SavePadList();
        var ok := db.Delete(PadKey(gone));
        selected := Home;
      }
    }

    /**
     * The `selected` watcher, run when the selection changed from `from` to
     * `to`: the old pad is saved only while the list still has it, then the
     * new pad's stored text is shown.
     */
    method Switch(from: string, to: string)
      requires Valid()
      requires from != to
      modifies this`editor, db
      ensures Valid()
      ensures db.entries == if from in pads then old(db.entries)[PadKey(from) := Text(old(editor))]
                            else old(db.entries)
      ensures editor == Shown(old(editor), Lookup(old(db.entries), PadKey(to)))
    {
      if from in pads {
        SavePad(from);
      }
      PadKeyInjective(from, to);
      var v := GetPad(to);
      editor := Shown(editor, v);
    }

    /**
     * The remove button followed by the watcher it triggers: the removed pad's
     * text is gone from the store for good, because the watcher no longer
     * finds the pad in the list and so does not save it back.
     */
    method RemovePadAndSwitch(confirmed: bool)
      requires Valid()
      modifies this, db
      ensures Valid()
      ensures confirmed ==> PadKey(old(selected)) !in db.entries && old(selected) !in pads && selected == Home
      ensures !confirmed ==> pads == old(pads) && selected == old(selected) && db.entries == old(db.entries)
    {
      var from := selected;
      RemovePad(confirmed);
      if selected != from {
        Switch(from, selected);
      }
    }

    /** `savePadList()` then `loadPadList()` gives back the same list. */
    method SaveThenLoadPadList() returns (ok: bool)
      requires Valid()
      modifies this, db
      ensures Valid()
      ensures ok && pads == old(pads)
    {
      SavePadList();
      ok := LoadPadList();
    }

    /**
     * `foundLegacyStorage()`: when localStorage holds a truthy "mdp-list", the
     * list it parses to becomes `pads` and is saved, each listed pad's
     * "smde_" entry is copied to its "mdp_pad_" key, localStorage is cleared,
     * and the call answers true. Without one nothing changes and it answers
     * false. `ok` is false when the legacy list does not parse.
     */
    method FoundLegacyStorage() returns (ok: bool, found: bool)
      requires Valid()
      modifies this, db
      ensures Valid()
      ensures selected == old(selected) && editor == old(editor)
      ensures var oldList := GetItem(old(legacy), LegacyListKey);
              && found == (Truthy(Some(oldList)) && Parse(oldList).Some?)
              && ok == (!Truthy(Some(oldList)) || Parse(oldList).Some?)
              && (found ==> && pads == Parse(oldList).value
                            && db.entries == Copied(old(db.entries)[ListName := Json(pads)], old(legacy), pads)
                            && legacy == map[])
              && (!found ==> pads == old(pads) && db.entries == old(db.entries) && legacy == old(legacy))
    {
      var oldList := GetItem(legacy, LegacyListKey);
      found := false;
      ok := true;
      if Truthy(Some(oldList)) {
        var parsed := Parse(oldList);
        if parsed.None? {
          ok := false;
          return;
        }
        var names := parsed.value;
        pads := names;
        SavePadList();
        var i := 0;
        while i < |names|
          invariant 0 <= i <= |names|
          invariant Valid() && pads == names && legacy == old(legacy)
          invariant selected == old(selected) && editor == old(editor)
          invariant db.entries == Copied(old(db.entries)[ListName := Json(names)], legacy, names[..i])
        {
          assert names[..i + 1][..i] == names[..i];
          var ok', stored := db.Set(PadKey(names[i]), GetItem(legacy, LegacyPrefix + names[i]));
          i := i + 1;
        }
        assert names[..i] == names;
        legacy := map[];
        found := true;
      }
    }

    /** The migration runs once: after it found legacy data, a second run finds none and changes nothing. */
    method MigrateTwice() returns (first: bool, second: bool)
      requires Valid()
      modifies this, db
      ensures Valid()
      ensures selected == old(selected) && editor == old(editor)
      ensures first ==> !second && legacy == map[]
      ensures first ==> Parse(GetItem(old(legacy), LegacyListKey)) == Some(pads)
      ensures first ==> db.entries == Copied(old(db.entries)[ListName := Json(pads)], old(legacy), pads)
      ensures first ==> forall n :: n in pads ==>
                          PadKey(n) in db.entries && db.entries[PadKey(n)] == GetItem(old(legacy), LegacyPrefix + n)
    {
      var ok;
      ok, first := FoundLegacyStorage();
      if first {
        CopiedContent(old(db.entries)[ListName := Json(pads)], old(legacy), pads, ListName);
      }
      var ok2;
      ok2, second := FoundLegacyStorage();
    }

    /** `downloadPad()`: the file name and the text offered for download. */
    method DownloadPad() returns (filename: string, data: string)
      ensures |filename| == |selected| + 3
      ensures filename[..|selected|] == selected && filename[|selected|..] == ".md"
      ensures data == editor
    {
      filename := DownloadName(selected);
      data := editor;
      DownloadNameStem(selected, selected);
    }
  }
}
