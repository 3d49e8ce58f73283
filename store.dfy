/** The widget's storage discipline: every handler that reads or changes
    the collection kept under the "notes" key loads it whole. Add,
    edit-save and delete write the whole collection back; search and the
    date filter only read it. */
module Store {
  import opened Text
  import opened Notes

  /** Outcome of the edit-save handler. */
  datatype EditOutcome =
    | Saved
    | EmptyContent  // the trimmed text is "": the alert path
    | NotFound      // no note has the id: `find` gave `undefined`

  class NoteStore {
    /** What the "notes" key holds: None while nothing was ever saved. */
    var item: Option<seq<Note>>

    /** The collection `getNotesFromStorage` yields. */
    function Stored(): seq<Note>
      reads this
    {
      if item.None? then [] else item.value
    }

    /** A fresh browser: the key is absent. */
    constructor ()
      ensures item == None && Stored() == []
    {
      item := None;
    }

    /** `getNotesFromStorage`: the stored collection, or [] when the key is
        absent. Storage is not touched. */
    method Load() returns (notes: seq<Note>)
      ensures notes == Stored()
    {
      notes := Stored();
    }

    /** `saveNotesToStorage`: the key now holds exactly `notes`. */
    method Save(notes: seq<Note>)
      modifies this
      ensures item == Some(notes) && Stored() == notes
    {
      item := Some(notes);
    }

    /** The add handler, with the clock's milliseconds as `id` and its
        `toISOString()` as `now`. Refused, with storage untouched, when the
        trimmed text is ""; otherwise the new note is appended after all
        stored ones. */
    method Add(text: string, id: int, now: string) returns (added: bool)
      modifies this
      ensures added <==> !AllTrimSpace(text)
      ensures !added ==> item == old(item)
      ensures added ==> item == Some(old(Stored()) + [NewNote(id, Trim(text), now)])
      ensures added ==> Stored()[|Stored()| - 1].content == Trim(text) != []
      ensures WellDated(old(Stored())) && IsIsoTimestamp(now) ==> WellDated(Stored())
      ensures NonBlank(old(Stored())) ==> NonBlank(Stored())
    {
      var content := Trim(text);
      TrimEmptyIff(text);
      TrimIdempotent(text);
      if content == [] {
        return false;
      }
      var notes := Load();
      notes := notes + [NewNote(id, content, now)];
      Save(notes);
      added := true;
    }

    /** The edit-save handler. Refused when the trimmed text is "", and
        NotFound when no stored note has `id` (the source fails there before
        it saves); in both cases storage is untouched. Otherwise only the
        first note with `id` gets the trimmed text as content. */
    method Edit(id: int, text: string) returns (outcome: EditOutcome)
      modifies this
      ensures outcome == EmptyContent <==> AllTrimSpace(text)
      ensures outcome == NotFound <==> !AllTrimSpace(text) && !HasId(old(Stored()), id)
      ensures outcome != Saved ==> item == old(item)
      ensures outcome == Saved ==>
                EditContent(old(Stored()), id, Trim(text)).Some? &&
                item == Some(EditContent(old(Stored()), id, Trim(text)).value)
      ensures outcome == Saved ==> Trim(text) != []
      ensures WellDated(old(Stored())) ==> WellDated(Stored())
      ensures NonBlank(old(Stored())) ==> NonBlank(Stored())
    {
      var content := Trim(text);
      TrimEmptyIff(text);
      TrimIdempotent(text);
      if content == [] {
        return EmptyContent;
      }
      var notes := Load();
      var edited := EditContent(notes, id, content);
      if edited.None? {
        return NotFound;
      }
      EditKeepsIdsAndDates(notes, id, content);
      Save(edited.value);
      outcome := Saved;
    }

    /** The delete handler: the notes whose id differs are saved back, even
        when that is all of them. */
    method Delete(id: int)
      modifies this
      ensures item == Some(RemoveById(old(Stored()), id))
      ensures forall n :: n in Stored() <==> n in old(Stored()) && n.id != id
      ensures WellDated(old(Stored())) ==> WellDated(Stored())
      ensures NonBlank(old(Stored())) ==> NonBlank(Stored())
    {
      var notes := Load();
      RemoveByIdSpec(notes, id);
      Save(RemoveById(notes, id));
    }

    /** The search handler's view of storage; storage is not touched. */
    method Search(query: string) returns (view: seq<Note>)
      ensures view == FilterByText(Stored(), query)
      ensures forall n :: n in view <==> n in Stored() && MatchesText(n, query)
    {
      var notes := Load();
      FilterByTextSpec(notes, query);
      view := FilterByText(notes, query);
    }

    /** The date handler's view of storage; storage is not touched. */
    method SelectDate(date: string) returns (view: seq<Note>)
      ensures view == FilterByDate(Stored(), date)
      ensures forall n :: n in view <==> n in Stored() && n.createdAt == date
    {
      var notes := Load();
      FilterByDateSpec(notes, date);
      view := FilterByDate(notes, date);
    }
  }
}
