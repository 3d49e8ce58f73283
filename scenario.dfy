/** Clients of the store and the filters: an add followed by an edit, a
    delete, two adds in a row, and one concrete search. The three methods
    rely only on NoteStore's method contracts; the search lemmas work
    through the definitions of MatchesText, ToLower and Filter. */
module Scenario {
  import opened Text
  import opened Notes
  import opened Store

  /** Editing the only note changes its content and nothing else. */
  lemma EditOnlyNote(n: Note, text: string)
    ensures EditContent([n], n.id, text) == Some([n.(content := text)])
  {
    assert FindIndex([n], n.id) == Some(0);
    assert [n][0 := n.(content := text)] == [n.(content := text)];
  }

  /** From a fresh browser, add a note and change its text: each load
      returns exactly what the last save wrote, and the edit keeps the id
      and the date. */
  method AddThenEdit(first: string, second: string, id: int, now: string)
    returns (afterAdd: seq<Note>, afterEdit: seq<Note>)
    requires !AllTrimSpace(first) && !AllTrimSpace(second)
    ensures afterAdd == [NewNote(id, Trim(first), now)]
    ensures afterEdit == [NewNote(id, Trim(second), now)]
  {
    var store := new NoteStore();
    var added := store.Add(first, id, now);
    afterAdd := store.Load();
    var n := NewNote(id, Trim(first), now);
    assert afterAdd == [n];
    assert HasId(afterAdd, id) by { assert afterAdd[0].id == id; }
    EditOnlyNote(n, Trim(second));
    var outcome := store.Edit(id, second);
    afterEdit := store.Load();
  }

  /** Deleting the only note leaves an empty collection in storage. */
  method DeleteOnlyNote(n: Note) returns (afterDelete: seq<Note>)
    ensures afterDelete == []
  {
    var store := new NoteStore();
    store.Save([n]);
    store.Delete(n.id);
    afterDelete := store.Load();
    assert forall m :: m !in afterDelete;
  }

  /** Two adds in a row are stored in the order they were made, and a
      blank third one is refused. */
  method InsertionOrder(first: string, second: string, blank: string, now: string)
    returns (stored: seq<Note>)
    requires !AllTrimSpace(first) && !AllTrimSpace(second) && AllTrimSpace(blank)
    ensures stored == [NewNote(1, Trim(first), now), NewNote(2, Trim(second), now)]
  {
    var store := new NoteStore();
    var added := store.Add(first, 1, now);
    added := store.Add(second, 2, now);
    added := store.Add(blank, 3, now);
    stored := store.Load();
  }

  /** "MILK" matches "Buy milk", ignoring case. */
  lemma MilkMatchesBuyMilk()
    ensures MatchesText(Note(2, "Buy milk", "2026-10-14"), "MILK")
  {
    assert ToLower("MILK") == "milk";
    assert ToLower("Buy milk") == "buy milk";
    assert OccursAt("buy milk", "milk", 4);
    IncludesIff("buy milk", "milk");
  }

  /** "MILK" does not match "Call mom". */
  lemma MilkMissesCallMom()
    ensures !MatchesText(Note(3, "Call mom", "2026-10-14"), "MILK")
  {
    assert ToLower("MILK") == "milk";
    assert ToLower("Call mom") == "call mom";
    forall i ensures !OccursAt("call mom", "milk", i) {
      if 0 <= i <= 4 {
        assert "call mom"[i..i + 4][0] == "call mom"[i] != 'm';
      }
    }
    IncludesIff("call mom", "milk");
  }

  /** Of "Buy milk" and "Call mom", searching "MILK" keeps only the first. */
  lemma MilkSearch()
    ensures FilterByText([Note(2, "Buy milk", "2026-10-14"), Note(3, "Call mom", "2026-10-14")], "MILK")
            == [Note(2, "Buy milk", "2026-10-14")]
  {
    MilkMatchesBuyMilk();
    MilkMissesCallMom();
    var notes := [Note(2, "Buy milk", "2026-10-14"), Note(3, "Call mom", "2026-10-14")];
    assert notes[1..][1..] == [];
  }
}
