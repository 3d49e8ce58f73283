/** The note records and the pure operations the handlers apply to the
    loaded collection: the creation date, the lookup by id behind
    edit-save, delete-by-id and the two view filters. */
module Notes {
  import opened Text
  import opened Seqs

  /** One stored record `{id, content, created_at}`. */
  datatype Note = Note(id: int, content: string, createdAt: string)

  datatype Option<T> = None | Some(value: T)

  // ---------------------------------------------------------------------
  // The creation date: `new Date().toISOString().split("T")[0]`

  predicate IsDigit(c: char) {
    '0' <= c <= '9'
  }

  /** The `YYYY-MM-DD` shape of a stored `created_at`. */
  predicate IsCalendarDate(d: string) {
    |d| == 10 &&
    IsDigit(d[0]) && IsDigit(d[1]) && IsDigit(d[2]) && IsDigit(d[3]) && d[4] == '-' &&
    IsDigit(d[5]) && IsDigit(d[6]) && d[7] == '-' &&
    IsDigit(d[8]) && IsDigit(d[9])
  }

  /** The `YYYY-MM-DDTHH:mm:ss.sssZ` shape `toISOString` gives for a year
      between 0 and 9999. */
  predicate IsIsoTimestamp(t: string) {
    |t| == 24 && IsCalendarDate(t[..10]) && t[10] == 'T' &&
    IsDigit(t[11]) && IsDigit(t[12]) && t[13] == ':' &&
    IsDigit(t[14]) && IsDigit(t[15]) && t[16] == ':' &&
    IsDigit(t[17]) && IsDigit(t[18]) && t[19] == '.' &&
    IsDigit(t[20]) && IsDigit(t[21]) && IsDigit(t[22]) && t[23] == 'Z'
  }

  /** `t.split("T")[0]`: everything before the first 'T', or all of `t`
      when it has none. */
  function DatePart(t: string): (d: string)
    ensures |d| <= |t| && d == t[..|d|]
    ensures forall k :: 0 <= k < |d| ==> d[k] != 'T'
    ensures |d| < |t| ==> t[|d|] == 'T'
    decreases |t|
  {
    if t == [] || t[0] == 'T' then [] else [t[0]] + DatePart(t[1..])
  }

  /** On a timestamp `toISOString` can produce, the date part is its first
      ten characters, a calendar date, and so never "". */
  lemma DatePartOfTimestamp(t: string)
    requires IsIsoTimestamp(t)
    ensures DatePart(t) == t[..10]
    ensures IsCalendarDate(DatePart(t)) && DatePart(t) != []
  {
    assert t[10] == 'T';
  }

  /** The record the add handler builds from the trimmed text, the id
      (the clock's milliseconds) and the clock's ISO timestamp. */
  function NewNote(id: int, content: string, now: string): (n: Note)
    ensures n.id == id && n.content == content
    ensures IsIsoTimestamp(now) ==> IsCalendarDate(n.createdAt)
  {
    assert IsIsoTimestamp(now) ==> IsCalendarDate(DatePart(now)) by {
      if IsIsoTimestamp(now) { DatePartOfTimestamp(now); }
    }
    Note(id, content, DatePart(now))
  }

  /** Every note carries a calendar date, as every note made by NewNote
      from a real clock reading does. */
  predicate WellDated(notes: seq<Note>) {
    forall k :: 0 <= k < |notes| ==> IsCalendarDate(notes[k].createdAt)
  }

  /** Every note's content is something other than whitespace, as add and
      edit-save only ever store trimmed, non-empty text. */
  predicate NonBlank(notes: seq<Note>) {
    forall k :: 0 <= k < |notes| ==> Trim(notes[k].content) != []
  }

  // ---------------------------------------------------------------------
  // Edit-save: `notes.find(n => n.id === id)` and the content overwrite

  /** Some note carries `id`. */
  predicate HasId(notes: seq<Note>, id: int) {
    exists k :: 0 <= k < |notes| && notes[k].id == id
  }

  /** `i` is the position that `find` stops at: the first note with `id`. */
  predicate IsFirstWithId(notes: seq<Note>, id: int, i: int) {
    0 <= i < |notes| && notes[i].id == id &&
    forall k :: 0 <= k < i ==> notes[k].id != id
  }

  /** The position of the note `find` returns, or None where `find`
      returns `undefined`. */
  function FindIndex(notes: seq<Note>, id: int): (r: Option<nat>)
    ensures r.Some? ==> IsFirstWithId(notes, id, r.value)
    ensures r.None? <==> !HasId(notes, id)
    decreases |notes|
  {
    if notes == [] then None
    else if notes[0].id == id then Some(0)
    else match FindIndex(notes[1..], id)
      case None => None
      case Some(i) => Some(i + 1)
  }

  /** The collection after `noteToUpdate.content = newContent`; None when
      there is no note to update. Only the content of the first note with
      `id` changes: length, order, every id and every date stay. */
  function EditContent(notes: seq<Note>, id: int, newContent: string): (r: Option<seq<Note>>)
    ensures r.None? <==> !HasId(notes, id)
    ensures r.Some? ==>
              |r.value| == |notes| &&
              exists i :: IsFirstWithId(notes, id, i) &&
                          r.value[i] == notes[i].(content := newContent) &&
                          forall k :: 0 <= k < |notes| && k != i ==> r.value[k] == notes[k]
  {
    match FindIndex(notes, id)
    case None => None
    case Some(i) => Some(notes[i := notes[i].(content := newContent)])
  }

  /** An edit keeps every note's id and date in place. */
  lemma EditKeepsIdsAndDates(notes: seq<Note>, id: int, newContent: string)
    requires EditContent(notes, id, newContent).Some?
    ensures var r := EditContent(notes, id, newContent).value;
      |r| == |notes| &&
      forall k :: 0 <= k < |notes| ==>
        r[k].id == notes[k].id && r[k].createdAt == notes[k].createdAt
    ensures WellDated(notes) ==> WellDated(EditContent(notes, id, newContent).value)
  {
    var r := EditContent(notes, id, newContent).value;
    assert forall k :: 0 <= k < |notes| ==> r[k].createdAt == notes[k].createdAt;
  }

  // ---------------------------------------------------------------------
  // Delete: `notes.filter(n => n.id !== id)`

  function RemoveById(notes: seq<Note>, id: int): (r: seq<Note>)
    ensures |r| <= |notes|
    ensures forall k :: 0 <= k < |r| ==> r[k].id != id
  {
    Filter(notes, (n: Note) => n.id != id)
  }

  /** Delete keeps, in order, exactly the notes whose id differs, each as
      often as stored, and
      returns the input itself when no note has the id. */
  lemma RemoveByIdSpec(notes: seq<Note>, id: int)
    ensures IsSubsequence(RemoveById(notes, id), notes)
    ensures forall n :: n in RemoveById(notes, id) <==> n in notes && n.id != id
    ensures forall n :: multiset(RemoveById(notes, id))[n] ==
                        if n.id != id then multiset(notes)[n] else 0
    ensures RemoveById(notes, id) == notes <==> !HasId(notes, id)
    ensures RemoveById(RemoveById(notes, id), id) == RemoveById(notes, id)
  {
    var p := (n: Note) => n.id != id;
    FilterIsSubsequence(notes, p);
    forall n
      ensures n in Filter(notes, p) <==> n in notes && p(n)
      ensures multiset(Filter(notes, p))[n] == if p(n) then multiset(notes)[n] else 0
    {
      FilterMember(notes, p, n);
      FilterCount(notes, p, n);
    }
    FilterKeepsAll(notes, p);
    FilterIdempotent(notes, p);
  }

  // ---------------------------------------------------------------------
  // Search: `notes.filter(n => n.content.toLowerCase().includes(q.toLowerCase()))`

  /** The test the search handler applies to each note. */
  predicate MatchesText(n: Note, query: string) {
    Includes(ToLower(n.content), ToLower(query))
  }

  function FilterByText(notes: seq<Note>, query: string): (r: seq<Note>)
    ensures |r| <= |notes|
    ensures forall k :: 0 <= k < |r| ==> MatchesText(r[k], query)
  {
    Filter(notes, (n: Note) => MatchesText(n, query))
  }

  /** Search keeps, in order, exactly the notes whose lower-cased content
      holds the lower-cased query somewhere, each as often as stored, and
      searching the result again changes nothing. */
  lemma FilterByTextSpec(notes: seq<Note>, query: string)
    ensures IsSubsequence(FilterByText(notes, query), notes)
    ensures forall n :: n in FilterByText(notes, query) <==>
                        n in notes && exists i :: OccursAt(ToLower(n.content), ToLower(query), i)
    ensures forall n :: multiset(FilterByText(notes, query))[n] ==
                        if MatchesText(n, query) then multiset(notes)[n] else 0
    ensures FilterByText(FilterByText(notes, query), query) == FilterByText(notes, query)
  {
    var p := (n: Note) => MatchesText(n, query);
    FilterIsSubsequence(notes, p);
    forall n
      ensures n in Filter(notes, p) <==>
              n in notes && exists i :: OccursAt(ToLower(n.content), ToLower(query), i)
      ensures multiset(Filter(notes, p))[n] == if p(n) then multiset(notes)[n] else 0
    {
      FilterMember(notes, p, n);
      FilterCount(notes, p, n);
      IncludesIff(ToLower(n.content), ToLower(query));
    }
    FilterIdempotent(notes, p);
  }

  /** An empty query keeps the whole collection, in order. */
  lemma FilterByTextEmptyQuery(notes: seq<Note>)
    ensures FilterByText(notes, "") == notes
  {
    var p := (n: Note) => MatchesText(n, "");
    forall k | 0 <= k < |notes| ensures p(notes[k]) {
      IncludesEmpty(ToLower(notes[k].content));
    }
    FilterKeepsAll(notes, p);
  }

  /** The query's letter case does not matter. */
  lemma FilterByTextIgnoresCase(notes: seq<Note>, query: string)
    ensures FilterByText(notes, ToLower(query)) == FilterByText(notes, query)
  {
    ToLowerIdempotent(query);
    var p := (n: Note) => MatchesText(n, query);
    var q := (n: Note) => MatchesText(n, ToLower(query));
    FilterSameTest(notes, p, q);
  }

  // ---------------------------------------------------------------------
  // Date filter: `notes.filter(n => n.created_at === date)`

  function FilterByDate(notes: seq<Note>, date: string): (r: seq<Note>)
    ensures |r| <= |notes|
    ensures forall k :: 0 <= k < |r| ==> r[k].createdAt == date
  {
    Filter(notes, (n: Note) => n.createdAt == date)
  }

  /** The date filter keeps, in order, exactly the notes stamped with
      `date`, each as often as stored, and is idempotent. */
  lemma FilterByDateSpec(notes: seq<Note>, date: string)
    ensures IsSubsequence(FilterByDate(notes, date), notes)
    ensures forall n :: n in FilterByDate(notes, date) <==> n in notes && n.createdAt == date
    ensures forall n :: multiset(FilterByDate(notes, date))[n] ==
                        if n.createdAt == date then multiset(notes)[n] else 0
    ensures FilterByDate(FilterByDate(notes, date), date) == FilterByDate(notes, date)
  {
    var p := (n: Note) => n.createdAt == date;
    FilterIsSubsequence(notes, p);
    forall n
      ensures n in Filter(notes, p) <==> n in notes && p(n)
      ensures multiset(Filter(notes, p))[n] == if p(n) then multiset(notes)[n] else 0
    {
      FilterMember(notes, p, n);
      FilterCount(notes, p, n);
    }
    FilterIdempotent(notes, p);
  }

  /** With no date picked the filter is still equality with "", so on a
      collection whose notes all carry a calendar date it keeps none. */
  lemma FilterByDateEmptyDate(notes: seq<Note>)
    requires WellDated(notes)
    ensures FilterByDate(notes, "") == []
  {
    var p := (n: Note) => n.createdAt == "";
    assert forall k :: 0 <= k < |notes| ==> |notes[k].createdAt| == 10;
    FilterKeepsNone(notes, p);
  }
}
