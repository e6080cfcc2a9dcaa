/** The notes store: the list of notes, the id of the current note and the
    currency shown. Every operation is a transition from one store to the
    next; identifiers and timestamps that the application draws at random
    or from the clock are parameters. Writing to `localStorage` after an
    operation is not part of the model. */
module State {
  import opened Wrappers
  import opened JsNumber
  import opened Data
  import opened Cells

  datatype Flag = Hide2000 | HideBills | HideCoins

  /** A settings object; a key that is absent is `undefined`. */
  type Settings = map<Flag, bool>

  const MaxSavedPoints: nat := 30

  const DefaultSettings: Settings := map[Hide2000 := false, HideBills := false, HideCoins := false]

  /** Every flag has a default. */
  lemma DefaultsComplete()
    ensures forall f: Flag :: f in DefaultSettings && !DefaultSettings[f]
  {
    forall f: Flag ensures f in DefaultSettings && !DefaultSettings[f] {
      match f
      case Hide2000 =>
      case HideBills =>
      case HideCoins =>
    }
  }

  const FirstNoteName: string := "新規ノート 1"

  datatype SavedPoint = SavedPoint(id: string, timestamp: string, memo: string, counts: Counts,
                                   total: Num, billCount: Num, coinCount: Num)

  datatype Note = Note(id: string, name: string, createdAt: string, updatedAt: string,
                       currency: Currency, counts: Counts, settings: Settings,
                       savedPoints: seq<SavedPoint>)

  datatype Store = Store(notes: seq<Note>, currentNoteId: Option<string>, currency: Currency)

  /** `notes.findIndex(n => n.id === id)`, `None` for -1. */
  function FindNote(notes: seq<Note>, id: string): (r: Option<nat>)
    ensures r.Some? ==> r.value < |notes| && notes[r.value].id == id
    ensures r.Some? ==> forall j :: 0 <= j < r.value ==> notes[j].id != id
    ensures r.None? <==> forall j :: 0 <= j < |notes| ==> notes[j].id != id
  {
    if notes == [] then None
    else if notes[0].id == id then Some(0)
    else match FindNote(notes[1..], id)
      case None => None
      case Some(k) => Some(k + 1)
  }

  /** The note `notes.find(n => n.id === appState.currentNoteId)`. */
  function CurrentIndex(st: Store): Option<nat> {
    match st.currentNoteId
    case None => None
    case Some(id) => FindNote(st.notes, id)
  }

  /** The current note id names a note in the list. */
  predicate CurrentValid(st: Store) {
    CurrentIndex(st).Some?
  }

  /** The list with note `i` replaced. */
  function Replace(st: Store, i: nat, n: Note): (r: Store)
    requires i < |st.notes|
    ensures |r.notes| == |st.notes| && r.notes[i] == n
    ensures forall j :: 0 <= j < |st.notes| && j != i ==> r.notes[j] == st.notes[j]
    ensures r.currentNoteId == st.currentNoteId && r.currency == st.currency
  {
    st.(notes := st.notes[i := n])
  }

  // ----- createNewNote -----

  /** `createNewNote(name, currency, settings)` with the new id and the
      current time supplied. */
  function CreateNewNote(st: Store, id: string, now: string, name: string, currency: Currency,
                         settings: Settings): (r: (Store, Note))
    ensures r.0.notes == st.notes + [r.1]
    ensures r.0.currentNoteId == st.currentNoteId && r.0.currency == st.currency
    ensures r.1.id == id && r.1.name == name && r.1.currency == currency
    ensures r.1.counts == map[] && r.1.savedPoints == []
    ensures r.1.createdAt == now && r.1.updatedAt == now
    ensures forall f :: f in r.1.settings && r.1.settings[f] == (if f in settings then settings[f] else false)
  {
    DefaultsComplete();
    var n := Note(id, name, now, now, currency, map[], DefaultSettings + settings, []);
    (st.(notes := st.notes + [n]), n)
  }

  // ----- updateNoteSettings / updateNoteName -----

  /** `{...DEFAULT_NOTE_SETTINGS, ...(note.settings || {}), ...settings}`:
      every flag is defined, and each takes the newest value given. */
  function MergeSettings(stored: Settings, given: Settings): (r: Settings)
    ensures forall f :: f in r
    ensures forall f :: r[f] == (if f in given then given[f] else if f in stored then stored[f] else false)
  {
    DefaultsComplete();
    DefaultSettings + stored + given
  }

  function UpdateNoteSettings(st: Store, noteId: string, settings: Settings, now: string): (r: (Store, bool))
    ensures !r.1 <==> FindNote(st.notes, noteId).None?
    ensures !r.1 ==> r.0 == st
    ensures r.1 ==> var i := FindNote(st.notes, noteId).value;
      r.0 == Replace(st, i, st.notes[i].(settings := MergeSettings(st.notes[i].settings, settings), updatedAt := now))
  {
    match FindNote(st.notes, noteId)
    case None => (st, false)
    case Some(i) =>
      (Replace(st, i, st.notes[i].(settings := MergeSettings(st.notes[i].settings, settings), updatedAt := now)), true)
  }

  function UpdateNoteName(st: Store, noteId: string, newName: string, now: string): (r: (Store, bool))
    ensures !r.1 <==> FindNote(st.notes, noteId).None?
    ensures !r.1 ==> r.0 == st
    ensures r.1 ==> var i := FindNote(st.notes, noteId).value;
      && |r.0.notes| == |st.notes|
      && r.0.notes[i] == st.notes[i].(name := newName, updatedAt := now)
      && (forall j :: 0 <= j < |st.notes| && j != i ==> r.0.notes[j] == st.notes[j])
      && r.0.currentNoteId == st.currentNoteId && r.0.currency == st.currency
  {
    match FindNote(st.notes, noteId)
    case None => (st, false)
    case Some(i) => (Replace(st, i, st.notes[i].(name := newName, updatedAt := now)), true)
  }

  // ----- saveCounts / loadState -----

  /** `saveCounts`: the displays are copied into the current note. Without
      a current note nothing changes; otherwise that note's counts hold
      exactly the cells' ids, each with its display value or `'0'`, and no
      other note, no id and no currency changes. */
  function SaveCounts(st: Store, cells: seq<Cell>, now: string): (r: Store)
    ensures CurrentIndex(st).None? ==> r == st
    ensures CurrentIndex(st).Some? ==> var i := CurrentIndex(st).value;
      r == Replace(st, i, st.notes[i].(counts := ReadCells(cells), updatedAt := now))
    ensures |r.notes| == |st.notes| && r.currentNoteId == st.currentNoteId && r.currency == st.currency
    ensures CurrentIndex(r) == CurrentIndex(st)
    ensures forall j :: 0 <= j < |st.notes| && Some(j) != CurrentIndex(st) ==> r.notes[j] == st.notes[j]
    ensures CurrentIndex(st).Some? ==> var i := CurrentIndex(st).value;
      && r.notes[i].(counts := st.notes[i].counts, updatedAt := st.notes[i].updatedAt) == st.notes[i]
      && (forall k :: 0 <= k < |cells| ==> cells[k].id in r.notes[i].counts)
      && (DistinctCellIds(cells) ==>
            forall k :: 0 <= k < |cells| ==> r.notes[i].counts[cells[k].id] == StrCount(OrZero(cells[k].value)))
  {
    match CurrentIndex(st)
    case None => st
    case Some(i) =>
      var n := st.notes[i].(counts := ReadCells(cells), updatedAt := now);
      ReplaceKeepsCurrent(st, i, n);
      ReadCellsAll(cells);
      Replace(st, i, n)
  }

  /** Saving the same displays twice is saving them once. */
  lemma SaveCountsIdempotent(st: Store, cells: seq<Cell>, now: string)
    ensures SaveCounts(SaveCounts(st, cells, now), cells, now) == SaveCounts(st, cells, now)
  {
  }

  /** `loadState`: every display takes the current note's count for its id,
      or `'0'`, and nothing else about a cell changes. Loading what was just
      saved from the same displays gives every value back. */
  function LoadState(st: Store, cells: seq<Cell>): (r: seq<Cell>)
    ensures CurrentIndex(st).None? ==> r == cells
    ensures CurrentIndex(st).Some? ==> r == LoadCells(cells, st.notes[CurrentIndex(st).value].counts)
    ensures |r| == |cells|
    ensures forall k :: 0 <= k < |cells| ==> r[k] == cells[k].(value := r[k].value)
    ensures CurrentIndex(st).Some? ==> forall k :: 0 <= k < |cells| ==>
      r[k].value == LoadValue(st.notes[CurrentIndex(st).value].counts, cells[k].id) && r[k].value != []
    ensures CurrentIndex(st).Some? && DistinctCellIds(cells) && st.notes[CurrentIndex(st).value].counts == ReadCells(cells) ==>
      forall k :: 0 <= k < |cells| ==> r[k].value == OrZero(cells[k].value)
  {
    match CurrentIndex(st)
    case None => cells
    case Some(i) =>
      if DistinctCellIds(cells) then
        SaveThenLoad(cells);
        LoadCells(cells, st.notes[i].counts)
      else LoadCells(cells, st.notes[i].counts)
  }

  /** Saving only rewrites the current note's counts and time stamp. */
  lemma SaveCountsKeepsShape(st: Store, cells: seq<Cell>, now: string)
    ensures var r := SaveCounts(st, cells, now);
      && |r.notes| == |st.notes|
      && (forall j :: 0 <= j < |st.notes| ==>
            r.notes[j].id == st.notes[j].id && r.notes[j].currency == st.notes[j].currency)
      && r.currentNoteId == st.currentNoteId && r.currency == st.currency
  {
  }

  // ----- switchNote -----

  /** `switchNote(noteId)`: the displays are saved into the note being left,
      then the target becomes current and its counts are loaded. */
  function SwitchNote(st: Store, cells: seq<Cell>, noteId: string, now: string): (r: (Store, seq<Cell>, bool))
    ensures !r.2 <==> FindNote(st.notes, noteId).None?
    ensures !r.2 ==> r.0 == st && r.1 == cells
    ensures r.2 ==> r.0.currentNoteId == Some(noteId)
    ensures r.2 ==> r.0.currency == st.notes[FindNote(st.notes, noteId).value].currency
    ensures r.2 ==> CurrentIndex(r.0) == FindNote(st.notes, noteId)
    ensures r.2 ==> r.1 == LoadCells(cells, r.0.notes[FindNote(st.notes, noteId).value].counts)
  {
    match FindNote(st.notes, noteId)
    case None => (st, cells, false)
    case Some(i) =>
      var saved := SaveCounts(st, cells, now);
      SaveCountsKeepsShape(st, cells, now);
      FindNoteSameIds(st.notes, saved.notes, noteId);
      var switched := saved.(currentNoteId := Some(noteId), currency := st.notes[i].currency);
      (switched, LoadState(switched, cells), true)
  }

  /** Two lists with the same ids find the same index. */
  lemma {:induction false} FindNoteSameIds(a: seq<Note>, b: seq<Note>, id: string)
    requires |a| == |b| && forall j :: 0 <= j < |a| ==> a[j].id == b[j].id
    ensures FindNote(a, id) == FindNote(b, id)
  {
    if a != [] && a[0].id != id {
      FindNoteSameIds(a[1..], b[1..], id);
    }
  }

  // ----- deleteNote -----

  /** `deleteNote(noteId)`. When the deleted note was current, the first
      remaining note becomes current through `switchNote`, or, when no note
      with a non-empty id remains first in line, a fresh default note is
      created and switched to. In both cases `switchNote` first saves the
      displays -- which still show the deleted note -- into the note that
      has just become current. */
  function DeleteNote(st: Store, cells: seq<Cell>, noteId: string, now: string, freshId: string): (r: (Store, seq<Cell>, bool))
    ensures !r.2 <==> FindNote(st.notes, noteId).None?
    ensures !r.2 ==> r.0 == st && r.1 == cells
    ensures r.2 && st.currentNoteId != Some(noteId) ==>
      var i := FindNote(st.notes, noteId).value;
      r.0 == st.(notes := st.notes[..i] + st.notes[i + 1..]) && r.1 == cells
    ensures r.2 && st.currentNoteId == Some(noteId) ==> r.0.notes != [] && CurrentValid(r.0)
  {
    match FindNote(st.notes, noteId)
    case None => (st, cells, false)
    case Some(i) =>
      var removed := st.(notes := st.notes[..i] + st.notes[i + 1..]);
      if st.currentNoteId != Some(noteId) then (removed, cells, true)
      else if removed.notes != [] && removed.notes[0].id != "" then
        var first := removed.notes[0].id;
        var (s2, c2, ok) := SwitchNote(removed.(currentNoteId := Some(first)), cells, first, now);
        (s2, c2, true)
      else
        var (created, n) := CreateNewNote(removed, freshId, now, FirstNoteName, JPY, DefaultSettings);
        assert created.notes[|created.notes| - 1].id == freshId;
        var (s2, c2, ok) := SwitchNote(created.(currentNoteId := Some(freshId)), cells, freshId, now);
        (s2, c2, true)
  }

  // ----- initNotes -----

  /** What `localStorage.getItem('notes_data')` held: a parsed object (the
      missing item reads as `{}`), or text that fails to parse. */
  datatype Loaded = Parsed(notes: seq<Note>, currentNoteId: Option<string>) | Corrupt

  /** `initNotes` from the initial `appState` (no current note, JPY). */
  function InitNotes(loaded: Loaded, freshId: string, now: string): (r: Store)
    ensures r.notes != []
    ensures loaded.Corrupt? || loaded.notes == [] ==>
      |r.notes| == 1 && r.notes[0].id == freshId && r.notes[0].name == FirstNoteName
      && r.notes[0].currency == JPY && r.currentNoteId == Some(freshId) && r.currency == JPY
    ensures loaded.Parsed? && loaded.notes != [] ==> r.notes == loaded.notes
    ensures CurrentValid(r) ==> r.currency == r.notes[CurrentIndex(r).value].currency
    ensures !CurrentValid(r) ==> r.currency == JPY
  {
    var empty := Store([], None, JPY);
    if loaded.Corrupt? || loaded.notes == [] then
      var (created, n) := CreateNewNote(empty, freshId, now, FirstNoteName, JPY, DefaultSettings);
      assert FindNote(created.notes, freshId) == Some(0);
      created.(currentNoteId := Some(freshId))
    else
      var id := if loaded.currentNoteId.Some? && loaded.currentNoteId.value != "" then loaded.currentNoteId.value
                else loaded.notes[0].id;
      var st := Store(loaded.notes, Some(id), JPY);
      match CurrentIndex(st)
      case None => st
      case Some(i) => st.(currency := st.notes[i].currency)
  }

  // ----- getCurrentNoteSettings -----

  /** The current note's settings over the defaults, or the defaults when
      there is no current note. */
  function GetCurrentNoteSettings(st: Store): (r: Settings)
    ensures forall f :: f in r
    ensures CurrentIndex(st).None? ==> r == DefaultSettings
    ensures CurrentIndex(st).Some? ==> forall f ::
      r[f] == var s := st.notes[CurrentIndex(st).value].settings; if f in s then s[f] else false
  {
    match CurrentIndex(st)
    case None => DefaultsComplete(); DefaultSettings
    case Some(i) => DefaultsComplete(); DefaultSettings + st.notes[i].settings
  }

  // ----- save points -----

  /** `savedPoints.unshift(p)` followed by `slice(0, MAX_SAVED_POINTS)` when
      the list grew too long. */
  function PushPoint(points: seq<SavedPoint>, p: SavedPoint): (r: seq<SavedPoint>)
    ensures r != [] && r[0] == p
    ensures |r| == if |points| + 1 > MaxSavedPoints then MaxSavedPoints else |points| + 1
    ensures r[1..] == points[..|r| - 1]
  {
    var grown := [p] + points;
    var r := if |grown| > MaxSavedPoints then grown[..MaxSavedPoints] else grown;
    assert r[1..] == points[..|r| - 1];
    r
  }

  function AddSavedPoint(st: Store, noteId: string, pointId: string, now: string, memo: string,
                         counts: Counts, total: Num, billCount: Num, coinCount: Num): (r: (Store, Option<SavedPoint>))
    ensures r.1.None? <==> FindNote(st.notes, noteId).None?
    ensures r.1.None? ==> r.0 == st
    ensures r.1.Some? ==> r.1.value == SavedPoint(pointId, now, memo, counts, total, billCount, coinCount)
    ensures r.1.Some? ==> var i := FindNote(st.notes, noteId).value;
      r.0 == Replace(st, i, st.notes[i].(savedPoints := PushPoint(st.notes[i].savedPoints, r.1.value), updatedAt := now))
  {
    match FindNote(st.notes, noteId)
    case None => (st, None)
    case Some(i) =>
      var p := SavedPoint(pointId, now, memo, counts, total, billCount, coinCount);
      (Replace(st, i, st.notes[i].(savedPoints := PushPoint(st.notes[i].savedPoints, p), updatedAt := now)), Some(p))
  }

  /** `savedPoints.findIndex(sp => sp.id === id)`, `None` for -1. */
  function FindPoint(points: seq<SavedPoint>, id: string): (r: Option<nat>)
    ensures r.Some? ==> r.value < |points| && points[r.value].id == id
    ensures r.Some? ==> forall j :: 0 <= j < r.value ==> points[j].id != id
    ensures r.None? <==> forall j :: 0 <= j < |points| ==> points[j].id != id
  {
    if points == [] then None
    else if points[0].id == id then Some(0)
    else match FindPoint(points[1..], id)
      case None => None
      case Some(k) => Some(k + 1)
  }

  function DeleteSavedPoint(st: Store, noteId: string, pointId: string, now: string): (r: (Store, bool))
    ensures !r.1 <==> (FindNote(st.notes, noteId).None?
                       || FindPoint(st.notes[FindNote(st.notes, noteId).value].savedPoints, pointId).None?)
    ensures !r.1 ==> r.0 == st
    ensures r.1 ==> var i := FindNote(st.notes, noteId).value;
      var ps := st.notes[i].savedPoints;
      var k := FindPoint(ps, pointId).value;
      r.0 == Replace(st, i, st.notes[i].(savedPoints := ps[..k] + ps[k + 1..], updatedAt := now))
  {
    match FindNote(st.notes, noteId)
    case None => (st, false)
    case Some(i) =>
      var ps := st.notes[i].savedPoints;
      match FindPoint(ps, pointId)
      case None => (st, false)
      case Some(k) => (Replace(st, i, st.notes[i].(savedPoints := ps[..k] + ps[k + 1..], updatedAt := now)), true)
  }

  /** `restoreCounts(noteId, counts)`: the note's counts become a copy of
      the given ones. */
  function RestoreCounts(st: Store, noteId: string, counts: Counts, now: string): (r: (Store, bool))
    ensures !r.1 <==> FindNote(st.notes, noteId).None?
    ensures !r.1 ==> r.0 == st
    ensures r.1 ==> var i := FindNote(st.notes, noteId).value;
      r.0 == Replace(st, i, st.notes[i].(counts := counts, updatedAt := now))
  {
    match FindNote(st.notes, noteId)
    case None => (st, false)
    case Some(i) => (Replace(st, i, st.notes[i].(counts := counts, updatedAt := now)), true)
  }

  // ----- Properties across operations -----

  /** A note that can be found stays findable when notes are appended. */
  lemma {:induction false} FindNoteAppend(notes: seq<Note>, more: seq<Note>, id: string)
    requires FindNote(notes, id).Some?
    ensures FindNote(notes + more, id) == FindNote(notes, id)
  {
    if notes[0].id != id {
      assert (notes + more)[1..] == notes[1..] + more;
      FindNoteAppend(notes[1..], more, id);
    }
  }

  /** A note other than the removed one stays findable. */
  lemma FindAfterRemoval(notes: seq<Note>, i: nat, id: string)
    requires i < |notes| && FindNote(notes, id).Some? && notes[i].id != id
    ensures FindNote(notes[..i] + notes[i + 1..], id).Some?
  {
    var j := FindNote(notes, id).value;
    var rest := notes[..i] + notes[i + 1..];
    if j < i {
      assert rest[j] == notes[j];
    } else {
      assert rest[j - 1] == notes[j];
    }
  }

  lemma ReplaceKeepsCurrent(st: Store, i: nat, n: Note)
    requires i < |st.notes| && n.id == st.notes[i].id
    ensures CurrentIndex(Replace(st, i, n)) == CurrentIndex(st)
  {
    if st.currentNoteId.Some? {
      FindNoteSameIds(st.notes, Replace(st, i, n).notes, st.currentNoteId.value);
    }
  }

  lemma CreateKeepsCurrent(st: Store, id: string, now: string, name: string, currency: Currency, settings: Settings)
    requires CurrentValid(st)
    ensures CurrentValid(CreateNewNote(st, id, now, name, currency, settings).0)
  {
    FindNoteAppend(st.notes, [CreateNewNote(st, id, now, name, currency, settings).1], st.currentNoteId.value);
  }

  lemma UpdatesKeepCurrent(st: Store, id: string, now: string, name: string, settings: Settings, counts: Counts)
    requires CurrentValid(st)
    ensures CurrentValid(UpdateNoteSettings(st, id, settings, now).0)
    ensures CurrentValid(UpdateNoteName(st, id, name, now).0)
    ensures CurrentValid(RestoreCounts(st, id, counts, now).0)
  {
    match FindNote(st.notes, id)
    case None =>
    case Some(i) =>
      var n := st.notes[i];
      ReplaceKeepsCurrent(st, i, n.(settings := MergeSettings(n.settings, settings), updatedAt := now));
      ReplaceKeepsCurrent(st, i, n.(name := name, updatedAt := now));
      ReplaceKeepsCurrent(st, i, n.(counts := counts, updatedAt := now));
  }

  lemma PointsKeepCurrent(st: Store, id: string, pointId: string, now: string, memo: string,
                          counts: Counts, total: Num, bills: Num, coins: Num)
    requires CurrentValid(st)
    ensures CurrentValid(AddSavedPoint(st, id, pointId, now, memo, counts, total, bills, coins).0)
    ensures CurrentValid(DeleteSavedPoint(st, id, pointId, now).0)
  {
    match FindNote(st.notes, id)
    case None =>
    case Some(i) =>
      var n := st.notes[i];
      var pt := SavedPoint(pointId, now, memo, counts, total, bills, coins);
      ReplaceKeepsCurrent(st, i, n.(savedPoints := PushPoint(n.savedPoints, pt), updatedAt := now));
      match FindPoint(n.savedPoints, pointId)
      case None =>
      case Some(k) =>
        ReplaceKeepsCurrent(st, i, n.(savedPoints := n.savedPoints[..k] + n.savedPoints[k + 1..], updatedAt := now));
  }

  lemma SaveKeepsCurrent(st: Store, cells: seq<Cell>, now: string)
    ensures CurrentIndex(SaveCounts(st, cells, now)) == CurrentIndex(st)
  {
    if CurrentIndex(st).Some? {
      var j := CurrentIndex(st).value;
      ReplaceKeepsCurrent(st, j, st.notes[j].(counts := ReadCells(cells), updatedAt := now));
    }
  }

  lemma DeleteKeepsCurrent(st: Store, cells: seq<Cell>, id: string, now: string, freshId: string)
    requires CurrentValid(st)
    ensures CurrentValid(DeleteNote(st, cells, id, now, freshId).0)
  {
    if st.currentNoteId != Some(id) && FindNote(st.notes, id).Some? {
      FindAfterRemoval(st.notes, FindNote(st.notes, id).value, st.currentNoteId.value);
    }
  }

  /** Every operation keeps the current note id pointing at a note. */
  lemma CurrentValidPreserved(st: Store, cells: seq<Cell>, id: string, other: string, now: string,
                              name: string, currency: Currency, settings: Settings, counts: Counts,
                              total: Num, bills: Num, coins: Num)
    requires CurrentValid(st)
    ensures CurrentValid(CreateNewNote(st, other, now, name, currency, settings).0)
    ensures CurrentValid(UpdateNoteSettings(st, id, settings, now).0)
    ensures CurrentValid(UpdateNoteName(st, id, name, now).0)
    ensures CurrentValid(SaveCounts(st, cells, now))
    ensures CurrentValid(SwitchNote(st, cells, id, now).0)
    ensures CurrentValid(DeleteNote(st, cells, id, now, other).0)
    ensures CurrentValid(AddSavedPoint(st, id, other, now, name, counts, total, bills, coins).0)
    ensures CurrentValid(DeleteSavedPoint(st, id, other, now).0)
    ensures CurrentValid(RestoreCounts(st, id, counts, now).0)
  {
    CreateKeepsCurrent(st, other, now, name, currency, settings);
    UpdatesKeepCurrent(st, id, now, name, settings, counts);
    PointsKeepCurrent(st, id, other, now, name, counts, total, bills, coins);
    SaveKeepsCurrent(st, cells, now);
    DeleteKeepsCurrent(st, cells, id, now, other);
  }

  /** Deleting a note never leaves the list empty while the current note is
      valid: either another note is current, or a replacement is made. */
  lemma DeleteKeepsNotes(st: Store, cells: seq<Cell>, noteId: string, now: string, freshId: string)
    requires CurrentValid(st)
    ensures DeleteNote(st, cells, noteId, now, freshId).0.notes != []
  {
    DeleteKeepsCurrent(st, cells, noteId, now, freshId);
  }

  /** When the current note is deleted and another note is first in line,
      that note becomes current, the list is otherwise just the removal, and
      the counts still on display -- the deleted note's -- are saved into
      it and shown again. */
  lemma DeleteCurrentHandsOver(st: Store, cells: seq<Cell>, noteId: string, now: string, freshId: string)
    requires st.currentNoteId == Some(noteId) && FindNote(st.notes, noteId).Some?
    requires var i := FindNote(st.notes, noteId).value;
      |st.notes| > 1 && (st.notes[..i] + st.notes[i + 1..])[0].id != ""
    ensures var i := FindNote(st.notes, noteId).value;
      var removed := st.notes[..i] + st.notes[i + 1..];
      var r := DeleteNote(st, cells, noteId, now, freshId);
      && r.2
      && r.0.currentNoteId == Some(removed[0].id)
      && r.0.currency == removed[0].currency
      && r.0.notes == removed[0 := removed[0].(counts := ReadCells(cells), updatedAt := now)]
      && r.1 == LoadCells(cells, ReadCells(cells))
  {
    var i := FindNote(st.notes, noteId).value;
    var removed := st.notes[..i] + st.notes[i + 1..];
    var first := removed[0].id;
    var rs := st.(notes := removed, currentNoteId := Some(first));
    assert FindNote(removed, first) == Some(0);
    assert CurrentIndex(rs) == Some(0);
    var saved := SaveCounts(rs, cells, now);
    assert saved.notes == removed[0 := removed[0].(counts := ReadCells(cells), updatedAt := now)];
    var switched := saved.(currentNoteId := Some(first), currency := removed[0].currency);
    SaveKeepsCurrent(rs, cells, now);
    assert CurrentIndex(switched) == Some(0);
    assert LoadState(switched, cells) == LoadCells(cells, ReadCells(cells));
    assert SwitchNote(rs, cells, first, now) == (switched, LoadCells(cells, ReadCells(cells)), true);
  }

  /** As written, deleting the current note overwrites the counts of the
      note taking over with the counts still on display, whenever the two
      differ: the stored counts of that note are lost. */
  lemma DeleteLosesCountsAsWritten(st: Store, cells: seq<Cell>, noteId: string, now: string, freshId: string)
    requires st.currentNoteId == Some(noteId) && FindNote(st.notes, noteId).Some?
    requires var i := FindNote(st.notes, noteId).value;
      var removed := st.notes[..i] + st.notes[i + 1..];
      |st.notes| > 1 && removed[0].id != "" && removed[0].counts != ReadCells(cells)
    ensures var i := FindNote(st.notes, noteId).value;
      var removed := st.notes[..i] + st.notes[i + 1..];
      DeleteNote(st, cells, noteId, now, freshId).0.notes[0].counts != removed[0].counts
  {
    DeleteCurrentHandsOver(st, cells, noteId, now, freshId);
  }

  /** `deleteNote` as intended: when the current note is deleted, the note
      taking over (the first remaining one, or a fresh default note) is
      loaded onto the displays without first being given the deleted
      note's counts. */
  function DeleteNoteIntended(st: Store, cells: seq<Cell>, noteId: string, now: string, freshId: string)
    : (r: (Store, seq<Cell>, bool))
    ensures !r.2 <==> FindNote(st.notes, noteId).None?
    ensures !r.2 ==> r.0 == st && r.1 == cells
    ensures r.2 ==> var i := FindNote(st.notes, noteId).value;
      var removed := st.notes[..i] + st.notes[i + 1..];
      |removed| <= |r.0.notes| && r.0.notes[..|removed|] == removed
    ensures r.2 && st.currentNoteId != Some(noteId) ==>
      var i := FindNote(st.notes, noteId).value;
      r.0 == st.(notes := st.notes[..i] + st.notes[i + 1..]) && r.1 == cells
    ensures r.2 && st.currentNoteId == Some(noteId) ==>
      && CurrentValid(r.0)
      && r.0.currency == r.0.notes[CurrentIndex(r.0).value].currency
      && r.1 == LoadCells(cells, r.0.notes[CurrentIndex(r.0).value].counts)
  {
    match FindNote(st.notes, noteId)
    case None => (st, cells, false)
    case Some(i) =>
      var removed := st.(notes := st.notes[..i] + st.notes[i + 1..]);
      if st.currentNoteId != Some(noteId) then (removed, cells, true)
      else if removed.notes != [] && removed.notes[0].id != "" then
        var first := removed.notes[0];
        var switched := removed.(currentNoteId := Some(first.id), currency := first.currency);
        assert FindNote(switched.notes, first.id) == Some(0);
        (switched, LoadState(switched, cells), true)
      else
        var (created, n) := CreateNewNote(removed, freshId, now, FirstNoteName, JPY, DefaultSettings);
        FindNoteAppendOne(removed.notes, n);
        var k := FindNote(created.notes, freshId).value;
        var switched := created.(currentNoteId := Some(freshId), currency := created.notes[k].currency);
        assert created.notes[..|removed.notes|] == removed.notes;
        (switched, LoadState(switched, cells), true)
  }

  /** A note appended to the list can be found by its id. */
  lemma FindNoteAppendOne(notes: seq<Note>, n: Note)
    ensures FindNote(notes + [n], n.id).Some?
  {
    assert (notes + [n])[|notes|].id == n.id;
  }

  /** Deleting the current note as intended leaves the counts of every
      remaining note as they were, where the code as written replaces those
      of the note taking over. */
  lemma DeleteKeepsCountsIntended(st: Store, cells: seq<Cell>, noteId: string, now: string, freshId: string)
    requires FindNote(st.notes, noteId).Some?
    ensures var i := FindNote(st.notes, noteId).value;
      var removed := st.notes[..i] + st.notes[i + 1..];
      var r := DeleteNoteIntended(st, cells, noteId, now, freshId).0;
      forall j :: 0 <= j < |removed| ==> r.notes[j].counts == removed[j].counts
  {
    var i := FindNote(st.notes, noteId).value;
    var removed := st.notes[..i] + st.notes[i + 1..];
    var r := DeleteNoteIntended(st, cells, noteId, now, freshId).0;
    forall j | 0 <= j < |removed| ensures r.notes[j].counts == removed[j].counts {
      assert r.notes[..|removed|][j] == r.notes[j];
    }
  }

  /** When the last note is deleted while current, a default JPY note is
      created and becomes current, holding the counts still on display. */
  lemma DeleteLastNoteRecreates(st: Store, cells: seq<Cell>, noteId: string, now: string, freshId: string)
    requires st.currentNoteId == Some(noteId) && |st.notes| == 1 && st.notes[0].id == noteId
    ensures var r := DeleteNote(st, cells, noteId, now, freshId);
      && r.2 && |r.0.notes| == 1
      && r.0.notes[0].id == freshId && r.0.notes[0].name == FirstNoteName && r.0.notes[0].currency == JPY
      && r.0.notes[0].counts == ReadCells(cells)
      && r.0.currentNoteId == Some(freshId) && r.0.currency == JPY
  {
    assert FindNote(st.notes, noteId) == Some(0);
    assert st.notes[..0] + st.notes[1..] == [];
  }

  /** Repeated saves never hold more than `MAX_SAVED_POINTS` entries, and
      the newest is first. */
  lemma SavedPointsCapped(st: Store, noteId: string, pointId: string, now: string, memo: string,
                          counts: Counts, total: Num, bills: Num, coins: Num)
    requires FindNote(st.notes, noteId).Some?
    ensures var i := FindNote(st.notes, noteId).value;
      var ps := AddSavedPoint(st, noteId, pointId, now, memo, counts, total, bills, coins).0.notes[i].savedPoints;
      && 1 <= |ps| <= MaxSavedPoints
      && ps[0].id == pointId && ps[0].counts == counts
      && (|st.notes[i].savedPoints| < MaxSavedPoints ==> ps[1..] == st.notes[i].savedPoints)
  {
  }
}
