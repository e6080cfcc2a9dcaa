/** The note dialogs: switching with its refresh, the edit and create
    dialogs with their name check and JPY-only settings, the delete button's
    guard, the default name of a new note, and the accent colour decoded
    from a `#rrggbb` string. */
module NoteUI {
  import opened Wrappers
  import opened Text
  import opened JsNumber
  import opened Data
  import opened Cells
  import opened State
  import opened Renderer

  /** Two note lists that differ at most in counts and time stamps. */
  predicate SameButCounts(a: seq<Note>, b: seq<Note>) {
    |a| == |b| && forall j :: 0 <= j < |a| ==> a[j].(counts := b[j].counts, updatedAt := b[j].updatedAt) == b[j]
  }

  lemma SameButCountsTrans(a: seq<Note>, b: seq<Note>, c: seq<Note>)
    requires SameButCounts(a, b) && SameButCounts(b, c)
    ensures SameButCounts(a, c)
  {
    forall j | 0 <= j < |a| ensures a[j].(counts := c[j].counts, updatedAt := c[j].updatedAt) == c[j] {
      assert a[j].(counts := b[j].counts, updatedAt := b[j].updatedAt) == b[j];
      assert b[j].(counts := c[j].counts, updatedAt := c[j].updatedAt) == c[j];
    }
  }

  /** Saving the displays only touches counts and time stamps. */
  lemma SaveOnlyCounts(st: Store, cells: seq<Cell>, now: string)
    ensures var r := SaveCounts(st, cells, now);
      SameButCounts(st.notes, r.notes) && r.currentNoteId == st.currentNoteId && r.currency == st.currency
  {
  }

  /** Switching notes only touches counts and time stamps. */
  lemma SwitchOnlyCounts(st: Store, cells: seq<Cell>, noteId: string, now: string)
    ensures SameButCounts(st.notes, SwitchNote(st, cells, noteId, now).0.notes)
  {
    SaveOnlyCounts(st, cells, now);
  }

  /** The refresh after an edit or a switch: `renderCurrency` as written,
      whose closing `updateSummary` saves the rendered displays into the
      current note, then the handler's own `updateSummary`, which saves
      them again. Only counts and time stamps change; no cell of the shown
      currency is greyed; every display shows the note's stored count. */
  function Refresh(st: Store, cells: seq<Cell>, now: string): (r: (Store, seq<Cell>))
    ensures SameButCounts(st.notes, r.0.notes)
    ensures r.0.currentNoteId == st.currentNoteId && r.0.currency == st.currency
    ensures |r.1| == |cells|
    ensures forall k :: 0 <= k < |cells| && cells[k].group == st.currency ==> !r.1[k].disabled
    ensures CurrentIndex(st).Some? ==> var i := CurrentIndex(st).value;
      && (forall k :: 0 <= k < |cells| ==> r.1[k].value == RestoreValue(st.notes[i].counts, cells[k].id))
      && r.0.notes[i].counts == ReadCells(r.1)
  {
    var shown := RenderCurrencyAsWritten(st, cells);
    var once := SaveCounts(st, shown, now);
    SaveOnlyCounts(st, shown, now);
    SaveCountsIdempotent(st, shown, now);
    (SaveCounts(once, shown, now), shown)
  }

  // ----- handleNoteSwitch -----

  /** `handleNoteSwitch`: when `switchNote` succeeds the page is refreshed
      and the `noteSwitched` event is sent; the result's flag says whether
      it was. When it fails nothing happens. */
  function HandleNoteSwitch(st: Store, cells: seq<Cell>, noteId: string, now: string): (r: (Store, seq<Cell>, bool))
    ensures r.2 <==> FindNote(st.notes, noteId).Some?
    ensures !r.2 ==> r.0 == st && r.1 == cells
    ensures SameButCounts(st.notes, r.0.notes)
    ensures r.2 ==> && r.0.currentNoteId == Some(noteId)
                    && CurrentIndex(r.0) == FindNote(st.notes, noteId)
                    && r.0.currency == st.notes[FindNote(st.notes, noteId).value].currency
  {
    var (switched, loaded, ok) := SwitchNote(st, cells, noteId, now);
    if !ok then (st, cells, false)
    else
      var (saved, shown) := Refresh(switched, loaded, now);
      SwitchOnlyCounts(st, cells, noteId, now);
      SameButCountsTrans(st.notes, switched.notes, saved.notes);
      FindNoteSameIds(switched.notes, saved.notes, noteId);
      (saved, shown, true)
  }

  // ----- Settings from the dialog's check boxes -----

  /** The settings object built from three check boxes. */
  function SettingsOf(f: HideFlags): (r: Settings)
    ensures forall g :: g in r
    ensures FlagsOf(r) == f
  {
    var r := map[Hide2000 := f.hide2000, HideBills := f.hideBills, HideCoins := f.hideCoins];
    DefaultsComplete();
    assert r.Keys == DefaultSettings.Keys;
    r
  }

  const NoFlags: HideFlags := HideFlags(false, false, false)

  // ----- Edit dialog -----

  /** The save button of the edit dialog as written. Nothing happens when
      the note is unknown (the dialog does not open) or the trimmed name is
      empty. Otherwise the new name is stored, and then the call of
      `updateNoteColor` throws, since app/core/state.js defines no such
      function: the settings, the refresh, the note list and the closing of
      the dialog are never reached. The result's flag says whether the name
      was stored. */
  function EditSave(st: Store, cells: seq<Cell>, noteId: string, nameInput: string, checks: HideFlags,
                    now: string): (r: (Store, seq<Cell>, bool))
    ensures !r.2 <==> FindNote(st.notes, noteId).None? || AllSpace(nameInput)
    ensures !r.2 ==> r.0 == st
    ensures r.1 == cells
    ensures r.2 ==> var i := FindNote(st.notes, noteId).value;
      && |r.0.notes| == |st.notes| && r.0.currentNoteId == st.currentNoteId && r.0.currency == st.currency
      && r.0.notes[i] == st.notes[i].(name := Trim(nameInput), updatedAt := now)
      && (forall j :: 0 <= j < |st.notes| && j != i ==> r.0.notes[j] == st.notes[j])
  {
    match FindNote(st.notes, noteId)
    case None => (st, cells, false)
    case Some(i) =>
      var name := Trim(nameInput);
      if name == [] then (st, cells, false)
      else (UpdateNoteName(st, noteId, name, now).0, cells, true)
  }

  /** The store updates of the edit dialog as intended: the new name, and
      for a JPY note the check boxes merged into its settings. */
  function EditNoteIntended(st: Store, i: nat, noteId: string, name: string, checks: HideFlags, now: string)
    : (r: Store)
    requires FindNote(st.notes, noteId) == Some(i)
    ensures |r.notes| == |st.notes| && r.currentNoteId == st.currentNoteId && r.currency == st.currency
    ensures forall j :: 0 <= j < |st.notes| && j != i ==> r.notes[j] == st.notes[j]
    ensures var n := st.notes[i];
      r.notes[i] == n.(name := name, updatedAt := now,
                       settings := if n.currency == JPY then MergeSettings(n.settings, SettingsOf(checks)) else n.settings)
  {
    var renamed := UpdateNoteName(st, noteId, name, now).0;
    FindNoteSameIds(st.notes, renamed.notes, noteId);
    if st.notes[i].currency == JPY then UpdateNoteSettings(renamed, noteId, SettingsOf(checks), now).0 else renamed
  }

  /** The save button as intended, with the colour update left out: the
      note is updated, and an edit of the current note refreshes the page. */
  function EditSaveIntended(st: Store, cells: seq<Cell>, noteId: string, nameInput: string, checks: HideFlags,
                            now: string): (r: (Store, seq<Cell>, bool))
    ensures !r.2 <==> FindNote(st.notes, noteId).None? || AllSpace(nameInput)
    ensures !r.2 ==> r.0 == st && r.1 == cells
    ensures Some(noteId) != st.currentNoteId ==> r.1 == cells
    ensures |r.0.notes| == |st.notes|
  {
    match FindNote(st.notes, noteId)
    case None => (st, cells, false)
    case Some(i) =>
      var name := Trim(nameInput);
      if name == [] then (st, cells, false)
      else
        var updated := EditNoteIntended(st, i, noteId, name, checks, now);
        if Some(noteId) == st.currentNoteId then
          var (saved, shown) := Refresh(updated, cells, now);
          (saved, shown, true)
        else (updated, cells, true)
  }

  /** An intended edit gives the note the trimmed name; a JPY note takes
      the check boxes as its flags, and any other note keeps its settings. */
  lemma EditUpdatesNote(st: Store, cells: seq<Cell>, noteId: string, nameInput: string, checks: HideFlags, now: string)
    requires FindNote(st.notes, noteId).Some? && !AllSpace(nameInput)
    ensures var i := FindNote(st.notes, noteId).value;
      var n := EditSaveIntended(st, cells, noteId, nameInput, checks, now).0.notes[i];
      && n.name == Trim(nameInput)
      && n.id == noteId
      && (st.notes[i].currency == JPY ==> FlagsOf(n.settings) == checks)
      && (st.notes[i].currency != JPY ==> n.settings == st.notes[i].settings)
  {
    var i := FindNote(st.notes, noteId).value;
    var updated := EditNoteIntended(st, i, noteId, Trim(nameInput), checks, now);
    var r := EditSaveIntended(st, cells, noteId, nameInput, checks, now);
    assert r.0.notes[i].(counts := updated.notes[i].counts, updatedAt := updated.notes[i].updatedAt) == updated.notes[i];
    assert r.0.notes[i].settings == updated.notes[i].settings;
    if st.notes[i].currency == JPY {
      MergedFlags(st.notes[i].settings, checks);
    }
  }

  /** Editing a JPY note whose stored flags differ from the check boxes: as
      written the flags and the page stay as they were, while the intended
      handler stores the check boxes. */
  lemma EditSettingsLostAsWritten(st: Store, cells: seq<Cell>, noteId: string, nameInput: string,
                                  checks: HideFlags, now: string)
    requires FindNote(st.notes, noteId).Some? && !AllSpace(nameInput)
    requires var n := st.notes[FindNote(st.notes, noteId).value]; n.currency == JPY && FlagsOf(n.settings) != checks
    ensures var i := FindNote(st.notes, noteId).value;
      var r := EditSave(st, cells, noteId, nameInput, checks, now);
      && FlagsOf(r.0.notes[i].settings) != checks && r.1 == cells
      && FlagsOf(EditSaveIntended(st, cells, noteId, nameInput, checks, now).0.notes[i].settings) == checks
  {
    EditUpdatesNote(st, cells, noteId, nameInput, checks, now);
  }

  /** Check boxes merged into stored settings decide the flags. */
  lemma MergedFlags(stored: Settings, f: HideFlags)
    ensures FlagsOf(MergeSettings(stored, SettingsOf(f))) == f
  {
  }

  // ----- Create dialog -----

  /** The name the create dialog proposes when `n` notes exist. */
  function NewNoteName(n: nat): (r: string)
    ensures r == "新規ノート " + NatToString(n + 1)
  {
    "新規ノート " + NatToString(n + 1)
  }

  /** The name proposed for the first note is the name of the note made at
      start-up, and different note counts propose different names. */
  lemma NewNoteNames(a: nat, b: nat)
    ensures NewNoteName(0) == FirstNoteName
    ensures NewNoteName(a) == NewNoteName(b) ==> a == b
  {
    assert NatToString(1) == "1";
    if NewNoteName(a) == NewNoteName(b) {
      var p := "新規ノート ";
      assert NatToString(a + 1) == NewNoteName(a)[|p|..];
      assert NatToString(b + 1) == NewNoteName(b)[|p|..];
      NatToStringInjective(a + 1, b + 1);
    }
  }

  /** The create button: nothing happens for a blank name; otherwise a note
      with the trimmed name is created, its flags being the check boxes for
      JPY and all false otherwise, and it is switched to. */
  function CreateFromDialog(st: Store, cells: seq<Cell>, nameInput: string, currency: Currency, checks: HideFlags,
                            id: string, now: string): (r: (Store, seq<Cell>, bool))
    ensures AllSpace(nameInput) ==> r == (st, cells, false)
    ensures !AllSpace(nameInput) ==> |r.0.notes| == |st.notes| + 1 && r.2
  {
    var name := Trim(nameInput);
    if name == [] then (st, cells, false)
    else
      var settings := SettingsOf(if currency == JPY then checks else NoFlags);
      var (created, n) := CreateNewNote(st, id, now, name, currency, settings);
      FindNoteAppendOne(st.notes, n);
      HandleNoteSwitch(created, cells, id, now)
  }

  /** A note appended with a fresh id is found at the end. */
  lemma {:induction false} FindNoteFresh(notes: seq<Note>, n: Note)
    requires forall j :: 0 <= j < |notes| ==> notes[j].id != n.id
    ensures FindNote(notes + [n], n.id) == Some(|notes|)
  {
    if notes != [] {
      assert (notes + [n])[1..] == notes[1..] + [n];
      FindNoteFresh(notes[1..], n);
    }
  }

  /** With a fresh id, the created note is the last one, it becomes current,
      and it holds the trimmed name and the gated flags. */
  lemma CreatedNoteBecomesCurrent(st: Store, cells: seq<Cell>, nameInput: string, currency: Currency,
                                  checks: HideFlags, id: string, now: string)
    requires !AllSpace(nameInput)
    requires forall j :: 0 <= j < |st.notes| ==> st.notes[j].id != id
    ensures var r := CreateFromDialog(st, cells, nameInput, currency, checks, id, now);
      var n := r.0.notes[|st.notes|];
      && r.0.currentNoteId == Some(id) && CurrentIndex(r.0) == Some(|st.notes|)
      && r.0.currency == currency
      && n.id == id && n.name == Trim(nameInput) && n.currency == currency && n.savedPoints == []
      && FlagsOf(n.settings) == (if currency == JPY then checks else NoFlags)
  {
    var settings := SettingsOf(if currency == JPY then checks else NoFlags);
    var (created, n) := CreateNewNote(st, id, now, Trim(nameInput), currency, settings);
    FindNoteFresh(st.notes, n);
    var r := HandleNoteSwitch(created, cells, id, now);
    assert CreateFromDialog(st, cells, nameInput, currency, checks, id, now) == r;
    assert r.0.currentNoteId == Some(id) && CurrentIndex(r.0) == Some(|st.notes|);
    assert r.0.currency == currency;
    assert r.0.notes[|st.notes|].(counts := n.counts, updatedAt := n.updatedAt) == n;
    assert r.0.notes[|st.notes|].settings == n.settings;
    assert FlagsOf(n.settings) == FlagsOf(settings);
  }

  // ----- Delete button -----

  datatype DeleteOutcome = Refused | Declined | Done(deleted: bool)

  /** The delete button of the note list: refused while at most one note
      exists, and otherwise carried out only after confirmation. */
  function DeleteFromList(st: Store, cells: seq<Cell>, noteId: string, confirmed: bool, now: string,
                          freshId: string): (r: (Store, seq<Cell>, DeleteOutcome))
    ensures r.2 == Refused <==> |st.notes| <= 1
    ensures r.2 == Declined <==> |st.notes| > 1 && !confirmed
    ensures !r.2.Done? ==> r.0 == st && r.1 == cells
    ensures r.2.Done? ==> (r.2.deleted <==> FindNote(st.notes, noteId).Some?)
  {
    if |st.notes| <= 1 then (st, cells, Refused)
    else if !confirmed then (st, cells, Declined)
    else
      var (s, c, ok) := DeleteNote(st, cells, noteId, now, freshId);
      (s, c, Done(ok))
  }

  /** With the guard, deleting a note whose neighbours all have ids removes
      exactly one note and never has to create a replacement. */
  lemma GuardAvoidsRecreation(st: Store, cells: seq<Cell>, noteId: string, now: string, freshId: string)
    requires |st.notes| > 1 && FindNote(st.notes, noteId).Some?
    requires forall j :: 0 <= j < |st.notes| ==> st.notes[j].id != ""
    ensures var r := DeleteFromList(st, cells, noteId, true, now, freshId);
      r.2 == Done(true) && |r.0.notes| == |st.notes| - 1
  {
    var i := FindNote(st.notes, noteId).value;
    var removed := st.(notes := st.notes[..i] + st.notes[i + 1..]);
    if st.currentNoteId == Some(noteId) {
      assert removed.notes[0].id != "" by {
        if i == 0 { assert removed.notes[0] == st.notes[1]; } else { assert removed.notes[0] == st.notes[0]; }
      }
      var first := removed.notes[0].id;
      SaveCountsKeepsShape(removed.(currentNoteId := Some(first)), cells, now);
    }
  }

  // ----- Accent colour (applyNoteColor) -----

  datatype Glow = Plain | Tinted(red: Num, green: Num, blue: Num)

  predicate IsHexDigit(c: char) {
    ('0' <= c <= '9') || ('a' <= c <= 'f') || ('A' <= c <= 'F')
  }

  function HexDigitValue(c: char): (v: nat)
    requires IsHexDigit(c)
    ensures v < 16
  {
    if '0' <= c <= '9' then (c as int) - ('0' as int)
    else if 'a' <= c <= 'f' then (c as int) - ('a' as int) + 10
    else (c as int) - ('A' as int) + 10
  }

  /** Number of leading hexadecimal digits. */
  function HexRun(s: string): (n: nat)
    ensures n <= |s|
    ensures forall i :: 0 <= i < n ==> IsHexDigit(s[i])
    ensures n < |s| ==> !IsHexDigit(s[n])
  {
    if s == [] || !IsHexDigit(s[0]) then 0 else 1 + HexRun(s[1..])
  }

  /** The value of the first `n` characters of `s`, all hexadecimal
      digits, most significant first. */
  function HexValue(s: string, n: nat): nat
    requires n <= |s| && forall i :: 0 <= i < n ==> IsHexDigit(s[i])
  {
    if n == 0 then 0 else 16 * HexValue(s, n - 1) + HexDigitValue(s[n - 1])
  }

  /** The characters `parseInt(s, 16)` reads digits from: leading white
      space, an optional sign and an optional `0x`/`0X` prefix skipped. */
  function HexBody(s: string): (r: (bool, string))
  {
    var t := TrimStart(s);
    var negative := t != [] && t[0] == '-';
    var unsigned := if t != [] && (t[0] == '-' || t[0] == '+') then t[1..] else t;
    var digits := if |unsigned| >= 2 && unsigned[0] == '0' && (unsigned[1] == 'x' || unsigned[1] == 'X')
                  then unsigned[2..] else unsigned;
    (negative, digits)
  }

  /** `parseInt(s, 16)`: the longest run of hexadecimal digits after the
      skipped prefix, with its sign; NaN when the run is empty. */
  function ParseHex(s: string): (r: Num)
    ensures r.NaN? <==> HexRun(HexBody(s).1) == 0
  {
    var (negative, digits) := HexBody(s);
    var n := HexRun(digits);
    if n == 0 then NaN
    else
      var v := HexValue(digits, n);
      Finite(if negative then -(v as real) else v as real)
  }

  /** `s.substring(a, b)` for `a <= b`. */
  function Substring(s: string, a: nat, b: nat): (r: string)
    requires a <= b
    ensures |r| <= b - a
  {
    var hi := if b < |s| then b else |s|;
    var lo := if a < hi then a else hi;
    s[lo..hi]
  }

  /** `s.replace('#', '')`: the first `#` removed. */
  function RemoveFirstHash(s: string): (r: string)
    ensures '#' !in s ==> r == s
    ensures s != [] && s[0] == '#' ==> r == s[1..]
  {
    if s == [] then []
    else if s[0] == '#' then s[1..]
    else [s[0]] + RemoveFirstHash(s[1..])
  }

  /** `applyNoteColor(color)`: a missing, empty or `'default'` colour clears
      the glow; anything else is read as `#rrggbb`. */
  function ApplyNoteColor(color: Option<string>): (r: Glow)
    ensures color.None? || color == Some("") || color == Some("default") ==> r == Plain
  {
    match color
    case None => Plain
    case Some(c) =>
      if c == [] || c == "default" then Plain
      else
        var hex := RemoveFirstHash(c);
        Tinted(ParseHex(Substring(hex, 0, 2)), ParseHex(Substring(hex, 2, 4)), ParseHex(Substring(hex, 4, 6)))
  }

  /** The lower-case hexadecimal digit of a value below 16. */
  function HexChar(v: nat): (c: char)
    requires v < 16
    ensures IsHexDigit(c) && HexDigitValue(c) == v
  {
    if v < 10 then ('0' as int + v) as char else ('a' as int + v - 10) as char
  }

  /** Two lower-case hexadecimal digits of a byte value. */
  function Hex2(v: nat): (s: string)
    requires v < 256
    ensures |s| == 2
  {
    [HexChar(v / 16), HexChar(v % 16)]
  }

  /** Two hexadecimal digits read back give the byte value. */
  lemma ParseHex2(v: nat)
    requires v < 256
    ensures ParseHex(Hex2(v)) == Finite(v as real)
  {
    var s := Hex2(v);
    assert TrimStart(s) == s;
    assert HexBody(s) == (false, s);
    assert HexRun(s[1..]) == 1 by {
      assert s[1..][1..] == [];
    }
    assert HexRun(s) == 2;
    assert HexValue(s, 1) == v / 16;
    assert HexValue(s, 2) == 16 * (v / 16) + v % 16;
  }

  /** An accent colour written as `#rrggbb` decodes to its three byte
      values. */
  lemma ColorRoundTrip(red: nat, green: nat, blue: nat)
    requires red < 256 && green < 256 && blue < 256
    ensures ApplyNoteColor(Some("#" + Hex2(red) + Hex2(green) + Hex2(blue)))
         == Tinted(Finite(red as real), Finite(green as real), Finite(blue as real))
  {
    var c := "#" + Hex2(red) + Hex2(green) + Hex2(blue);
    var hex := Hex2(red) + Hex2(green) + Hex2(blue);
    assert RemoveFirstHash(c) == hex by {
      assert c[1..] == hex;
    }
    assert c != "default" by {
      assert |c| == 7;
    }
    assert Substring(hex, 0, 2) == Hex2(red);
    assert Substring(hex, 2, 4) == Hex2(green);
    assert Substring(hex, 4, 6) == Hex2(blue);
    ParseHex2(red);
    ParseHex2(green);
    ParseHex2(blue);
  }
}
