/** The saved-point screens: the totals and default memo of a new saved
    point, the detail table of a point, the sidebar list, and restoring or
    deleting a point after confirmation. */
module HistoryUI {
  import opened Wrappers
  import opened Text
  import opened JsNumber
  import opened Data
  import opened Cells
  import opened State
  import opened Renderer

  // ----- Save-point totals (openSavePointModal) -----

  /** One cell of the save-point loop. Unlike the summary it only skips
      cells without a catalog entry: a NaN count is added like any other. */
  function PointStep(acc: Summary, r: Reading): Summary {
    if r.item.None? then acc
    else
      var d := r.item.value;
      var amt := Mul(Finite(Kind(d)), r.val);
      if IsCoin(d) then Summary(Add(acc.total, amt), acc.bills, Add(acc.coins, r.val))
      else Summary(Add(acc.total, amt), Add(acc.bills, r.val), acc.coins)
  }

  function PointFold(rs: seq<Reading>): Summary {
    if rs == [] then Summary(Zero, Zero, Zero)
    else PointStep(PointFold(rs[..|rs| - 1]), rs[|rs| - 1])
  }

  /** The `counts` object of a saved point, given the cells and their
      readings: the number each catalog cell's display reads as, under the
      cell's id; a later cell with the same id wins. */
  function PointCounts(cells: seq<Cell>, rs: seq<Reading>): (r: Counts)
    requires |rs| == |cells|
    ensures forall i :: 0 <= i < |cells| && rs[i].item.Some? ==> cells[i].id in r
    ensures forall id :: id in r ==> exists i :: 0 <= i < |cells| && cells[i].id == id && rs[i].item.Some?
    ensures forall v :: v in r.Values ==> v.NumCount?
  {
    if cells == [] then map[]
    else
      var n := |cells| - 1;
      var m := PointCounts(cells[..n], rs[..n]);
      assert forall i :: 0 <= i < n ==> cells[..n][i] == cells[i] && rs[..n][i] == rs[i];
      if rs[n].item.None? then m
      else m[cells[n].id := NumCount(rs[n].val)]
  }

  /** With distinct ids, each catalog cell's number is stored under its id. */
  lemma {:induction false} PointCountsValue(cells: seq<Cell>, rs: seq<Reading>, i: nat)
    requires |rs| == |cells| && DistinctCellIds(cells) && i < |cells| && rs[i].item.Some?
    ensures PointCounts(cells, rs)[cells[i].id] == NumCount(rs[i].val)
  {
    var n := |cells| - 1;
    if i < n {
      var init := cells[..n];
      assert init[i] == cells[i] && rs[..n][i] == rs[i];
      assert DistinctCellIds(init) by {
        forall a, b | 0 <= a < b < |init| ensures init[a].id != init[b].id {
          assert init[a] == cells[a] && init[b] == cells[b];
        }
      }
      PointCountsValue(init, rs[..n], i);
    }
  }

  /** When no display reads as NaN, the saved totals are those of the
      summary. */
  lemma {:induction false} PointAgreesWithSummary(rs: seq<Reading>)
    requires forall i :: 0 <= i < |rs| ==> !rs[i].val.NaN?
    ensures PointFold(rs) == Fold(rs)
  {
    if rs != [] {
      var init := rs[..|rs| - 1];
      assert forall i :: 0 <= i < |init| ==> init[i] == rs[i];
      PointAgreesWithSummary(init);
    }
  }

  /** A catalog cell reading as NaN makes the saved total NaN, where the
      summary would skip it. */
  lemma {:induction false} NaNPoisonsPointTotal(rs: seq<Reading>, k: nat)
    requires k < |rs| && rs[k].val.NaN? && rs[k].item.Some?
    ensures PointFold(rs).total.NaN?
  {
    var init := rs[..|rs| - 1];
    if k < |rs| - 1 {
      assert init[k] == rs[k];
      NaNPoisonsPointTotal(init, k);
    }
  }

  // ----- Default memo -----

  /** The memo of a blank input: for JPY the amount in 万 (ten thousands)
      and 千 (thousands), falling back to the total in 円; for CNY the
      total in 元. */
  function DefaultMemo(currency: Currency, total: Num): (r: string)
    ensures r != []
  {
    if currency == JPY then
      var man := Floor(Div(total, Finite(10000.0)));
      var sen := Floor(Div(Rem(total, Finite(10000.0)), Finite(1000.0)));
      if Positive(man) && Positive(sen) then ToString(man) + "万" + ToString(sen) + "千"
      else if Positive(man) then ToString(man) + "万"
      else if Positive(sen) then ToString(sen) + "千"
      else ToString(total) + "円"
    else ToString(total) + "元"
  }

  /** The memo of a new saved point: the trimmed input, or the default when
      the input is blank. */
  function Memo(input: string, currency: Currency, total: Num): (r: string)
    ensures r != []
    ensures !AllSpace(input) ==> r == Trim(input) && !IsSpace(r[0]) && !IsSpace(r[|r| - 1])
    ensures AllSpace(input) ==> r == DefaultMemo(currency, total)
  {
    var m := Trim(input);
    if m == [] then DefaultMemo(currency, total) else m
  }

  /** The floor of a quotient of naturals is their integer quotient. */
  lemma WholeQuotient(t: nat, d: nat)
    requires d > 0
    ensures ((t as real) / (d as real)).Floor == t / d
  {
    var q := t / d;
    var r := t % d;
    var x := (t as real) / (d as real);
    assert t == d * q + r;
    assert x == q as real + (r as real) / (d as real);
    assert (r as real) / (d as real) < 1.0 by {
      assert (r as real) < (d as real);
    }
  }

  /** `%` on whole numbers is the natural remainder. */
  lemma WholeRem(t: nat, d: nat)
    requires d > 0
    ensures Rem(Finite(t as real), Finite(d as real)) == Finite((t % d) as real)
  {
    WholeQuotient(t, d);
    assert Trunc((t as real) / (d as real)) == t / d;
    assert t == d * (t / d) + t % d;
  }

  /** A natural number is shown as its decimal digits. */
  lemma ShowNat(n: nat)
    ensures ToString(Finite(n as real)) == NatToString(n)
  {
    assert (n as real).Floor == n;
  }

  /** For a whole, non-negative total the JPY default memo is the usual
      decomposition into ten thousands and thousands. */
  lemma DefaultMemoWhole(t: nat)
    ensures var man := t / 10000;
      var sen := (t % 10000) / 1000;
      DefaultMemo(JPY, Finite(t as real))
        == if man > 0 && sen > 0 then NatToString(man) + "万" + NatToString(sen) + "千"
           else if man > 0 then NatToString(man) + "万"
           else if sen > 0 then NatToString(sen) + "千"
           else NatToString(t) + "円"
  {
    var man := t / 10000;
    var rest := t % 10000;
    var sen := rest / 1000;
    WholeQuotient(t, 10000);
    assert Floor(Div(Finite(t as real), Finite(10000.0))) == Finite(man as real);
    WholeRem(t, 10000);
    assert Rem(Finite(t as real), Finite(10000.0)) == Finite(rest as real);
    WholeQuotient(rest, 1000);
    assert Floor(Div(Finite(rest as real), Finite(1000.0))) == Finite(sen as real);
    ShowNat(man);
    ShowNat(sen);
    ShowNat(t);
  }

  /** 15000 yen gives 1万5千. */
  lemma MemoOfManAndSen()
    ensures DefaultMemo(JPY, Finite(15000.0)) == "1万5千"
  {
    DefaultMemoWhole(15000);
    assert 15000 / 10000 == 1 && (15000 % 10000) / 1000 == 5;
    assert NatToString(1) == "1" && NatToString(5) == "5";
  }

  /** 20000 yen gives 2万. */
  lemma MemoOfManOnly()
    ensures DefaultMemo(JPY, Finite(20000.0)) == "2万"
  {
    DefaultMemoWhole(20000);
    assert 20000 / 10000 == 2 && (20000 % 10000) / 1000 == 0;
    assert NatToString(2) == "2";
  }

  /** 500 yen gives 500円. */
  lemma MemoOfSmallAmount()
    ensures DefaultMemo(JPY, Finite(500.0)) == "500円"
  {
    DefaultMemoWhole(500);
    assert 500 / 10000 == 0 && (500 % 10000) / 1000 == 0;
    assert NatToString(500) == "500" by {
      assert NatToString(5) == "5";
      assert NatToString(50) == NatToString(5) + "0";
    }
  }

  /** A negative total never produces 万 or 千: `%` keeps the sign of the
      dividend, so the thousands are not positive either. */
  lemma DefaultMemoNegative(total: real)
    requires total < 0.0
    ensures DefaultMemo(JPY, Finite(total)) == ToString(Finite(total)) + "円"
  {
    var man := Floor(Div(Finite(total), Finite(10000.0)));
    assert total / 10000.0 < 0.0;
    assert !Positive(man);
    var rest := Rem(Finite(total), Finite(10000.0));
    assert rest.v <= 0.0;
    assert rest.v / 1000.0 <= 0.0;
    var sen := Floor(Div(rest, Finite(1000.0)));
    assert !Positive(sen);
  }

  /** A blank CNY memo is the total in 元. */
  lemma DefaultMemoCny(input: string, total: Num)
    requires AllSpace(input)
    ensures Memo(input, CNY, total) == ToString(total) + "元"
  {
  }

  // ----- Saving a point -----

  /** The save button of the save-point dialog: the totals over the cells of
      the current note's catalog, the memo, and `addSavedPoint` on the
      current note. Without a current note the dialog does not open. */
  function SavePoint(st: Store, cells: seq<Cell>, memoInput: string, pointId: string, now: string)
    : (r: (Store, Option<SavedPoint>))
    ensures CurrentIndex(st).None? ==> r == (st, None)
    ensures CurrentIndex(st).Some? ==>
      var i := CurrentIndex(st).value;
      var note := st.notes[i];
      var s := PointFold(Readings(cells, note.currency));
      && r.1 == Some(SavedPoint(pointId, now, Memo(memoInput, note.currency, s.total),
                                PointCounts(cells, Readings(cells, note.currency)), s.total, s.bills, s.coins))
      && |r.0.notes| == |st.notes|
      && r.0.notes[i].savedPoints == PushPoint(note.savedPoints, r.1.value)
      && (forall j :: 0 <= j < |st.notes| && j != i ==> r.0.notes[j] == st.notes[j])
  {
    match CurrentIndex(st)
    case None => (st, None)
    case Some(i) =>
      var note := st.notes[i];
      var s := PointFold(Readings(cells, note.currency));
      AddSavedPoint(st, st.currentNoteId.value, pointId, now, Memo(memoInput, note.currency, s.total),
                    PointCounts(cells, Readings(cells, note.currency)), s.total, s.bills, s.coins)
  }

  // ----- Detail view (showHistoryDetail) -----

  /** An item is listed unless it is a JPY item hidden by the flags. */
  predicate Listed(currency: Currency, f: HideFlags, d: Denomination) {
    currency == CNY || !JpyDisabled(d, f)
  }

  /** The catalog entries the detail table lists, in catalog order. */
  function DetailItems(data: seq<Denomination>, currency: Currency, f: HideFlags): (r: seq<Denomination>)
    ensures forall d :: d in r <==> d in data && Listed(currency, f, d)
    ensures |r| <= |data|
  {
    if data == [] then []
    else
      var rest := DetailItems(data[1..], currency, f);
      assert forall d :: d in data <==> d == data[0] || d in data[1..];
      if Listed(currency, f, data[0]) then [data[0]] + rest else rest
  }

  /** `counts[id] || 0` */
  function DetailCount(counts: Counts, id: string): (r: CountValue)
    ensures id in counts && Truthy(counts[id]) ==> r == counts[id]
    ensures !(id in counts && Truthy(counts[id])) ==> r == NumCount(Zero)
  {
    if id in counts && Truthy(counts[id]) then counts[id] else NumCount(Zero)
  }

  datatype DetailRow = DetailRow(labelText: string, count: CountValue)

  /** The items a note's detail table lists, by its currency and flags. */
  function NoteDetailItems(note: Note): seq<Denomination> {
    DetailItems(Catalog(note.currency), note.currency, FlagsOf(note.settings))
  }

  /** The rows of the detail table of a saved point, with the flags taken
      from the current note's own settings; `None` without a current note. */
  function DetailRows(st: Store, sp: SavedPoint): (r: Option<seq<DetailRow>>)
    ensures r.None? <==> CurrentIndex(st).None?
    ensures r.Some? ==> var items := NoteDetailItems(st.notes[CurrentIndex(st).value]);
      |r.value| == |items| && forall k :: 0 <= k < |items| ==> r.value[k].labelText == items[k].labelText
  {
    match CurrentIndex(st)
    case None => None
    case Some(i) => Some(RowsOf(NoteDetailItems(st.notes[i]), sp.counts))
  }

  /** One row per item: its label and its count in the point. */
  function RowsOf(items: seq<Denomination>, counts: Counts): (r: seq<DetailRow>)
    ensures |r| == |items| && forall k :: 0 <= k < |items| ==> r[k].labelText == items[k].labelText
  {
    seq(|items|, k requires 0 <= k < |items| => DetailRow(items[k].labelText, DetailCount(counts, items[k].id)))
  }

  /** The count shown in the detail table is what restoring the point would
      put in the display. */
  lemma DetailCountMatchesLoad(counts: Counts, id: string)
    ensures Shown(DetailCount(counts, id)) == LoadValue(counts, id)
  {
    ShowNat(0);
    assert NatToString(0) == "0";
  }

  /** Each row of the detail table shows the count that restoring the point
      loads into the display of that row's item. */
  lemma DetailRowsShowLoad(st: Store, sp: SavedPoint, k: nat)
    requires CurrentIndex(st).Some?
    requires k < |NoteDetailItems(st.notes[CurrentIndex(st).value])|
    ensures var id := NoteDetailItems(st.notes[CurrentIndex(st).value])[k].id;
      Shown(DetailRows(st, sp).value[k].count) == LoadValue(sp.counts, id)
  {
    var items := NoteDetailItems(st.notes[CurrentIndex(st).value]);
    var id := items[k].id;
    assert RowsOf(items, sp.counts)[k].count == DetailCount(sp.counts, id);
    DetailCountMatchesLoad(sp.counts, id);
  }

  /** Every CNY item is listed, in catalog order. */
  lemma {:induction false} CnyDetailListsAll(data: seq<Denomination>, f: HideFlags)
    ensures DetailItems(data, CNY, f) == data
  {
    if data != [] {
      CnyDetailListsAll(data[1..], f);
    }
  }

  /** The flags of the current note's merged settings are those of its own
      settings: an absent key and a default both read as false. */
  lemma MergedFlagsAgree(st: Store)
    requires CurrentIndex(st).Some?
    ensures FlagsOf(GetCurrentNoteSettings(st)) == FlagsOf(st.notes[CurrentIndex(st).value].settings)
  {
  }

  /** On a JPY note, an item's row is listed exactly when its cell is not
      greyed out by a render with the note's settings. */
  lemma DetailAgreesWithRender(st: Store, cells: seq<Cell>, k: nat)
    requires CurrentIndex(st).Some? && st.currency == JPY
    requires st.notes[CurrentIndex(st).value].currency == JPY
    requires k < |cells| && cells[k].group == JPY && Find(JpyData, cells[k].id).Some?
    ensures var note := st.notes[CurrentIndex(st).value];
      var d := Find(JpyData, cells[k].id).value;
      d in DetailItems(JpyData, JPY, FlagsOf(note.settings)) <==> !RenderCurrency(st, cells)[k].disabled
  {
    RenderFollowsSettings(st, cells, k);
    MergedFlagsAgree(st);
  }

  /** As written, an item the detail leaves out of a JPY note is still live
      on the page, where the note's flags grey it out. */
  lemma DetailDisagreesAsWritten(st: Store, cells: seq<Cell>, k: nat)
    requires CurrentIndex(st).Some? && st.currency == JPY
    requires st.notes[CurrentIndex(st).value].currency == JPY
    requires k < |cells| && cells[k].group == JPY && Find(JpyData, cells[k].id).Some?
    requires Find(JpyData, cells[k].id).value !in
      DetailItems(JpyData, JPY, FlagsOf(st.notes[CurrentIndex(st).value].settings))
    ensures !RenderCurrencyAsWritten(st, cells)[k].disabled
    ensures RenderCurrency(st, cells)[k].disabled
  {
    DetailAgreesWithRender(st, cells, k);
  }

  // ----- Sidebar (renderSidebarHistoryList) -----

  const SidebarSize: nat := 10

  function Reverse<T>(s: seq<T>): (r: seq<T>)
    ensures |r| == |s|
    ensures forall i :: 0 <= i < |s| ==> r[i] == s[|s| - 1 - i]
  {
    if s == [] then [] else [s[|s| - 1]] + Reverse(s[..|s| - 1])
  }

  function Shown10(n: nat): nat {
    if n < SidebarSize then n else SidebarSize
  }

  /** The sidebar as written: the list reversed, then its first ten. */
  function SidebarAsWritten(points: seq<SavedPoint>): (r: seq<SavedPoint>)
    ensures |r| == Shown10(|points|)
  {
    Reverse(points)[..Shown10(|points|)]
  }

  /** Since points are stored newest first, the sidebar as written lists the
      oldest points, oldest first. */
  lemma SidebarAsWrittenShowsOldest(points: seq<SavedPoint>)
    ensures var r := SidebarAsWritten(points);
      forall k :: 0 <= k < |r| ==> r[k] == points[|points| - 1 - k]
  {
  }

  /** Once ten points exist, a point just saved is missing from the sidebar
      as written. */
  lemma NewestHiddenAsWritten(points: seq<SavedPoint>, p: SavedPoint)
    requires |points| >= SidebarSize && p !in points
    ensures p !in SidebarAsWritten(PushPoint(points, p))
  {
    var grown := PushPoint(points, p);
    var r := SidebarAsWritten(grown);
    forall k | 0 <= k < |r| ensures r[k] != p {
      SidebarAsWrittenShowsOldest(grown);
      var j := |grown| - 1 - k;
      assert j >= 1;
      assert grown[j] == grown[1..][j - 1];
      assert grown[1..][j - 1] in points;
    }
  }

  /** The sidebar as intended: the ten most recent points, newest first. */
  function SidebarPoints(points: seq<SavedPoint>): (r: seq<SavedPoint>)
    ensures |r| == Shown10(|points|)
    ensures forall k :: 0 <= k < |r| ==> r[k] == points[k]
  {
    points[..Shown10(|points|)]
  }

  /** After a save the intended sidebar shows the new point first, followed
      by the previous sidebar without its last entry when it was full. */
  lemma NewestShownFirst(points: seq<SavedPoint>, p: SavedPoint)
    ensures var r := SidebarPoints(PushPoint(points, p));
      && r[0] == p
      && r[1..] == SidebarPoints(points)[..|r| - 1]
  {
    var grown := PushPoint(points, p);
    var r := SidebarPoints(grown);
    assert |grown| >= 1;
    assert |r| - 1 <= |SidebarPoints(points)|;
    forall k | 0 <= k < |r| - 1 ensures r[1..][k] == SidebarPoints(points)[k] {
      assert grown[1..] == points[..|grown| - 1];
      assert r[1..][k] == grown[k + 1];
    }
  }

  /** `renderSidebarHistoryList`: the current note's points through the
      sidebar as written, which are its oldest ten, oldest first. Without a
      current note the source returns early and leaves the old list on the
      page; `State.CurrentValidPreserved` keeps a store from reaching that
      state, and the empty list stands for it here. */
  function Sidebar(st: Store): (r: seq<SavedPoint>)
    ensures CurrentIndex(st).None? ==> r == []
    ensures CurrentIndex(st).Some? ==> var ps := st.notes[CurrentIndex(st).value].savedPoints;
      |r| == Shown10(|ps|) && forall k :: 0 <= k < |r| ==> r[k] == ps[|ps| - 1 - k]
  {
    match CurrentIndex(st)
    case None => []
    case Some(i) =>
      SidebarAsWrittenShowsOldest(st.notes[i].savedPoints);
      SidebarAsWritten(st.notes[i].savedPoints)
  }

  // ----- Restore and delete -----

  /** `handleRestoreHistory`: after confirmation, the current note's counts
      become the point's, the displays are loaded from them, `updateSummary`
      saves the displays back into the note, and `renderCurrency` renders
      the page, as written, and saves it once more. */
  function HandleRestore(st: Store, cells: seq<Cell>, sp: SavedPoint, confirmed: bool, now: string)
    : (r: (Store, seq<Cell>))
    ensures !confirmed ==> r == (st, cells)
    ensures |r.1| == |cells| && |r.0.notes| == |st.notes|
    ensures forall j :: 0 <= j < |st.notes| && Some(j) != CurrentIndex(st) ==> r.0.notes[j] == st.notes[j]
    ensures r.0.currentNoteId == st.currentNoteId && r.0.currency == st.currency
    ensures confirmed ==> forall k :: 0 <= k < |cells| && cells[k].group == st.currency ==> !r.1[k].disabled
  {
    if !confirmed then (st, cells)
    else
      var restored := match st.currentNoteId
        case None => st
        case Some(id) => RestoreCounts(st, id, sp.counts, now).0;
      RestoreKeepsCurrent(st, sp.counts, now);
      var loaded := LoadState(restored, cells);
      var saved := SaveCounts(restored, loaded, now);
      var shown := RenderCurrencyAsWritten(saved, loaded);
      (SaveCounts(saved, shown, now), shown)
  }

  lemma RestoreKeepsCurrent(st: Store, counts: Counts, now: string)
    ensures st.currentNoteId.Some? ==>
      CurrentIndex(RestoreCounts(st, st.currentNoteId.value, counts, now).0) == CurrentIndex(st)
  {
    if CurrentIndex(st).Some? {
      var i := CurrentIndex(st).value;
      ReplaceKeepsCurrent(st, i, st.notes[i].(counts := counts, updatedAt := now));
    }
  }

  /** A confirmed restore on a valid current note shows the point's counts
      in every display, and the note keeps them in the displays' text form. */
  lemma RestoreShowsPoint(st: Store, cells: seq<Cell>, sp: SavedPoint, now: string)
    requires CurrentIndex(st).Some?
    ensures var r := HandleRestore(st, cells, sp, true, now);
      var i := CurrentIndex(st).value;
      && (forall k :: 0 <= k < |cells| ==> r.1[k].value == LoadValue(sp.counts, cells[k].id))
      && r.0.notes[i].counts == ReadCells(LoadCells(cells, sp.counts))
  {
    RestoreDisplaysPoint(st, cells, sp, now);
    RestoreStoresPoint(st, cells, sp, now);
  }

  /** Displays loaded from one count map agree on the value of a shared
      id. */
  lemma LoadedConsistent(cells: seq<Cell>, counts: Counts)
    ensures ConsistentValues(LoadCells(cells, counts))
  {
  }

  /** The steps of a confirmed restore on a valid current note, with the
      displays after the load and after the render. */
  lemma RestoreSteps(st: Store, cells: seq<Cell>, sp: SavedPoint, now: string)
    returns (loaded: seq<Cell>, shown: seq<Cell>)
    requires CurrentIndex(st).Some?
    ensures loaded == LoadCells(cells, sp.counts)
    ensures var r := HandleRestore(st, cells, sp, true, now);
      r.1 == shown && r.0.notes[CurrentIndex(st).value].counts == ReadCells(shown)
    ensures |shown| == |loaded| && forall k :: 0 <= k < |loaded| ==> shown[k].id == loaded[k].id
    ensures forall k :: 0 <= k < |loaded| ==> shown[k].value == OrZero(loaded[k].value)
  {
    var i := CurrentIndex(st).value;
    var restored := RestoreCounts(st, st.currentNoteId.value, sp.counts, now).0;
    RestoreKeepsCurrent(st, sp.counts, now);
    loaded := LoadState(restored, cells);
    var saved := SaveCounts(restored, loaded, now);
    LoadedConsistent(cells, sp.counts);
    RenderCellsAfterSave(restored, loaded, HideFlags(false, false, false), now);
    shown := RenderCurrencyAsWritten(saved, loaded);
  }

  lemma RestoreStoresPoint(st: Store, cells: seq<Cell>, sp: SavedPoint, now: string)
    requires CurrentIndex(st).Some?
    ensures HandleRestore(st, cells, sp, true, now).0.notes[CurrentIndex(st).value].counts
         == ReadCells(LoadCells(cells, sp.counts))
  {
    var loaded, shown := RestoreSteps(st, cells, sp, now);
    forall k | 0 <= k < |loaded| ensures shown[k].value == loaded[k].value {
      assert loaded[k].value != [];
    }
    ReadCellsSameEntries(shown, loaded);
  }

  lemma RestoreDisplaysPoint(st: Store, cells: seq<Cell>, sp: SavedPoint, now: string)
    requires CurrentIndex(st).Some?
    ensures var r := HandleRestore(st, cells, sp, true, now);
      forall k :: 0 <= k < |cells| ==> r.1[k].value == LoadValue(sp.counts, cells[k].id)
  {
    var loaded, shown := RestoreSteps(st, cells, sp, now);
  }

  /** Rendering right after saving shows every display's own value, with
      `'0'` for an empty one, whatever the flags, as long as cells sharing
      an id show the same value. */
  lemma RenderCellsAfterSave(st: Store, cells: seq<Cell>, f: HideFlags, now: string)
    requires CurrentIndex(st).Some? && ConsistentValues(cells)
    ensures var r := RenderCells(SaveCounts(st, cells, now), cells, f);
      forall k :: 0 <= k < |cells| ==> r[k].value == OrZero(cells[k].value)
  {
    var i := CurrentIndex(st).value;
    var saved := SaveCounts(st, cells, now);
    assert saved.notes[i].counts == ReadCells(cells);
    forall k | 0 <= k < |cells| ensures RenderCells(saved, cells, f)[k].value == OrZero(cells[k].value) {
      ReadCellsConsistent(cells, k);
    }
  }

  /** Rendering right after saving shows every display's own value, with
      `'0'` for an empty one, both as written and with the note's flags. */
  lemma RenderAfterSave(st: Store, cells: seq<Cell>, now: string)
    requires CurrentIndex(st).Some? && DistinctCellIds(cells)
    ensures var r := RenderCurrencyAsWritten(SaveCounts(st, cells, now), cells);
      forall k :: 0 <= k < |cells| ==> r[k].value == OrZero(cells[k].value)
    ensures var r := RenderCurrency(SaveCounts(st, cells, now), cells);
      forall k :: 0 <= k < |cells| ==> r[k].value == OrZero(cells[k].value)
  {
    var saved := SaveCounts(st, cells, now);
    assert ConsistentValues(cells) by {
      forall a, b | 0 <= a < |cells| && 0 <= b < |cells| && cells[a].id == cells[b].id
        ensures cells[a].value == cells[b].value
      {
        assert a == b;
      }
    }
    RenderCellsAfterSave(st, cells, HideFlags(false, false, false), now);
    RenderCellsAfterSave(st, cells, FlagsOf(GetCurrentNoteSettings(saved)), now);
  }

  /** The delete button: after confirmation the point is removed from the
      current note. */
  function HandleDelete(st: Store, pointId: string, confirmed: bool, now: string): (r: (Store, bool))
    ensures !r.1 ==> r.0 == st
    ensures r.1 <==> confirmed && CurrentIndex(st).Some?
                     && FindPoint(st.notes[CurrentIndex(st).value].savedPoints, pointId).Some?
    ensures r.1 ==> var i := CurrentIndex(st).value;
      var ps := st.notes[i].savedPoints;
      var k := FindPoint(ps, pointId).value;
      && |r.0.notes| == |st.notes|
      && r.0.notes[i].savedPoints == ps[..k] + ps[k + 1..]
      && (forall j :: 0 <= j < |st.notes| && j != i ==> r.0.notes[j] == st.notes[j])
  {
    if !confirmed then (st, false)
    else match st.currentNoteId
      case None => (st, false)
      case Some(id) => DeleteSavedPoint(st, id, pointId, now)
  }
}
