/** Rendering the count cells and the running summary: which cells are
    greyed out, what each display shows after a render, and the totals of
    money, bills and coins. */
module Renderer {
  import opened Wrappers
  import opened Text
  import opened JsNumber
  import opened NumberParsing
  import opened Data
  import opened Cells
  import opened State

  /** `!isCoin && kind >= 1` */
  predicate IsBill(d: Denomination) {
    !d.isCoin && d.tenths >= 10
  }

  /** `!!isCoin || kind < 1` */
  predicate IsCoin(d: Denomination) {
    d.isCoin || d.tenths < 10
  }

  /** Every denomination is exactly one of bill and coin. */
  lemma BillCoinComplementary(d: Denomination)
    ensures IsBill(d) <==> !IsCoin(d)
  {
  }

  /** On the shipped data the coin rule is just the `isCoin` flag. */
  lemma CoinRuleIsFlag(c: Currency, d: Denomination)
    requires d in Catalog(c)
    ensures IsCoin(d) <==> d.isCoin
  {
    BelowOneIsCoin(c);
  }

  /** The three hide flags of the JPY rule. */
  datatype HideFlags = HideFlags(hide2000: bool, hideBills: bool, hideCoins: bool)

  /** Flags read from a settings object, an absent key counting as false. */
  function FlagsOf(s: Settings): (r: HideFlags)
    ensures r.hide2000 <==> Hide2000 in s && s[Hide2000]
    ensures r.hideBills <==> HideBills in s && s[HideBills]
    ensures r.hideCoins <==> HideCoins in s && s[HideCoins]
  {
    HideFlags(Hide2000 in s && s[Hide2000], HideBills in s && s[HideBills], HideCoins in s && s[HideCoins])
  }

  /** The JPY greying rule. */
  predicate JpyDisabled(d: Denomination, f: HideFlags) {
    (d.tenths == 20000 && f.hide2000) || (IsBill(d) && f.hideBills) || (IsCoin(d) && f.hideCoins)
  }

  /** The greying pass of `renderCurrency`. For JPY every JPY cell is first
      re-enabled and then greyed by the rule if its id is in the catalog;
      for CNY every CNY cell is enabled. Cells of the other currency are
      left as they were. */
  function ApplyDisabled(cells: seq<Cell>, currency: Currency, f: HideFlags): (r: seq<Cell>)
    ensures |r| == |cells|
    ensures forall i :: 0 <= i < |cells| ==> r[i] == cells[i].(disabled := r[i].disabled)
    ensures forall i :: 0 <= i < |cells| && cells[i].group != currency ==> r[i] == cells[i]
    ensures currency == CNY ==> forall i :: 0 <= i < |cells| && cells[i].group == CNY ==> !r[i].disabled
    ensures currency == JPY ==> forall i :: 0 <= i < |cells| && cells[i].group == JPY ==>
      (r[i].disabled <==> Find(JpyData, cells[i].id).Some? && JpyDisabled(Find(JpyData, cells[i].id).value, f))
  {
    seq(|cells|, i requires 0 <= i < |cells| =>
      var c := cells[i];
      if c.group != currency then c
      else if currency == CNY then c.(disabled := false)
      else c.(disabled := match Find(JpyData, c.id) case None => false case Some(d) => JpyDisabled(d, f)))
  }

  /** Greying, then the restore of every display from the current note:
      each cell keeps its id and group, takes the greying of the pass, and
      with a current note shows that note's stored count or `'0'`. */
  function RenderCells(st: Store, cells: seq<Cell>, f: HideFlags): (r: seq<Cell>)
    ensures |r| == |cells|
    ensures forall k :: 0 <= k < |cells| ==>
      r[k].id == cells[k].id && r[k].group == cells[k].group
      && r[k].disabled == ApplyDisabled(cells, st.currency, f)[k].disabled
    ensures CurrentIndex(st).None? ==> forall k :: 0 <= k < |cells| ==> r[k].value == cells[k].value
    ensures CurrentIndex(st).Some? ==> forall k :: 0 <= k < |cells| ==>
      r[k].value == RestoreValue(st.notes[CurrentIndex(st).value].counts, cells[k].id)
  {
    var greyed := ApplyDisabled(cells, st.currency, f);
    match CurrentIndex(st)
    case None => greyed
    case Some(i) => RestoreCells(greyed, st.notes[i].counts)
  }

  /** `renderCurrency` as written, up to its closing `updateSummary`: the
      flags are read from `appState`, which never defines them, so all
      three are `undefined` and no JPY cell is greyed; CNY cells are
      enabled in CNY; every display is restored from the current note. */
  function RenderCurrencyAsWritten(st: Store, cells: seq<Cell>): (r: seq<Cell>)
    ensures |r| == |cells|
    ensures forall k :: 0 <= k < |cells| ==> r[k].id == cells[k].id && r[k].group == cells[k].group
    ensures forall k :: 0 <= k < |cells| && cells[k].group == st.currency ==> !r[k].disabled
    ensures forall k :: 0 <= k < |cells| && cells[k].group != st.currency ==> r[k].disabled == cells[k].disabled
    ensures CurrentIndex(st).Some? ==> forall k :: 0 <= k < |cells| ==>
      r[k].value == RestoreValue(st.notes[CurrentIndex(st).value].counts, cells[k].id)
  {
    RenderCells(st, cells, HideFlags(false, false, false))
  }

  /** `renderCurrency` reading the flags from the current note's settings:
      a JPY cell is greyed exactly by the rule with those flags. */
  function RenderCurrency(st: Store, cells: seq<Cell>): (r: seq<Cell>)
    ensures |r| == |cells|
    ensures forall k :: 0 <= k < |cells| ==> r[k].id == cells[k].id && r[k].group == cells[k].group
    ensures st.currency == JPY ==> forall k :: 0 <= k < |cells| && cells[k].group == JPY ==>
      (r[k].disabled <==> Find(JpyData, cells[k].id).Some?
                          && JpyDisabled(Find(JpyData, cells[k].id).value, FlagsOf(GetCurrentNoteSettings(st))))
    ensures CurrentIndex(st).Some? ==> forall k :: 0 <= k < |cells| ==>
      r[k].value == RestoreValue(st.notes[CurrentIndex(st).value].counts, cells[k].id)
  {
    RenderCells(st, cells, FlagsOf(GetCurrentNoteSettings(st)))
  }

  /** As written, no cell is ever greyed out by a render in JPY, whatever
      the note's settings say. */
  lemma AsWrittenNeverGreys(st: Store, cells: seq<Cell>, k: nat)
    requires st.currency == JPY && k < |cells| && cells[k].group == JPY
    ensures !RenderCurrencyAsWritten(st, cells)[k].disabled
  {
    var greyed := ApplyDisabled(cells, JPY, HideFlags(false, false, false));
    assert !greyed[k].disabled;
  }

  /** A JPY note set to hide the 2000-yen bill: as written the cell stays
      live; with the note's settings it is greyed. */
  lemma Hide2000Ignored(st: Store, cells: seq<Cell>, k: nat)
    requires st.currency == JPY && k < |cells| && cells[k].group == JPY && cells[k].id == "jpy-2000"
    requires CurrentIndex(st).Some? && var s := st.notes[CurrentIndex(st).value].settings; Hide2000 in s && s[Hide2000]
    ensures !RenderCurrencyAsWritten(st, cells)[k].disabled
    ensures RenderCurrency(st, cells)[k].disabled
  {
    AsWrittenNeverGreys(st, cells, k);
    assert Find(JpyData, "jpy-2000") == Some(JpyData[2]);
  }

  /** With the note's settings, a JPY cell is greyed exactly by the rule,
      independently of its previous state, and every display shows the
      stored count or `'0'`. */
  lemma RenderFollowsSettings(st: Store, cells: seq<Cell>, k: nat)
    requires st.currency == JPY && k < |cells| && cells[k].group == JPY
    requires CurrentIndex(st).Some?
    ensures var r := RenderCurrency(st, cells);
      var f := FlagsOf(GetCurrentNoteSettings(st));
      && (r[k].disabled <==> Find(JpyData, cells[k].id).Some? && JpyDisabled(Find(JpyData, cells[k].id).value, f))
      && r[k].value == RestoreValue(st.notes[CurrentIndex(st).value].counts, cells[k].id)
  {
  }

  /** A render in CNY enables every CNY cell. */
  lemma CnyAllEnabled(st: Store, cells: seq<Cell>, f: HideFlags, k: nat)
    requires st.currency == CNY && k < |cells| && cells[k].group == CNY
    ensures !RenderCells(st, cells, f)[k].disabled
  {
  }

  // ----- updateSummary -----

  datatype Summary = Summary(total: Num, bills: Num, coins: Num) {
    /** The `totalCount` display: bills plus coins. */
    function TotalCount(): Num { Add(bills, coins) }
  }

  const Zero: Num := Finite(0.0)

  /** What the loop sees of one cell: the number its display reads as, and
      the cell's catalog entry, if any. */
  datatype Reading = Reading(val: Num, item: Option<Denomination>)

  function ReadingOf(c: Cell, currency: Currency): Reading {
    Reading(ParseFloat(OrZero(c.value)), Find(Catalog(currency), c.id))
  }

  function Readings(cells: seq<Cell>, currency: Currency): (r: seq<Reading>)
    ensures |r| == |cells|
    ensures forall i :: 0 <= i < |cells| ==> r[i] == ReadingOf(cells[i], currency)
  {
    seq(|cells|, i requires 0 <= i < |cells| => ReadingOf(cells[i], currency))
  }

  /** One cell of the `forEach` loop: skipped when its number is NaN or it
      has no catalog entry; otherwise the count goes to coins or bills and
      face value times count to the total. */
  function Step(acc: Summary, r: Reading): Summary {
    if r.val.NaN? || r.item.None? then acc
    else
      var d := r.item.value;
      var amt := Mul(Finite(Kind(d)), r.val);
      if IsCoin(d) then Summary(Add(acc.total, amt), acc.bills, Add(acc.coins, r.val))
      else Summary(Add(acc.total, amt), Add(acc.bills, r.val), acc.coins)
  }

  /** The loop over the readings in page order, starting from all zeros. */
  function Fold(rs: seq<Reading>): Summary {
    if rs == [] then Summary(Zero, Zero, Zero)
    else Step(Fold(rs[..|rs| - 1]), rs[|rs| - 1])
  }

  /** The totals of `updateSummary`. */
  function Summarise(cells: seq<Cell>, currency: Currency): Summary {
    Fold(Readings(cells, currency))
  }

  /** `updateSummary`: the totals, and the displays saved into the current
      note. When no display reads as an infinity, the totals are the sums
      over the counted cells of face value times count, of bill counts and
      of coin counts, and the total count is the number of counted pieces.
      Only the current note's counts and time stamp change. */
  function UpdateSummary(st: Store, cells: seq<Cell>, now: string): (r: (Summary, Store))
    ensures var rs := Readings(cells, st.currency);
      NoInfinity(rs) ==>
        && r.0 == Summary(Finite(SumAmounts(rs)), Finite(SumBills(rs)), Finite(SumCoins(rs)))
        && r.0.TotalCount() == Finite(SumPieces(rs))
    ensures |r.1.notes| == |st.notes| && r.1.currentNoteId == st.currentNoteId && r.1.currency == st.currency
    ensures forall j :: 0 <= j < |st.notes| && Some(j) != CurrentIndex(st) ==> r.1.notes[j] == st.notes[j]
    ensures CurrentIndex(st).Some? ==> var i := CurrentIndex(st).value;
      forall k :: 0 <= k < |cells| ==> cells[k].id in r.1.notes[i].counts
    ensures CurrentIndex(st).Some? && DistinctCellIds(cells) ==> var i := CurrentIndex(st).value;
      forall k :: 0 <= k < |cells| ==> r.1.notes[i].counts[cells[k].id] == StrCount(OrZero(cells[k].value))
  {
    var rs := Readings(cells, st.currency);
    var sum := Fold(rs);
    FiniteSummary(rs);
    var saved := SaveCounts(st, cells, now);
    (sum, saved)
  }

  // ----- Reference sums -----

  /** The catalog entry and count of a reading that counts. */
  function Counted(r: Reading): Option<(Denomination, real)> {
    if !r.val.Finite? || r.item.None? then None else Some((r.item.value, r.val.v))
  }

  /** No display reads as an infinity. */
  predicate NoInfinity(rs: seq<Reading>) {
    forall i :: 0 <= i < |rs| ==> !rs[i].val.Infinite?
  }

  /** What one counted cell adds to the amount, bill, coin and piece sums. */
  function Amount(k: Option<(Denomination, real)>): real {
    match k
    case None => 0.0
    case Some((d, v)) => Kind(d) * v
  }

  function BillPart(k: Option<(Denomination, real)>): real {
    match k
    case Some((d, v)) => if IsBill(d) then v else 0.0
    case None => 0.0
  }

  function CoinPart(k: Option<(Denomination, real)>): real {
    match k
    case Some((d, v)) => if IsCoin(d) then v else 0.0
    case None => 0.0
  }

  function Pieces(k: Option<(Denomination, real)>): real {
    match k
    case Some((_, v)) => v
    case None => 0.0
  }

  function SumAmounts(rs: seq<Reading>): real {
    if rs == [] then 0.0 else SumAmounts(rs[..|rs| - 1]) + Amount(Counted(rs[|rs| - 1]))
  }

  function SumBills(rs: seq<Reading>): real {
    if rs == [] then 0.0 else SumBills(rs[..|rs| - 1]) + BillPart(Counted(rs[|rs| - 1]))
  }

  function SumCoins(rs: seq<Reading>): real {
    if rs == [] then 0.0 else SumCoins(rs[..|rs| - 1]) + CoinPart(Counted(rs[|rs| - 1]))
  }

  /** The number of counted pieces, whatever their kind. */
  function SumPieces(rs: seq<Reading>): real {
    if rs == [] then 0.0 else SumPieces(rs[..|rs| - 1]) + Pieces(Counted(rs[|rs| - 1]))
  }

  /** One finite step adds the reading's share to each running sum. */
  lemma StepIsReference(a: real, b: real, k: real, r: Reading)
    requires !r.val.Infinite?
    ensures var c := Counted(r);
      Step(Summary(Finite(a), Finite(b), Finite(k)), r)
        == Summary(Finite(a + Amount(c)), Finite(b + BillPart(c)), Finite(k + CoinPart(c)))
  {
    if r.val.Finite? && r.item.Some? {
      BillCoinComplementary(r.item.value);
    }
  }

  /** When no display reads as an infinity, the summary is finite and equals
      the reference sums over the counted cells. */
  lemma {:induction false} SummaryIsReference(rs: seq<Reading>)
    requires NoInfinity(rs)
    ensures Fold(rs) == Summary(Finite(SumAmounts(rs)), Finite(SumBills(rs)), Finite(SumCoins(rs)))
  {
    if rs != [] {
      var init := rs[..|rs| - 1];
      assert NoInfinity(init) by {
        forall i | 0 <= i < |init| ensures !init[i].val.Infinite? {
          assert init[i] == rs[i];
        }
      }
      SummaryIsReference(init);
      StepIsReference(SumAmounts(init), SumBills(init), SumCoins(init), rs[|rs| - 1]);
    }
  }

  /** The summary against the reference sums, for readings that may hold
      an infinity. */
  lemma FiniteSummary(rs: seq<Reading>)
    ensures NoInfinity(rs) ==>
      && Fold(rs) == Summary(Finite(SumAmounts(rs)), Finite(SumBills(rs)), Finite(SumCoins(rs)))
      && Fold(rs).TotalCount() == Finite(SumPieces(rs))
  {
    if NoInfinity(rs) {
      SummaryIsReference(rs);
      PiecesPartition(rs);
    }
  }

  lemma PartsPartition(k: Option<(Denomination, real)>)
    ensures BillPart(k) + CoinPart(k) == Pieces(k)
  {
    if k.Some? {
      BillCoinComplementary(k.value.0);
    }
  }

  /** Every counted piece is either a bill or a coin. */
  lemma {:induction false} PiecesPartition(rs: seq<Reading>)
    ensures SumBills(rs) + SumCoins(rs) == SumPieces(rs)
  {
    if rs != [] {
      PiecesPartition(rs[..|rs| - 1]);
      PartsPartition(Counted(rs[|rs| - 1]));
    }
  }

  /** The displayed total count is the number of counted pieces. */
  lemma TotalCountIsPieces(cells: seq<Cell>, currency: Currency)
    requires NoInfinity(Readings(cells, currency))
    ensures Summarise(cells, currency).TotalCount() == Finite(SumPieces(Readings(cells, currency)))
  {
    SummaryIsReference(Readings(cells, currency));
    PiecesPartition(Readings(cells, currency));
  }

  // ----- resetAll -----

  /** Every display set to `'0'`. */
  function ZeroCells(cells: seq<Cell>): (r: seq<Cell>)
    ensures |r| == |cells|
    ensures forall i :: 0 <= i < |cells| ==> r[i] == cells[i].(value := "0")
  {
    seq(|cells|, i requires 0 <= i < |cells| => cells[i].(value := "0"))
  }

  lemma ParseZero()
    ensures ParseFloat("0") == Zero
  {
    ParseNat(0);
    assert NatToString(0) == "0";
  }

  /** Readings that are all 0 fold to all zeros. */
  lemma {:induction false} FoldZeros(rs: seq<Reading>)
    requires forall i :: 0 <= i < |rs| ==> rs[i].val == Zero
    ensures Fold(rs) == Summary(Zero, Zero, Zero)
  {
    if rs != [] {
      FoldZeros(rs[..|rs| - 1]);
    }
  }

  /** After `resetAll` the total, bills and coins are all 0. */
  lemma ResetGivesZero(cells: seq<Cell>, currency: Currency)
    ensures Summarise(ZeroCells(cells), currency) == Summary(Zero, Zero, Zero)
  {
    var z := ZeroCells(cells);
    var rs := Readings(z, currency);
    ParseZero();
    forall i | 0 <= i < |rs| ensures rs[i].val == Zero {
      assert z[i].value == "0";
      assert OrZero(z[i].value) == "0";
    }
    FoldZeros(rs);
  }

  /** `resetAll`: zero every display, then `updateSummary`. */
  function ResetAll(st: Store, cells: seq<Cell>, now: string): (r: (seq<Cell>, Summary, Store))
    ensures r.0 == ZeroCells(cells)
    ensures r.1 == Summary(Zero, Zero, Zero) && r.1.TotalCount() == Zero
    ensures r.2 == SaveCounts(st, ZeroCells(cells), now)
  {
    ResetGivesZero(cells, st.currency);
    var zeroed := ZeroCells(cells);
    (zeroed, Summarise(zeroed, st.currency), SaveCounts(st, zeroed, now))
  }
}
