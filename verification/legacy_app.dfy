/** The older single-file variant of the counter: its own `safeEval`, its own
    keypad handler, a render that rebuilds the cells from the catalog and
    greys them from three global flags, a summary that saves the displays
    under `counts_<currency>`, and the settings handlers that save those
    flags. The currency is the raw text held in `appState.currentCurrency`;
    any text other than `"JPY"` selects the CNY catalog. */
module LegacyApp {
  import opened Wrappers
  import opened Text
  import opened JsNumber
  import opened Lexer
  import opened Parser
  import opened Expression
  import opened Utils
  import opened NumberParsing
  import opened Data
  import opened Cells
  import opened State
  import opened Renderer

  // ----- safeEval -----

  /** The legacy `safeEval`: `×`/`÷` are rewritten, the whole text must pass
      the allow-list, and the text is run as `return (text)` in sloppy mode.
      There is no trailing-operator strip and no finiteness check: the
      result is the value's `toString()`, including `"Infinity"` and
      `"NaN"`; a thrown error gives `"0"`. */
  function LegacySafeEval(expr: string): (r: string)
    ensures r != []
    ensures expr == [] ==> r == "0"
    ensures (exists k :: 0 <= k < |expr| && !IsAllowed(NormaliseChar(expr[k]))) ==> r == "0"
    ensures r == "0" || exists v: Num :: RunExpression(false, Normalise(expr)) == Some(v) && r == ToString(v)
  {
    var n := Normalise(expr);
    if !PassesAllowList(n) then "0"
    else match RunExpression(false, n)
      case None => "0"
      case Some(v) => ToString(v)
  }

  /** Blank text passes the allow-list, but `return ( )` is a syntax
      error, so the result is `"0"`. */
  lemma LegacyBlankGivesZero(s: string)
    requires AllSpace(s)
    ensures LegacySafeEval(s) == "0"
  {
    NormaliseKeepsBlankness(s);
    if Normalise(s) != [] {
      BlankSourceFails(false, Normalise(s));
    }
  }

  /** Any fully parenthesised expression evaluates to its mathematical value
      written out, whatever that value is. */
  lemma LegacyEvalPrinted(e: Expr)
    ensures LegacySafeEval(PrintText(e)) == ToString(Denote(e))
  {
    var t := PrintText(e);
    PrintTextChars(e);
    PrintedTextIsClean(t);
    CleanIsNormal(t);
    EvaluateWrappedText(false, e);
    assert RunExpression(false, t) == Some(Denote(e));
    LegacyOfClean(t, Denote(e));
  }

  /** Where both evaluators read the same value from clean text (not
      blank, no trailing operator, every character allowed, no literal on
      which strict and sloppy mode differ), they agree on every finite
      value, and only the legacy one shows an infinite or NaN value instead
      of `"0"`. */
  lemma StrictAgreesOnClean(t: string, v: Num)
    requires Trim(t) != [] && StripTrailing(Normalise(t)) == Normalise(t) && PassesAllowList(Normalise(t))
    requires RunExpression(true, Normalise(t)) == Some(v) && RunExpression(false, Normalise(t)) == Some(v)
    ensures v.Finite? ==> SafeEval(t) == LegacySafeEval(t)
    ensures !v.Finite? ==> SafeEval(t) == "0" && LegacySafeEval(t) == ToString(v) != "0"
  {
    StrictSideOnClean(t, v);
    LegacySideOnClean(t, v);
    NonFiniteShownAsWord(v);
  }

  /** An infinite or NaN value is shown as a word, never as `"0"`. */
  lemma NonFiniteShownAsWord(v: Num)
    ensures v.Finite? ==> FiniteOrZero(v) == ToString(v)
    ensures !v.Finite? ==> FiniteOrZero(v) == "0" && ToString(v) != "0"
  {
    if !v.Finite? {
      assert ToString(v)[0] != '0';
    }
  }

  lemma StrictSideOnClean(t: string, v: Num)
    requires Trim(t) != [] && StripTrailing(Normalise(t)) == Normalise(t) && PassesAllowList(Normalise(t))
    requires RunExpression(true, Normalise(t)) == Some(v)
    ensures SafeEval(t) == FiniteOrZero(v)
  {
    var n := Normalise(t);
    NormaliseIdempotent(t);
    NormaliseKeepsBlankness(t);
    assert Trim(n) != [];
    SafeEvalOfClean(n, v);
    NormaliseFirst(t);
  }

  lemma LegacySideOnClean(t: string, v: Num)
    requires PassesAllowList(Normalise(t)) && RunExpression(false, Normalise(t)) == Some(v)
    ensures LegacySafeEval(t) == ToString(v)
  {
    NormaliseIdempotent(t);
    LegacyOfClean(Normalise(t), v);
    LegacyNormaliseFirst(t);
  }

  lemma LegacyNormaliseFirst(t: string)
    ensures LegacySafeEval(Normalise(t)) == LegacySafeEval(t)
  {
    NormaliseIdempotent(t);
  }

  /** A text whose parenthesised form is a printed expression evaluates to
      that expression's value written out. */
  lemma LegacyEvalInner(t: string, e: Expr)
    requires "(" + t + ")" == PrintText(e)
    ensures LegacySafeEval(t) == ToString(Denote(e))
  {
    InnerIsClean(t, e);
    RunInner(false, t, e);
    CleanIsNormal(t);
    LegacyOfClean(t, Denote(e));
  }

  lemma CleanIsNormal(t: string)
    requires StripTrailing(Normalise(t)) == t
    ensures Normalise(t) == t
  {
    var n := Normalise(t);
    assert |StripTrailing(n)| == |n|;
    assert StripTrailing(n) == n[..|n|];
  }

  lemma LegacyOfClean(t: string, v: Num)
    requires Normalise(t) == t && PassesAllowList(t) && RunExpression(false, t) == Some(v)
    ensures LegacySafeEval(t) == ToString(v)
  {
  }

  lemma DivisionText()
    ensures "(1/0)" == PrintText(Bin(DivOp, Lit(1), Lit(0)))
  {
    assert NatToString(1) == "1" && NatToString(0) == "0";
  }

  /** `"1/0"`: the legacy evaluator shows `"Infinity"`, the current one
      `"0"`. */
  lemma DivisionByZeroDiffers()
    ensures LegacySafeEval("1/0") == "Infinity"
    ensures SafeEval("1/0") == "0"
  {
    var e := Bin(DivOp, Lit(1), Lit(0));
    DivisionText();
    DivisionValue();
    SafeEvalInner("1/0", e);
    LegacyEvalInner("1/0", e);
  }

  lemma DivisionValue()
    ensures Denote(Bin(DivOp, Lit(1), Lit(0))) == Infinite(false)
    ensures ToString(Infinite(false)) == "Infinity" && FiniteOrZero(Infinite(false)) == "0"
  {
  }

  // ----- The keypad -----

  /** `currentInput`, `isFirstInput` and the active display's index. */
  datatype Pad = Pad(input: string, first: bool, active: Option<nat>)

  datatype Press = Press(pad: Pad, written: Option<(nat, string)>)

  /** `/^[0-9]$/.test(key)` */
  predicate IsDigitKey(key: string) {
    |key| == 1 && IsDigit(key[0])
  }

  /** `currentInput.slice(0, -1) || '0'` */
  function DropLast(s: string): (r: string)
    ensures r != []
    ensures |s| > 1 ==> r == s[..|s| - 1]
    ensures |s| <= 1 ==> r == "0"
  {
    if |s| <= 1 then "0" else s[..|s| - 1]
  }

  /** The `default` branch: a digit on first input replaces the buffer;
      otherwise a buffer of `"0"` is cleared before a non-digit key and the
      key is appended. */
  function TypeKey(input: string, first: bool, key: string): (r: string)
    ensures first && IsDigitKey(key) ==> r == key
    ensures !(first && IsDigitKey(key)) && !(input == "0" && !IsDigitKey(key)) ==> r == input + key
    ensures !(first && IsDigitKey(key)) && input == "0" && !IsDigitKey(key) ==> r == key
  {
    if first && IsDigitKey(key) then key
    else (if input == "0" && !IsDigitKey(key) then "" else input) + key
  }

  /** `hideKeypad`: no active display and an empty buffer. */
  function HidePad(p: Pad): (r: Pad)
    ensures r.active.None? && r.input == [] && r.first == p.first
  {
    Pad("", p.first, None)
  }

  /** `showKeypad`: the buffer is seeded with the display's value or `'0'`. */
  function ShowPad(cell: nat, value: string): (r: Pad)
    ensures r.active == Some(cell) && r.first && r.input != []
    ensures value != [] ==> r.input == value
  {
    Pad(OrZero(value), true, Some(cell))
  }

  /** A click on the keypad button labelled `key`. */
  function LegacyPress(p: Pad, key: string): (r: Press)
    ensures p.active.None? ==> r == Press(p, None)
    ensures r.written.Some? <==> p.active.Some? && key == "Enter"
    ensures r.written.Some? ==> r.written.value == (p.active.value, LegacySafeEval(p.input))
    ensures p.active.Some? && key == "AC" ==> r.pad == Pad("0", true, p.active)
    ensures p.active.Some? && key == "⇐" ==> r.pad == Pad(DropLast(p.input), p.first, p.active)
    ensures p.active.Some? && key == "=" ==> r.pad == Pad(LegacySafeEval(p.input), p.first, p.active)
    ensures p.active.Some? && key == "Enter" ==> r.pad == Pad("", p.first, None)
    ensures p.active.Some? && key !in {"AC", "⇐", "=", "Enter"} ==>
      r.pad == Pad(TypeKey(p.input, p.first, key), false, p.active)
  {
    if p.active.None? then Press(p, None)
    else if key == "AC" then Press(Pad("0", true, p.active), None)
    else if key == "⇐" then Press(Pad(DropLast(p.input), p.first, p.active), None)
    else if key == "=" then Press(Pad(LegacySafeEval(p.input), p.first, p.active), None)
    else if key == "Enter" then
      var v := LegacySafeEval(p.input);
      Press(HidePad(p.(input := v)), Some((p.active.value, v)))
    else Press(Pad(TypeKey(p.input, p.first, key), false, p.active), None)
  }

  /** The first-input flag after a key: set by `AC`, kept by `⇐`, `=` and
      `Enter`, cleared by every other key. */
  lemma FlagAfterKey(p: Pad, key: string)
    requires p.active.Some?
    ensures LegacyPress(p, key).pad.first <==> key == "AC" || (p.first && key in {"⇐", "=", "Enter"})
  {
  }

  /** While the keypad is open the buffer is never empty, for any key with
      a label. */
  lemma OpenBufferNonEmpty(p: Pad, key: string)
    requires p.active.Some? && p.input != [] && key != []
    ensures var q := LegacyPress(p, key).pad; q.active.Some? ==> q.input != []
  {
  }

  /** The current keypad keeps `isFirstInput` set after `=`; the legacy
      one leaves it as it was, so a digit typed after `=` is appended to
      the result rather than replacing it. */
  lemma DigitAfterEquals(p: Pad, d: string)
    requires p.active.Some? && !p.first && IsDigitKey(d)
    requires LegacySafeEval(p.input) != "0"
    ensures var q := LegacyPress(LegacyPress(p, "=").pad, d).pad;
      q.input == LegacySafeEval(p.input) + d && !q.first
  {
  }

  /** Typing a run of keys, one press each. */
  function TypeAll(p: Pad, keys: seq<string>): Pad
    decreases |keys|
  {
    if keys == [] then p
    else TypeAll(LegacyPress(p, keys[0]).pad, keys[1..])
  }

  predicate AllDigitKeys(keys: seq<string>) {
    forall i :: 0 <= i < |keys| ==> IsDigitKey(keys[i])
  }

  function Join(keys: seq<string>): string {
    if keys == [] then "" else keys[0] + Join(keys[1..])
  }

  lemma JoinAppend(s: string, a: string, keys: seq<string>)
    ensures s + a + Join(keys) == s + Join([a] + keys)
  {
    assert ([a] + keys)[1..] == keys;
  }

  /** Digits typed into a non-first buffer are appended, except that a
      buffer of `"0"` is kept in front of them. */
  lemma {:induction false} DigitsAppend(p: Pad, keys: seq<string>)
    requires p.active.Some? && !p.first && AllDigitKeys(keys)
    ensures TypeAll(p, keys) == Pad(p.input + Join(keys), if keys == [] then p.first else false, p.active)
    decreases |keys|
  {
    if keys == [] {
      assert p.input + Join(keys) == p.input;
    } else {
      var q := LegacyPress(p, keys[0]).pad;
      assert q == Pad(p.input + keys[0], false, p.active);
      assert AllDigitKeys(keys[1..]) by {
        forall i | 0 <= i < |keys[1..]| ensures IsDigitKey(keys[1..][i]) {
          assert keys[1..][i] == keys[i + 1];
        }
      }
      DigitsAppend(q, keys[1..]);
      assert [keys[0]] + keys[1..] == keys;
      JoinAppend(p.input, keys[0], keys[1..]);
    }
  }

  /** Right after the keypad opens, typing digits yields exactly those
      digits, whatever the display held. */
  lemma {:induction false} TypedDigitsReplace(cell: nat, value: string, keys: seq<string>)
    requires keys != [] && AllDigitKeys(keys)
    ensures TypeAll(ShowPad(cell, value), keys) == Pad(Join(keys), false, Some(cell))
  {
    var p := ShowPad(cell, value);
    var q := LegacyPress(p, keys[0]).pad;
    assert q == Pad(keys[0], false, Some(cell));
    assert AllDigitKeys(keys[1..]) by {
      forall i | 0 <= i < |keys[1..]| ensures IsDigitKey(keys[1..][i]) {
        assert keys[1..][i] == keys[i + 1];
      }
    }
    DigitsAppend(q, keys[1..]);
    assert [keys[0]] + keys[1..] == keys;
    JoinAppend([], keys[0], keys[1..]);
    assert [] + keys[0] == keys[0];
  }

  /** `"0"` followed by `+` gives `"+"`: the lone zero is dropped before an
      operator. */
  lemma ZeroThenOperator(p: Pad)
    requires p.active.Some? && p.input == "0"
    ensures LegacyPress(p, "+").pad.input == "+"
  {
  }

  // ----- Rendering and the summary -----

  /** The catalog chosen by `currentCurrency === 'JPY'`. */
  function CurrencyOf(currency: string): (r: Currency)
    ensures r == JPY <==> currency == "JPY"
  {
    if currency == "JPY" then JPY else CNY
  }

  /** The greying rule of `renderCurrency`: only in JPY, and then by the
      2000-yen, bill and coin flags. */
  predicate LegacyDisabled(currency: string, d: Denomination, f: HideFlags) {
    currency == "JPY" && (
      (d.tenths == 20000 && f.hide2000) || (!(d.isCoin || d.tenths < 10) && f.hideBills)
      || ((d.isCoin || d.tenths < 10) && f.hideCoins))
  }

  /** The legacy rule is the current renderer's JPY rule, and no CNY cell
      is ever greyed. */
  lemma LegacyDisabledIsRendererRule(currency: string, d: Denomination, f: HideFlags)
    ensures currency == "JPY" ==> (LegacyDisabled(currency, d, f) <==> JpyDisabled(d, f))
    ensures currency != "JPY" ==> !LegacyDisabled(currency, d, f)
  {
  }

  /** The cells `renderCurrency` builds, one per catalog entry in catalog
      order, each display restored from the saved map when it has the id
      and `"0"` otherwise. */
  function BuildCells(currency: string, f: HideFlags, saved: map<string, string>): (r: seq<Cell>)
    ensures var data := Catalog(CurrencyOf(currency));
      && |r| == |data|
      && forall i :: 0 <= i < |data| ==>
        && r[i].id == data[i].id && r[i].group == CurrencyOf(currency)
        && r[i].value == (if data[i].id in saved then saved[data[i].id] else "0")
        && (r[i].disabled <==> LegacyDisabled(currency, data[i], f))
  {
    var data := Catalog(CurrencyOf(currency));
    seq(|data|, i requires 0 <= i < |data| =>
      Cell(data[i].id, CurrencyOf(currency), if data[i].id in saved then saved[data[i].id] else "0",
           LegacyDisabled(currency, data[i], f)))
  }

  /** The saved count maps, by storage key. Each stored map is held as the
      map `JSON.parse` returns. */
  datatype Storage = Storage(items: map<string, string>, counts: map<string, map<string, string>>)

  /** `counts_${currency}` */
  function CountsKey(currency: string): string {
    "counts_" + currency
  }

  /** `JSON.parse(localStorage.getItem(key) || '{}')` */
  function SavedCounts(s: Storage, currency: string): map<string, string> {
    if CountsKey(currency) in s.counts then s.counts[CountsKey(currency)] else map[]
  }

  /** The second loop of `updateSummary`: every cell's display value, or
      `'0'` when it is empty, under the cell's id. */
  function DisplayValues(cells: seq<Cell>): (r: map<string, string>)
    ensures forall id :: id in r <==> exists i :: 0 <= i < |cells| && cells[i].id == id
  {
    if cells == [] then map[]
    else
      var last := cells[|cells| - 1];
      var r := DisplayValues(cells[..|cells| - 1])[last.id := OrZero(last.value)];
      assert forall i :: 0 <= i < |cells| - 1 ==> cells[..|cells| - 1][i] == cells[i];
      r
  }

  /** With distinct ids, every cell's value is saved under its own id. */
  lemma {:induction false} DisplayValuesAt(cells: seq<Cell>, i: nat)
    requires DistinctCellIds(cells) && i < |cells|
    ensures DisplayValues(cells)[cells[i].id] == OrZero(cells[i].value)
  {
    if i < |cells| - 1 {
      var init := cells[..|cells| - 1];
      assert init[i] == cells[i];
      assert DistinctCellIds(init) by {
        forall a, b | 0 <= a < b < |init| ensures init[a].id != init[b].id {
          assert init[a] == cells[a] && init[b] == cells[b];
        }
      }
      DisplayValuesAt(init, i);
    }
  }

  /** The save of `updateSummary`: only the entry of the current currency
      changes. */
  function SaveDisplays(s: Storage, currency: string, cells: seq<Cell>): (r: Storage)
    ensures r.items == s.items
    ensures r.counts.Keys == s.counts.Keys + {CountsKey(currency)}
    ensures r.counts[CountsKey(currency)] == DisplayValues(cells)
    ensures forall k :: k in s.counts && k != CountsKey(currency) ==> r.counts[k] == s.counts[k]
  {
    s.(counts := s.counts[CountsKey(currency) := DisplayValues(cells)])
  }

  /** The first loop of `updateSummary`, cell by cell: a count that reads
      as NaN and a cell whose id is not in the catalog are skipped; the
      count goes to coins when the entry is a coin or below one unit, to
      bills otherwise, and face value times count to the total. It computes
      the same totals as the current renderer. */
  method Tally(cells: seq<Cell>, currency: string) returns (total: Num, bills: Num, coins: Num)
    ensures Summary(total, bills, coins) == Summarise(cells, CurrencyOf(currency))
  {
    var data := Catalog(CurrencyOf(currency));
    ghost var rs := Readings(cells, CurrencyOf(currency));
    total, bills, coins := Finite(0.0), Finite(0.0), Finite(0.0);
    var i := 0;
    while i < |cells|
      invariant 0 <= i <= |cells|
      invariant Summary(total, bills, coins) == Fold(rs[..i])
    {
      assert rs[..i + 1][..i] == rs[..i];
      var val := ParseFloat(OrZero(cells[i].value));
      if !val.NaN? {
        var item := Find(data, cells[i].id);
        if item.Some? {
          var amt := Mul(Finite(Kind(item.value)), val);
          if item.value.isCoin || item.value.tenths < 10 {
            coins := Add(coins, val);
          } else {
            bills := Add(bills, val);
          }
          total := Add(total, amt);
        }
      }
      i := i + 1;
    }
    assert rs[..|cells|] == rs;
  }

  /** With distinct ids, every cell's value is saved under its own id, for
      all cells at once. */
  lemma DisplayValuesAll(cells: seq<Cell>)
    ensures DistinctCellIds(cells) ==>
      forall k :: 0 <= k < |cells| ==> cells[k].id in DisplayValues(cells)
                                        && DisplayValues(cells)[cells[k].id] == OrZero(cells[k].value)
  {
    if DistinctCellIds(cells) {
      forall k | 0 <= k < |cells|
        ensures cells[k].id in DisplayValues(cells) && DisplayValues(cells)[cells[k].id] == OrZero(cells[k].value)
      {
        DisplayValuesAt(cells, k);
      }
    }
  }

  /** `renderCurrency`: the rebuilt cells, then `updateSummary`'s totals and
      save. Without an infinite count the totals are the reference sums;
      only the entry of the shown currency is written; and building the
      page again from what was saved gives the same cells, an empty display
      coming back as `"0"`. */
  function Render(currency: string, f: HideFlags, s: Storage): (r: (seq<Cell>, Summary, Storage))
    ensures r.0 == BuildCells(currency, f, SavedCounts(s, currency))
    ensures var rs := Readings(r.0, CurrencyOf(currency));
      NoInfinity(rs) ==> r.1 == Summary(Finite(SumAmounts(rs)), Finite(SumBills(rs)), Finite(SumCoins(rs)))
    ensures r.2.items == s.items
    ensures forall k :: k in s.counts && k != CountsKey(currency) ==> k in r.2.counts && r.2.counts[k] == s.counts[k]
    ensures var again := BuildCells(currency, f, SavedCounts(r.2, currency));
      |again| == |r.0| && forall i :: 0 <= i < |r.0| ==> again[i] == r.0[i].(value := OrZero(r.0[i].value))
  {
    var cells := BuildCells(currency, f, SavedCounts(s, currency));
    RebuildFromSaved(currency, f, SavedCounts(s, currency), s);
    FiniteSummary(Readings(cells, CurrencyOf(currency)));
    (cells, Summarise(cells, CurrencyOf(currency)), SaveDisplays(s, currency, cells))
  }

  /** Building the page from what a save of a built page wrote gives the
      same cells, an empty display coming back as `"0"`. */
  lemma RebuildFromSaved(currency: string, f: HideFlags, saved: map<string, string>, s: Storage)
    ensures var cells := BuildCells(currency, f, saved);
      var again := BuildCells(currency, f, SavedCounts(SaveDisplays(s, currency, cells), currency));
      |again| == |cells| && forall i :: 0 <= i < |cells| ==> again[i] == cells[i].(value := OrZero(cells[i].value))
  {
    var cells := BuildCells(currency, f, saved);
    BuiltIdsDistinct(currency, f, saved);
    DisplayValuesAll(cells);
  }

  lemma BuiltIdsDistinct(currency: string, f: HideFlags, saved: map<string, string>)
    ensures DistinctCellIds(BuildCells(currency, f, saved))
  {
    CatalogIdsDistinct(CurrencyOf(currency));
  }

  /** Saving a rendered page and rendering again shows every display as it
      was, with an emptied display shown as `"0"`; greying is recomputed
      from the flags. */
  lemma SaveThenRender(currency: string, f: HideFlags, g: HideFlags, saved: map<string, string>,
                       edited: seq<Cell>, s: Storage)
    requires var built := BuildCells(currency, f, saved);
      |edited| == |built| && forall i :: 0 <= i < |built| ==> edited[i].id == built[i].id
    ensures var again := Render(currency, g, SaveDisplays(s, currency, edited)).0;
      |again| == |edited| && forall i :: 0 <= i < |edited| ==> again[i].value == OrZero(edited[i].value)
  {
    var built := BuildCells(currency, f, saved);
    BuiltIdsDistinct(currency, f, saved);
    assert DistinctCellIds(edited) by {
      forall i, j | 0 <= i < j < |edited| ensures edited[i].id != edited[j].id {
        assert built[i].id != built[j].id;
      }
    }
    forall i | 0 <= i < |edited| {
      DisplayValuesAt(edited, i);
    }
  }

  /** Counts saved for one currency survive a switch to the other: the
      render of the other currency saves under its own key. */
  lemma SwitchKeepsOtherCounts(f: HideFlags, s: Storage)
    ensures var s1 := Render("JPY", f, s).2;
      var s2 := Render("CNY", f, s1).2;
      SavedCounts(s2, "JPY") == SavedCounts(s1, "JPY")
  {
    assert CountsKey("JPY") != CountsKey("CNY") by {
      assert CountsKey("JPY")[7] != CountsKey("CNY")[7];
    }
  }

  // ----- Settings and startup -----

  /** The app-wide state restored at startup. */
  datatype Startup = Startup(currency: string, flags: HideFlags, dark: bool)

  /** `localStorage.setItem(key, boolean)` stores the text of the boolean. */
  function BoolText(b: bool): (r: string)
    ensures r == "true" <==> b
  {
    if b then "true" else "false"
  }

  /** The key a settings checkbox handler writes. */
  function WrittenKey(flag: Flag): string {
    match flag
    case Hide2000 => "hide2000"
    case HideBills => "hideBills"
    case HideCoins => "hideCoins"
  }

  /** The key the startup code reads, as written. */
  function ReadKeyAsWritten(flag: Flag): string {
    "appState." + WrittenKey(flag)
  }

  function SetHide(f: HideFlags, flag: Flag, v: bool): (r: HideFlags)
    ensures Get(r, flag) == v
    ensures forall g: Flag :: g != flag ==> Get(r, g) == Get(f, g)
  {
    match flag
    case Hide2000 => f.(hide2000 := v)
    case HideBills => f.(hideBills := v)
    case HideCoins => f.(hideCoins := v)
  }

  function Get(f: HideFlags, flag: Flag): bool {
    match flag
    case Hide2000 => f.hide2000
    case HideBills => f.hideBills
    case HideCoins => f.hideCoins
  }

  /** A hide checkbox changed: the flag is set, saved as text under its
      key, and the page is rendered again. */
  function ChangeFlag(st: Startup, s: Storage, flag: Flag, v: bool): (r: (Startup, Storage))
    ensures Get(r.0.flags, flag) == v && r.0.currency == st.currency && r.0.dark == st.dark
    ensures r.1.items == s.items[WrittenKey(flag) := BoolText(v)]
  {
    var st1 := st.(flags := SetHide(st.flags, flag, v));
    var s1 := s.(items := s.items[WrittenKey(flag) := BoolText(v)]);
    (st1, Render(st1.currency, st1.flags, s1).2)
  }

  /** `toggleCurrency`: `"JPY"` becomes `"CNY"` and anything else `"JPY"`;
      the choice is saved under `currency` and the page rendered again. */
  function ToggleCurrency(st: Startup, s: Storage): (r: (Startup, Storage))
    ensures r.0.currency == (if st.currency == "JPY" then "CNY" else "JPY")
    ensures r.0.flags == st.flags && r.0.dark == st.dark
    ensures r.1.items == s.items["currency" := r.0.currency]
  {
    var c := if st.currency == "JPY" then "CNY" else "JPY";
    var s1 := s.(items := s.items["currency" := c]);
    (st.(currency := c), Render(c, st.flags, s1).2)
  }

  /** The dark-mode checkbox: the choice is saved as text under
      `darkMode`. */
  function SetDark(st: Startup, s: Storage, v: bool): (r: (Startup, Storage))
    ensures r.0 == st.(dark := v)
    ensures r.1.items == s.items["darkMode" := BoolText(v)]
  {
    (st.(dark := v), s.(items := s.items["darkMode" := BoolText(v)]))
  }

  function ReadFlag(s: Storage, key: string): (r: bool)
    ensures r <==> key in s.items && s.items[key] == "true"
  {
    key in s.items && s.items[key] == "true"
  }

  /** `localStorage.getItem('currency') || 'JPY'` */
  function ReadCurrency(s: Storage): (r: string)
    ensures r != []
    ensures "currency" in s.items && s.items["currency"] != [] ==> r == s.items["currency"]
  {
    if "currency" in s.items && s.items["currency"] != [] then s.items["currency"] else "JPY"
  }

  /** `window.onload` as written: the flags are read from keys no handler
      ever writes. */
  function LoadAsWritten(s: Storage): (r: Startup)
    ensures r.flags.hide2000 <==> ReadFlag(s, ReadKeyAsWritten(Hide2000))
    ensures r.flags.hideBills <==> ReadFlag(s, ReadKeyAsWritten(HideBills))
    ensures r.flags.hideCoins <==> ReadFlag(s, ReadKeyAsWritten(HideCoins))
    ensures r.currency == ReadCurrency(s) && (r.dark <==> ReadFlag(s, "darkMode"))
  {
    Startup(ReadCurrency(s),
            HideFlags(ReadFlag(s, ReadKeyAsWritten(Hide2000)), ReadFlag(s, ReadKeyAsWritten(HideBills)),
                      ReadFlag(s, ReadKeyAsWritten(HideCoins))),
            ReadFlag(s, "darkMode"))
  }

  /** `window.onload` reading the keys the handlers write. */
  function Load(s: Storage): (r: Startup)
    ensures forall flag: Flag :: Get(r.flags, flag) <==> ReadFlag(s, WrittenKey(flag))
    ensures r.currency == ReadCurrency(s) && (r.dark <==> ReadFlag(s, "darkMode"))
  {
    Startup(ReadCurrency(s),
            HideFlags(ReadFlag(s, WrittenKey(Hide2000)), ReadFlag(s, WrittenKey(HideBills)),
                      ReadFlag(s, WrittenKey(HideCoins))),
            ReadFlag(s, "darkMode"))
  }

  lemma ReadKeyNeverWritten(a: Flag, b: Flag)
    ensures ReadKeyAsWritten(a) != WrittenKey(b)
    ensures ReadKeyAsWritten(a) != "currency" && ReadKeyAsWritten(a) != "darkMode"
  {
    assert ReadKeyAsWritten(a)[0] == 'a';
    assert |ReadKeyAsWritten(a)| > |WrittenKey(b)|;
  }

  /** As written, a hide flag switched on is off again after a reload,
      whenever the storage did not already hold the `appState.` key. */
  lemma FlagLostAsWritten(st: Startup, s: Storage, flag: Flag)
    requires ReadKeyAsWritten(flag) !in s.items
    ensures !Get(LoadAsWritten(ChangeFlag(st, s, flag, true).1).flags, flag)
  {
    ReadKeyNeverWritten(flag, flag);
  }

  /** Reading the written keys, every setting survives a reload: the flag
      just changed, the others as stored, the currency and dark mode. */
  lemma FlagSurvivesReload(st: Startup, s: Storage, flag: Flag, v: bool)
    ensures Get(Load(ChangeFlag(st, s, flag, v).1).flags, flag) == v
    ensures var r := Load(ChangeFlag(st, s, flag, v).1);
      r.currency == ReadCurrency(s) && (r.dark <==> ReadFlag(s, "darkMode"))
  {
    LoadAfterFlagWrite(ChangeFlag(st, s, flag, v).1, s, flag, v);
  }

  lemma LoadAfterFlagWrite(s1: Storage, s: Storage, flag: Flag, v: bool)
    requires s1.items == s.items[WrittenKey(flag) := BoolText(v)]
    ensures Get(Load(s1).flags, flag) == v
    ensures Load(s1).currency == ReadCurrency(s) && (Load(s1).dark <==> ReadFlag(s, "darkMode"))
  {
    var key := WrittenKey(flag);
    assert key != "currency" && key != "darkMode";
    assert ReadFlag(s1, key) == v;
  }

  /** The currency chosen by a toggle is the one restored on reload. */
  lemma CurrencySurvivesReload(st: Startup, s: Storage)
    ensures Load(ToggleCurrency(st, s).1).currency == ToggleCurrency(st, s).0.currency
  {
  }

  /** The dark-mode choice is the one restored on reload. */
  lemma DarkSurvivesReload(st: Startup, s: Storage, v: bool)
    ensures Load(SetDark(st, s, v).1).dark == v
  {
  }
}
