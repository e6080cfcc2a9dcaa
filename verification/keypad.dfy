/** The keypad: a string buffer edited key by key while one count cell is
    active. `=` evaluates the buffer in place; `Enter` evaluates it, writes
    the result into the active cell and closes the keypad. */
module Keypad {
  import opened Wrappers
  import opened Text
  import opened Utils

  /** `currentInput`, `isFirstInput` and the index of the active cell
      (`activeDisplay`, `null` when the keypad is closed). */
  datatype Keypad = Keypad(input: string, first: bool, active: Option<nat>)

  /** A value written into a cell's display. */
  datatype Write = Write(cell: nat, value: string)

  datatype Outcome = Outcome(pad: Keypad, written: Option<Write>)

  /** The state before any cell was opened. */
  const Closed: Keypad := Keypad("", true, None)

  // `/^[0-9]$/.test(key) || key === '00'`
  predicate IsNumberKey(key: string) {
    (|key| == 1 && IsDigit(key[0])) || key == "00"
  }

  // `[+\-×÷]`
  predicate IsOperatorChar(c: char) {
    c == '+' || c == '-' || c == '×' || c == '÷'
  }

  // `/^[+\-×÷]$/.test(key)`
  predicate IsOperatorKey(key: string) {
    |key| == 1 && IsOperatorChar(key[0])
  }

  // `[+\-×÷.]`: a last character an operator key replaces.
  predicate IsReplaceable(c: char) {
    IsOperatorChar(c) || c == '.'
  }

  /** The last element of `s.split(/[+\-×÷]/)`: the text after the last
      operator character, or all of `s`. */
  function LastSegment(s: string): (r: string)
    ensures |r| <= |s| && r == s[|s| - |r|..]
    ensures forall i :: 0 <= i < |r| ==> !IsOperatorChar(r[i])
    ensures |r| == |s| || IsOperatorChar(s[|s| - |r| - 1])
  {
    if s == [] || IsOperatorChar(s[|s| - 1]) then []
    else LastSegment(s[..|s| - 1]) + [s[|s| - 1]]
  }

  predicate HasPoint(s: string) {
    exists i :: 0 <= i < |s| && s[i] == '.'
  }

  /** A digit key after the first input: a lone `"0"` is replaced by a
      non-zero digit and kept for `0`/`00`; otherwise the key is appended. */
  function AppendDigit(current: string, key: string): string {
    if current == "0" && key != "0" && key != "00" then key
    else if current == "0" then current
    else current + key
  }

  /** An operator key replaces a trailing operator or point and otherwise
      is appended. */
  function PutOperator(current: string, key: string): string {
    if current != [] && IsReplaceable(current[|current| - 1]) then current[..|current| - 1] + key
    else current + key
  }

  /** `currentInput.slice(0, -1) || '0'` */
  function Backspace(current: string): string {
    if |current| <= 1 then "0" else current[..|current| - 1]
  }

  /** The other keys: digits, operators and the point, in that order of
      precedence; any other key leaves the buffer alone. */
  function EditKey(input: string, first: bool, key: string): (string, bool) {
    if first && IsNumberKey(key) then (if key == "00" then "0" else key, false)
    else if IsNumberKey(key) then (AppendDigit(input, key), first)
    else if IsOperatorKey(key) then (PutOperator(input, key), false)
    else if key == "." then
      if !HasPoint(LastSegment(input)) then (input + key, false) else (input, first)
    else (input, first)
  }

  /** A click on a keypad button labelled `key`. */
  function Press(k: Keypad, key: string): (r: Outcome)
    ensures k.active.None? ==> r == Outcome(k, None)
    ensures r.written.Some? <==> k.active.Some? && key == "Enter"
    ensures r.written.Some? ==> r.written.value == Write(k.active.value, SafeEval(k.input))
    ensures r.pad.active.None? <==> k.active.None? || key == "Enter"
    ensures r.pad.active.Some? ==> r.pad.active == k.active
  {
    if k.active.None? then Outcome(k, None)
    else if key == "AC" then Outcome(Keypad("0", true, k.active), None)
    else if key == "⇐" then
      var b := Backspace(k.input);
      Outcome(Keypad(b, if b == "0" then true else k.first, k.active), None)
    else if key == "=" then Outcome(Keypad(SafeEval(k.input), true, k.active), None)
    else if key == "Enter" then
      var v := SafeEval(k.input);
      Outcome(Hide(Keypad(v, k.first, k.active)), Some(Write(k.active.value, v)))
    else
      var (input, first) := EditKey(k.input, k.first, key);
      Outcome(Keypad(input, first, k.active), None)
  }

  /** `showKeypad`: opening a cell seeds the buffer with the cell's value,
      or `"0"` when that is empty. */
  function Show(k: Keypad, cell: nat, value: string): (r: Keypad)
    ensures r.active == Some(cell) && r.first
    ensures r.input == (if value == [] then "0" else value)
  {
    Keypad(if value == [] then "0" else value, true, Some(cell))
  }

  /** `hideKeypad`: no active cell and an empty buffer. */
  function Hide(k: Keypad): (r: Keypad)
    ensures r.active.None? && r.input == []
    ensures r.first == k.first
  {
    Keypad("", k.first, None)
  }

  /** A click on the overlay closes the keypad unless it lands inside the
      panel; nothing is written back. */
  function OverlayClick(k: Keypad, insidePanel: bool): (r: Keypad)
    ensures insidePanel ==> r == k
    ensures !insidePanel ==> r.active.None? && r.input == []
  {
    if insidePanel then k else Hide(k)
  }

  // ----- Properties of single key presses -----

  /** `AC` clears the buffer to `"0"` and restarts input. */
  lemma ClearResets(k: Keypad)
    requires k.active.Some?
    ensures Press(k, "AC").pad == Keypad("0", true, k.active)
  {
  }

  /** `⇐` drops the last character; an empty result becomes `"0"`, and a
      `"0"` result restarts input. */
  lemma BackspaceDropsLast(k: Keypad)
    requires k.active.Some?
    ensures var p := Press(k, "⇐").pad;
      && (if |k.input| <= 1 then p.input == "0" else p.input + [k.input[|k.input| - 1]] == k.input)
      && p.first == (k.first || p.input == "0")
  {
  }

  /** A digit or `00` as the first input replaces the buffer. */
  lemma FirstDigitReplaces(k: Keypad, key: string)
    requires k.active.Some? && k.first && IsNumberKey(key)
    ensures Press(k, key).pad == Keypad(if key == "00" then "0" else key, false, k.active)
  {
    assert key != "AC" && key != "⇐" && key != "=" && key != "Enter";
  }

  /** Later digits: a lone `"0"` gives way to a non-zero digit and absorbs
      `0` and `00`; any other buffer grows by the key. */
  lemma LaterDigitAppends(k: Keypad, key: string)
    requires k.active.Some? && !k.first && IsNumberKey(key)
    ensures var p := Press(k, key).pad;
      && p.first == k.first
      && (k.input == "0" && (key == "0" || key == "00") ==> p.input == "0")
      && (k.input == "0" && key != "0" && key != "00" ==> p.input == key)
      && (k.input != "0" ==> p.input == k.input + key)
  {
    assert key != "AC" && key != "⇐" && key != "=" && key != "Enter";
  }

  /** An operator ends the buffer, replacing a trailing operator or point;
      the buffer grows by at most one character and keeps everything
      before its last character. */
  lemma OperatorEndsBuffer(k: Keypad, key: string)
    requires k.active.Some? && IsOperatorKey(key)
    ensures var p := Press(k, key).pad;
      && |p.input| > 0 && p.input[|p.input| - 1] == key[0]
      && |k.input| <= |p.input| <= |k.input| + 1
      && (|p.input| == |k.input| ==>
            p.input[..|p.input| - 1] == k.input[..|k.input| - 1] && IsReplaceable(k.input[|k.input| - 1]))
      && (|p.input| == |k.input| + 1 ==> p.input[..|p.input| - 1] == k.input)
      && !p.first
  {
    assert key != "AC" && key != "⇐" && key != "=" && key != "Enter" && !IsNumberKey(key);
  }

  /** A point is appended only when the number being typed has none yet;
      otherwise the key changes nothing. */
  lemma PointOncePerNumber(k: Keypad)
    requires k.active.Some?
    ensures var p := Press(k, ".").pad;
      && (HasPoint(LastSegment(k.input)) ==> p == k)
      && (!HasPoint(LastSegment(k.input)) ==> p.input == k.input + "." && !p.first)
      && HasPoint(LastSegment(p.input))
  {
    assert "." != "AC" && "." != "⇐" && "." != "=" && "." != "Enter";
    assert !IsNumberKey(".") && !IsOperatorKey(".");
    var e := EditKey(k.input, k.first, ".");
    assert Press(k, ".").pad == Keypad(e.0, e.1, k.active);
    if !HasPoint(LastSegment(k.input)) {
      SegmentAfterPoint(k.input);
    }
  }

  lemma SegmentAfterPoint(s: string)
    ensures LastSegment(s + ".") == LastSegment(s) + "."
    ensures HasPoint(LastSegment(s + "."))
  {
    assert (s + ".")[..|s|] == s;
    var seg := LastSegment(s + ".");
    assert seg[|seg| - 1] == '.';
  }

  /** `=` evaluates the buffer in place and restarts input. */
  lemma EqualsEvaluates(k: Keypad)
    requires k.active.Some?
    ensures Press(k, "=") == Outcome(Keypad(SafeEval(k.input), true, k.active), None)
  {
    assert "=" != "AC" && "=" != "⇐";
  }

  /** `Enter` writes the evaluated buffer into the active cell and closes
      the keypad; a click outside the panel closes it without writing. */
  lemma EnterWritesAndCloses(k: Keypad)
    requires k.active.Some?
    ensures var r := Press(k, "Enter");
      && r.written == Some(Write(k.active.value, SafeEval(k.input)))
      && r.pad.active.None? && r.pad.input == []
    ensures OverlayClick(k, false).active.None?
  {
    assert "Enter" != "AC" && "Enter" != "⇐" && "Enter" != "=";
  }

  // ----- Invariants of the buffer -----

  /** While a cell is active the buffer is never empty. */
  predicate OpenHasInput(k: Keypad) {
    k.active.Some? ==> k.input != []
  }

  lemma OpenHasInputPreserved(k: Keypad, key: string, cell: nat, value: string, inside: bool)
    requires OpenHasInput(k)
    ensures OpenHasInput(Press(k, key).pad)
    ensures OpenHasInput(Show(k, cell, value))
    ensures OpenHasInput(OverlayClick(k, inside))
    ensures OpenHasInput(Closed)
  {
    if k.active.Some? {
      if key == "AC" || key == "⇐" {
      } else if key == "=" {
        EqualsEvaluates(k);
      } else if key == "Enter" {
      } else {
        EditKeepsInput(k.input, k.first, key);
      }
    }
  }

  lemma EditKeepsInput(input: string, first: bool, key: string)
    requires input != []
    ensures EditKey(input, first, key).0 != []
  {
  }

  /** Each number in the buffer carries at most one point: a point is
      never typed into a segment that already has one. */
  predicate WellPointed(s: string)
  {
    s == [] || (WellPointed(s[..|s| - 1]) && (s[|s| - 1] == '.' ==> !HasPoint(LastSegment(s[..|s| - 1]))))
  }

  lemma {:induction false} SinglePointIsWellPointed(s: string)
    requires Count(s, '.') <= 1
    ensures WellPointed(s)
  {
    if s != [] {
      var init := s[..|s| - 1];
      SinglePointIsWellPointed(init);
      if s[|s| - 1] == '.' {
        assert Count(init, '.') == 0;
        NoPointWithoutCount(init);
        PointlessSegment(init);
      }
    }
  }

  lemma PointlessSegment(s: string)
    requires forall i :: 0 <= i < |s| ==> s[i] != '.'
    ensures !HasPoint(LastSegment(s))
  {
    var seg := LastSegment(s);
    forall i | 0 <= i < |seg| ensures seg[i] != '.' {
      assert seg[i] == s[|s| - |seg| + i];
    }
  }

  lemma {:induction false} NoPointWithoutCount(s: string)
    requires Count(s, '.') == 0
    ensures forall i :: 0 <= i < |s| ==> s[i] != '.'
  {
    if s != [] {
      NoPointWithoutCount(s[..|s| - 1]);
      assert forall i :: 0 <= i < |s| - 1 ==> s[i] == s[..|s| - 1][i];
    }
  }

  lemma AppendNonPoint(s: string, c: char)
    requires WellPointed(s) && c != '.'
    ensures WellPointed(s + [c])
  {
    assert (s + [c])[..|s|] == s;
  }

  lemma SingleDigitWellPointed(d: string)
    requires |d| == 1 && d[0] != '.'
    ensures WellPointed(d)
  {
    AppendNonPoint([], d[0]);
    assert [] + [d[0]] == d;
  }

  lemma DigitKeyWellPointed(input: string, key: string)
    requires WellPointed(input) && IsNumberKey(key)
    ensures WellPointed(AppendDigit(input, key))
  {
    if input == "0" {
      if key != "0" && key != "00" {
        SingleDigitWellPointed(key);
      }
    } else if |key| == 1 {
      AppendNonPoint(input, key[0]);
      assert input + [key[0]] == input + key;
    } else {
      AppendNonPoint(input, '0');
      AppendNonPoint(input + ['0'], '0');
      assert input + ['0'] + ['0'] == input + key;
    }
  }

  lemma OperatorKeyWellPointed(input: string, key: string)
    requires WellPointed(input) && IsOperatorKey(key)
    ensures WellPointed(PutOperator(input, key))
  {
    if input != [] && IsReplaceable(input[|input| - 1]) {
      var init := input[..|input| - 1];
      AppendNonPoint(init, key[0]);
      assert init + [key[0]] == init + key;
    } else {
      AppendNonPoint(input, key[0]);
      assert input + [key[0]] == input + key;
    }
  }

  lemma EditKeyWellPointed(input: string, first: bool, key: string)
    requires WellPointed(input)
    ensures WellPointed(EditKey(input, first, key).0)
  {
    if first && IsNumberKey(key) {
      SingleDigitWellPointed(if key == "00" then "0" else key);
    } else if IsNumberKey(key) {
      DigitKeyWellPointed(input, key);
    } else if IsOperatorKey(key) {
      OperatorKeyWellPointed(input, key);
    } else if key == "." && !HasPoint(LastSegment(input)) {
      assert (input + key)[..|input|] == input;
    }
  }

  /** Every key keeps the buffer well pointed; `=` and `Enter` replace it
      with an evaluation result, which has at most one point. */
  lemma PressKeepsWellPointed(k: Keypad, key: string)
    requires WellPointed(k.input)
    ensures WellPointed(Press(k, key).pad.input)
  {
    if k.active.Some? {
      if key == "AC" {
        SingleDigitWellPointed("0");
      } else if key == "⇐" {
        if |k.input| <= 1 {
          SingleDigitWellPointed("0");
        }
      } else if key == "=" {
        SafeEvalOnePoint(k.input);
        SinglePointIsWellPointed(SafeEval(k.input));
      } else if key != "Enter" {
        EditKeyWellPointed(k.input, k.first, key);
      }
    }
  }
}
