/**
 * The one-time-code form of the verification page: six single-character
 * cells filled by typing, cleared by Backspace and filled all at once by a
 * paste, a submit that sends the joined code only when it is complete, and
 * a resend action guarded by a 30-second countdown. Rendering, focus
 * movement (returned here as the index to focus), toasts and the network
 * requests are outside the model.
 */
module OtpEntry {
  import opened Wrappers
  import opened Digits

  /** Number of cells, and of digits in a code. */
  const CODE_LENGTH: nat := 6
  /** Seconds before another code may be requested. */
  const RESEND_COOLDOWN_SECONDS: nat := 30
  /** The message shown when submit finds the code incomplete. */
  const INCOMPLETE_CODE_ERROR: string := "Please enter the 6-digit code."

  /** Keys the cells react to; every other key is `OtherKey`. */
  datatype Key = Backspace | ArrowLeft | ArrowRight | OtherKey

  /** The text a cell may hold, the pattern `^\d?$`: empty or one decimal digit. */
  predicate IsCellText(v: string)
  {
    v == [] || (|v| == 1 && IsDigit(v[0]))
  }

  /** Six cells, each empty or one digit. */
  predicate WellFormedCells(cells: seq<string>)
  {
    |cells| == CODE_LENGTH && forall k :: 0 <= k < |cells| ==> IsCellText(cells[k])
  }

  /** `slice(-1)`: the last character of `s`, or the empty string. */
  function LastChar(s: string): (r: string)
    ensures |r| <= 1 && (r == [] <==> s == [])
    ensures r != [] ==> r[0] == s[|s| - 1]
  {
    if s == [] then [] else [s[|s| - 1]]
  }

  // ---------------------------------------------------------------------
  // Pasting

  /** The pasted text with every character other than a decimal digit removed. */
  function DigitsOf(s: string): (d: string)
    ensures |d| <= |s|
    ensures AllDigits(d)
  {
    if s == [] then []
    else DigitsOf(s[..|s| - 1]) + (if IsDigit(s[|s| - 1]) then [s[|s| - 1]] else [])
  }

  /** Removing non-digits distributes over concatenation, so it keeps the digits in their order. */
  lemma {:induction false} DigitsOfAppend(a: string, b: string)
    ensures DigitsOf(a + b) == DigitsOf(a) + DigitsOf(b)
    decreases |b|
  {
    if b != [] {
      var b' := b[..|b| - 1];
      assert (a + b)[..|a + b| - 1] == a + b';
      var c := b[|b| - 1];
      var t: string := if IsDigit(c) then [c] else [];
      assert (a + b)[|a + b| - 1] == c;
      DigitsOfAppend(a, b');
      calc {
        DigitsOf(a + b);
        DigitsOf(a + b') + t;
        (DigitsOf(a) + DigitsOf(b')) + t;
        DigitsOf(a) + (DigitsOf(b') + t);
        DigitsOf(a) + DigitsOf(b);
      }
    } else {
      assert a + b == a;
    }
  }

  /** Digits are kept: a digit string passes through unchanged. */
  lemma {:induction false} DigitsOfDigits(s: string)
    requires AllDigits(s)
    ensures DigitsOf(s) == s
  {
    if s != [] {
      DigitsOfDigits(s[..|s| - 1]);
    }
  }

  /** Everything else is dropped: a text without digits leaves nothing. */
  lemma {:induction false} DigitsOfNoDigits(s: string)
    requires forall i :: 0 <= i < |s| ==> !IsDigit(s[i])
    ensures DigitsOf(s) == []
  {
    if s != [] {
      DigitsOfNoDigits(s[..|s| - 1]);
    }
  }

  /** The digits a paste places: the first CODE_LENGTH digits of the pasted text, or all of them if fewer. */
  function PasteDigits(text: string): (d: string)
    ensures |d| <= CODE_LENGTH && AllDigits(d)
    ensures d <= DigitsOf(text)
    ensures |d| < CODE_LENGTH ==> d == DigitsOf(text)
  {
    var all := DigitsOf(text);
    if |all| <= CODE_LENGTH then all else all[..CODE_LENGTH]
  }

  /** The cell focused after pasting `n` digits: the first empty cell, or the last cell when all are filled. */
  function PasteFocus(n: nat): (f: nat)
    ensures f < CODE_LENGTH && f <= n
  {
    if n >= CODE_LENGTH then CODE_LENGTH - 1 else n
  }

  /** The cells after a paste of `d`: the digits from cell 0 in order, the rest empty. */
  predicate LeftFilled(cells: seq<string>, d: string)
  {
    |cells| == CODE_LENGTH
    && forall k :: 0 <= k < CODE_LENGTH ==> cells[k] == (if k < |d| then [d[k]] else [])
  }

  /**
   * After a paste of `d` the focus lands on the first empty cell, or on the
   * last cell when the paste filled them all.
   */
  lemma PasteFocusTarget(cells: seq<string>, d: string)
    requires 0 < |d| <= CODE_LENGTH && LeftFilled(cells, d)
    ensures PasteFocus(|d|) < CODE_LENGTH
    ensures |d| < CODE_LENGTH ==> cells[PasteFocus(|d|)] == [] && forall k :: 0 <= k < PasteFocus(|d|) ==> cells[k] != []
    ensures |d| == CODE_LENGTH ==> PasteFocus(|d|) == CODE_LENGTH - 1 && forall k :: 0 <= k < CODE_LENGTH ==> cells[k] != []
  {
  }

  // ---------------------------------------------------------------------
  // Submitting

  /** `values.join("")`: the cells concatenated in order. */
  function Join(cells: seq<string>): string
  {
    if cells == [] then [] else Join(cells[..|cells| - 1]) + cells[|cells| - 1]
  }

  /**
   * For cells that each hold at most one digit, the joined code is a digit
   * string, and it is as long as the cells only when no cell is empty:
   * the length check `code.length < 6` rejects exactly the incomplete codes.
   */
  lemma {:induction false} JoinComplete(cells: seq<string>)
    requires forall k :: 0 <= k < |cells| ==> IsCellText(cells[k])
    ensures AllDigits(Join(cells))
    ensures |Join(cells)| <= |cells|
    ensures |Join(cells)| == |cells| <==> forall k :: 0 <= k < |cells| ==> cells[k] != []
  {
    if cells != [] {
      var init := cells[..|cells| - 1];
      JoinComplete(init);
      var j := Join(init);
      var last := cells[|cells| - 1];
      assert Join(cells) == j + last;
      if |Join(cells)| == |cells| {
        assert |j| == |init| && last != [];
        forall k | 0 <= k < |cells| ensures cells[k] != [] {
          if k < |init| {
            assert cells[k] == init[k];
          }
        }
      }
    }
  }

  /** Joining one-character cells gives back their characters. */
  lemma {:induction false} JoinLeftFilled(cells: seq<string>, d: string, n: nat)
    requires |d| == n <= |cells|
    requires forall k :: 0 <= k < n ==> cells[k] == [d[k]]
    ensures Join(cells[..n]) == d
    decreases n
  {
    if n > 0 {
      assert cells[..n][..n - 1] == cells[..n - 1];
      JoinLeftFilled(cells, d[..n - 1], n - 1);
      assert d == d[..n - 1] + [d[n - 1]];
    }
  }

  /**
   * A paste of six digits makes a complete code, and submit sends exactly
   * those digits; a shorter paste leaves the code incomplete.
   */
  lemma PasteThenSubmit(cells: seq<string>, d: string)
    requires 0 < |d| <= CODE_LENGTH && AllDigits(d) && LeftFilled(cells, d)
    ensures WellFormedCells(cells)
    ensures |d| == CODE_LENGTH ==> Join(cells) == d
    ensures |d| < CODE_LENGTH ==> |Join(cells)| < CODE_LENGTH
  {
    JoinComplete(cells);
    if |d| == CODE_LENGTH {
      JoinLeftFilled(cells, d, CODE_LENGTH);
      assert cells[..CODE_LENGTH] == cells;
    } else {
      assert cells[|d|] == [];
    }
  }

  /** The state of the form. */
  class VerifyForm {
    /** The six cells. */
    var values: seq<string>
    /** The message shown under the cells; empty when there is none. */
    var error: string
    /** A resend request is under way. */
    var sending: bool
    /** Seconds left before resend is enabled. */
    var countdown: nat

    predicate Valid()
      reads this
    {
      WellFormedCells(values)
    }

    constructor ()
      ensures Valid()
      ensures values == seq(CODE_LENGTH, _ => []) && error == [] && !sending
      ensures countdown == RESEND_COOLDOWN_SECONDS
    {
      values := seq(CODE_LENGTH, _ => []);
      error := [];
      sending := false;
      countdown := RESEND_COOLDOWN_SECONDS;
    }

    /**
     * Input in cell `i`: keep only the last character typed; if it is a
     * digit or nothing it replaces cell `i` and clears the error, and a
     * digit moves the focus to the next cell when there is one. Anything
     * else is ignored.
     */
    method HandleChange(i: nat, input: string) returns (focus: Option<nat>)
      requires Valid() && i < CODE_LENGTH
      modifies this`values, this`error
      ensures Valid()
      ensures IsCellText(LastChar(input)) ==>
                && values == old(values)[i := LastChar(input)] && error == []
                && focus == (if LastChar(input) != [] && i + 1 < CODE_LENGTH then Some(i + 1) else None)
      ensures !IsCellText(LastChar(input)) ==> values == old(values) && error == old(error) && focus == None
    {
      var val := LastChar(input);
      focus := None;
      if !IsCellText(val) {
        return;
      }
      var next := values;
      next := next[i := val];
      values := next;
      error := [];
      if val != [] && i + 1 < CODE_LENGTH {
        focus := Some(i + 1);
      }
    }

    /**
     * A key in cell `i`. Backspace clears a non-empty cell, or moves the
     * focus back from an empty one; the arrows move the focus. Only
     * Backspace on a non-empty cell changes the cells, and only that cell.
     */
    method KeyDown(i: nat, key: Key) returns (focus: Option<nat>)
      requires Valid() && i < CODE_LENGTH
      modifies this`values
      ensures Valid()
      ensures key == Backspace && old(values)[i] != [] ==> values == old(values)[i := []] && focus == None
      ensures !(key == Backspace && old(values)[i] != []) ==> values == old(values)
      ensures (key == Backspace && old(values)[i] == []) || key == ArrowLeft ==>
                focus == (if i > 0 then Some(i - 1) else None)
      ensures key == ArrowRight ==> focus == (if i + 1 < CODE_LENGTH then Some(i + 1) else None)
      ensures key == OtherKey ==> focus == None
    {
      focus := None;
      if key == Backspace {
        if values[i] != [] {
          var next := values;
          next := next[i := []];
          values := next;
        } else if i > 0 {
          focus := Some(i - 1);
        }
      } else if key == ArrowLeft && i > 0 {
        focus := Some(i - 1);
      } else if key == ArrowRight && i + 1 < CODE_LENGTH {
        focus := Some(i + 1);
      }
    }

    /**
     * A paste: keep the first CODE_LENGTH digits of the text; if there are
     * none, nothing changes; otherwise they fill the cells from the first,
     * the rest are emptied, and the focus goes to the cell after the last
     * digit (the last cell when all are filled).
     */
    method HandlePaste(text: string) returns (focus: Option<nat>)
      requires Valid()
      modifies this`values
      ensures Valid()
      ensures PasteDigits(text) == [] ==> values == old(values) && focus == None
      ensures PasteDigits(text) != [] ==>
                LeftFilled(values, PasteDigits(text)) && focus == Some(PasteFocus(|PasteDigits(text)|))
    {
      var digits := PasteDigits(text);
      focus := None;
      if |digits| == 0 {
        return;
      }
      var next: seq<string> := seq(CODE_LENGTH, _ => []);
      for idx := 0 to |digits|
        invariant |next| == CODE_LENGTH
        invariant forall k :: 0 <= k < CODE_LENGTH ==> next[k] == (if k < idx then [digits[k]] else [])
      {
        next := next[idx := [digits[idx]]];
      }
      values := next;
      focus := Some(PasteFocus(|digits|));
    }

    /**
     * Submit: a joined code shorter than CODE_LENGTH sets the error and
     * sends nothing; otherwise the error is cleared and the code is sent.
     * A code is sent exactly when every cell holds a digit.
     */
    method Submit() returns (sent: Option<string>)
      requires Valid()
      modifies this`error
      ensures |Join(values)| < CODE_LENGTH ==> sent == None && error == INCOMPLETE_CODE_ERROR
      ensures |Join(values)| >= CODE_LENGTH ==> sent == Some(Join(values)) && error == []
      ensures sent.Some? <==> forall k :: 0 <= k < CODE_LENGTH ==> values[k] != []
      ensures sent.Some? ==> |sent.value| == CODE_LENGTH && AllDigits(sent.value)
    {
      JoinComplete(values);
      var code := Join(values);
      if |code| < CODE_LENGTH {
        error := INCOMPLETE_CODE_ERROR;
        sent := None;
        return;
      }
      error := [];
      sent := Some(code);
    }

    /** Resend: ignored while the countdown runs or a resend is under way; otherwise it starts one. */
    method Resend() returns (started: bool)
      modifies this`sending
      ensures started <==> old(countdown) == 0 && !old(sending)
      ensures sending == (old(sending) || started)
    {
      if countdown > 0 || sending {
        return false;
      }
      sending := true;
      started := true;
    }

    /** The end of a resend: the countdown restarts and resend is no longer under way. */
    method ResendSettled()
      requires sending
      modifies this`sending, this`countdown
      ensures !sending && countdown == RESEND_COOLDOWN_SECONDS
    {
      countdown := RESEND_COOLDOWN_SECONDS;
      sending := false;
    }

    /** One second of the countdown timer: down by one, stopping at zero. */
    method Tick()
      modifies this`countdown
      ensures countdown == if old(countdown) > 0 then old(countdown) - 1 else 0
    {
      if countdown > 0 {
        countdown := countdown - 1;
      }
    }
  }
}
