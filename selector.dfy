/**
 * The selection engine `Chooser` (src/lib.rs:16-112): construction,
 * selection by text, rendering, and the interactive loop of `present` with
 * the terminal replaced by an abstract key sequence and an output trace.
 */
module Selector {
  import opened Wrappers
  import opened Navigation
  import opened Render
  import Geometry

  const DefaultPrompt: string := "Choose one:"

  /**
   * How `present` counts the rows it moves the cursor up over: by the lines
   * of each piece, as `choice_height` and `height` do (src/lib.rs:96-116),
   * or by the rows the pieces take once written, each followed by a line
   * break.
   */
  datatype RowCount = LineCount | WrittenRows

  /** The rows a redraw moves up over: `choice_height()` as written, or the rows the option list takes. */
  function UpRows(count: RowCount, choices: seq<string>, w: nat, dw: string -> nat): nat
    requires w > 0
  {
    match count
    case LineCount => Geometry.ChoiceHeight(choices, w, dw)
    case WrittenRows => Geometry.FrameRows(choices, w, dw)
  }

  /** The rows the final erase moves up over: `height()` as written, or the rows prompt and options take. */
  function EraseRows(count: RowCount, prompt: string, choices: seq<string>, w: nat, dw: string -> nat): nat
    requires w > 0
  {
    match count
    case LineCount => Geometry.Height(prompt, choices, w, dw)
    case WrittenRows => Geometry.TotalRows(prompt, choices, w, dw)
  }

  /** The first index holding `val`, if any. */
  function FirstMatch(choices: seq<string>, val: string): (r: Option<nat>)
    ensures r.Some? ==> r.value < |choices| && choices[r.value] == val
    ensures r.Some? ==> forall j :: 0 <= j < r.value ==> choices[j] != val
    ensures r.None? <==> val !in choices
  {
    if choices == [] then None
    else if choices[0] == val then Some(0)
    else
      match FirstMatch(choices[1..], val)
      case Some(i) => Some(i + 1)
      case None => None
  }

  /** Carriage return and cursor-up, written before a redraw or the final erase. */
  function Rewind(rows: nat): seq<Piece> {
    [Text("\r"), CursorUp(rows)]
  }

  /**
   * The redraws the loop writes: one rewind by `up` rows and one frame per
   * key that moves the highlight. Nothing is redrawn only when the
   * highlight ends where it started.
   */
  function Redraws(choices: seq<string>, cur: nat, keys: seq<Key>, up: nat): (r: seq<Piece>)
    requires |choices| > 0
    ensures r == [] ==> Run(|choices|, cur, keys).index == cur
    decreases |keys|
  {
    if keys == [] then []
    else
      match Step(|choices|, cur, keys[0])
      case Pending(c) =>
        (if c != cur then Rewind(up) + Frame(choices, c) else [])
        + Redraws(choices, c, keys[1..], up)
      case Confirmed(_) => []
      case Cancelled(_) => []
  }

  /** Everything shown before the optional erase: prompt, first frame, redraws. */
  function Shown(prompt: string, choices: seq<string>, cur: nat, keys: seq<Key>, up: nat): seq<Piece>
    requires |choices| > 0
  {
    [Text("\r" + prompt + "\n")] + Frame(choices, cur) + Redraws(choices, cur, keys, up)
  }

  /** The final erase of a vanishing chooser: back up `rows` rows and clear below. */
  function Erase(rows: nat): seq<Piece> {
    Rewind(rows) + [ClearAfterCursor]
  }

  predicate EndsWith(s: seq<Piece>, suffix: seq<Piece>) {
    |suffix| <= |s| && s[|s| - |suffix|..] == suffix
  }

  /**
   * The whole output of one presentation, redraws moving up `up` rows and
   * the erase `total` rows: it opens with the prompt line, and with vanish
   * it closes with the erase.
   */
  function Session(prompt: string, choices: seq<string>, vanish: bool, cur: nat, keys: seq<Key>,
                   up: nat, total: nat): (r: seq<Piece>)
    requires |choices| > 0
    ensures r != [] && r[0] == Text("\r" + prompt + "\n")
    ensures vanish ==> EndsWith(r, Erase(total))
  {
    var s := Shown(prompt, choices, cur, keys, up);
    if vanish then
      EndsWithLast(s, Erase(total));
      s + Erase(total)
    else s
  }

  /** One key of the loop, for `Run`. */
  lemma RunStep(n: nat, cur: nat, keys: seq<Key>)
    requires n > 0 && keys != []
    ensures var o := Step(n, cur, keys[0]);
            Run(n, cur, keys) == if o.Pending? then Run(n, o.index, keys[1..]) else o
  {
  }

  /** One key of the loop, for the redraws it writes. */
  lemma RedrawsStep(choices: seq<string>, cur: nat, keys: seq<Key>, up: nat)
    requires |choices| > 0 && keys != []
    ensures var o := Step(|choices|, cur, keys[0]);
            Redraws(choices, cur, keys, up) ==
            if !o.Pending? then []
            else if o.index == cur then Redraws(choices, cur, keys[1..], up)
            else Rewind(up) + Frame(choices, o.index) + Redraws(choices, o.index, keys[1..], up)
  {
  }

  /** What one key writes: a rewind and a new frame when it moved the highlight off `cur`. */
  function Redrawn(choices: seq<string>, cur: nat, o: Outcome, up: nat): seq<Piece> {
    if o.Pending? && o.index != cur then Rewind(up) + Frame(choices, o.index) else []
  }

  /** How the state of the loop in `KeyLoop` advances over the key at `i`. */
  lemma KeyAdvances(choices: seq<string>, cur0: nat, cur: nat, keys: seq<Key>, i: nat, out: seq<Piece>, up: nat)
    requires |choices| > 0 && i < |keys|
    requires Run(|choices|, cur0, keys) == Run(|choices|, cur, keys[i..])
    requires out + Redraws(choices, cur, keys[i..], up) == Redraws(choices, cur0, keys, up)
    ensures var o := Step(|choices|, cur, keys[i]);
            var out' := out + Redrawn(choices, cur, o, up);
            if o.Pending? then
              && Run(|choices|, cur0, keys) == Run(|choices|, o.index, keys[i + 1..])
              && out' + Redraws(choices, o.index, keys[i + 1..], up) == Redraws(choices, cur0, keys, up)
            else
              Run(|choices|, cur0, keys) == o && out' == Redraws(choices, cur0, keys, up)
  {
    var ks := keys[i..];
    assert ks[0] == keys[i] && ks[1..] == keys[i + 1..];
    RunStep(|choices|, cur, ks);
    RedrawsStep(choices, cur, ks, up);
    var o := Step(|choices|, cur, keys[i]);
    if o.Pending? && o.index != cur {
      var step := Rewind(up) + Frame(choices, o.index);
      assert out + step + Redraws(choices, o.index, ks[1..], up)
          == out + (step + Redraws(choices, o.index, ks[1..], up));
    } else {
      assert out + [] == out;
    }
  }

  /** Every redraw moves up by the same `up` rows, whatever index is highlighted. */
  lemma {:induction false} RedrawsRewindWholeList(choices: seq<string>, cur: nat, keys: seq<Key>, up: nat)
    requires |choices| > 0
    ensures forall p :: p in Redraws(choices, cur, keys, up) && p.CursorUp? ==> p.rows == up
    decreases |keys|
  {
    if keys != [] {
      match Step(|choices|, cur, keys[0])
      case Pending(c) => RedrawsRewindWholeList(choices, c, keys[1..], up);
      case Confirmed(_) =>
      case Cancelled(_) =>
    }
  }

  lemma EndsWithLast(p: seq<Piece>, f: seq<Piece>)
    ensures EndsWith(p + f, f)
  {
    assert (p + f)[|p + f| - |f|..] == f;
  }

  lemma EndsWithPrepend(p: seq<Piece>, s: seq<Piece>, f: seq<Piece>)
    requires EndsWith(s, f)
    ensures EndsWith(p + s, f)
  {
    assert (p + s)[|p + s| - |f|..] == s[|s| - |f|..];
  }

  /**
   * The redraws end with the frame for the index the loop ends on, or
   * there are none and the index never moved.
   */
  lemma {:induction false} RedrawsEndOnFinalFrame(choices: seq<string>, cur: nat, keys: seq<Key>, up: nat)
    requires |choices| > 0
    ensures var r := Redraws(choices, cur, keys, up);
            var last := Run(|choices|, cur, keys).index;
            (r == [] && last == cur) || EndsWith(r, Frame(choices, last))
    decreases |keys|
  {
    if keys != [] {
      var o := Step(|choices|, cur, keys[0]);
      RedrawsStep(choices, cur, keys, up);
      RunStep(|choices|, cur, keys);
      if o.Pending? {
        var rest := Redraws(choices, o.index, keys[1..], up);
        RedrawsEndOnFinalFrame(choices, o.index, keys[1..], up);
        if o.index != cur {
          var step := Rewind(up) + Frame(choices, o.index);
          if rest == [] {
            EndsWithLast(Rewind(up), Frame(choices, o.index));
            assert step + rest == step;
          } else {
            EndsWithPrepend(step, rest, Frame(choices, Run(|choices|, o.index, keys[1..]).index));
          }
        }
      }
    }
  }

  /** What stays on screen without vanish is the frame highlighting the final index. */
  lemma LastFrameShowsFinalIndex(prompt: string, choices: seq<string>, cur: nat, keys: seq<Key>, up: nat)
    requires |choices| > 0
    ensures EndsWith(Shown(prompt, choices, cur, keys, up), Frame(choices, Run(|choices|, cur, keys).index))
  {
    var head := [Text("\r" + prompt + "\n")];
    var r := Redraws(choices, cur, keys, up);
    RedrawsEndOnFinalFrame(choices, cur, keys, up);
    if r == [] {
      EndsWithLast(head, Frame(choices, cur));
      assert Shown(prompt, choices, cur, keys, up) == head + Frame(choices, cur);
    } else {
      EndsWithPrepend(head + Frame(choices, cur), r, Frame(choices, Run(|choices|, cur, keys).index));
    }
  }

  /** No piece of the text is empty or ends in a line feed, so counting lines counts rows. */
  predicate ClosedPieces(prompt: string, choices: seq<string>) {
    && prompt != [] && prompt[|prompt| - 1] != '\n'
    && forall c :: c in choices ==> c != [] && c[|c| - 1] != '\n'
  }

  /**
   * With vanish set, the output ends by moving up over the rows of the
   * prompt and the option list as written, then clearing the screen below:
   * always with the rows counted as written, and with `height` as the
   * source computes it when no piece is empty or ends in a line feed.
   */
  lemma VanishRewindsWrittenText(prompt: string, choices: seq<string>, cur: nat, keys: seq<Key>, count: RowCount,
                                 w: nat, dw: string -> nat)
    requires |choices| > 0 && w > 0
    ensures var up := UpRows(count, choices, w, dw);
            count == WrittenRows || (dw("") == 0 && ClosedPieces(prompt, choices)) ==>
              Session(prompt, choices, true, cur, keys, up, EraseRows(count, prompt, choices, w, dw)) ==
              Shown(prompt, choices, cur, keys, up)
              + Erase(Geometry.StrHeight(Geometry.Terminated([prompt] + choices, "\n"), w, dw))
    ensures var up := UpRows(count, choices, w, dw);
            Session(prompt, choices, false, cur, keys, up, EraseRows(count, prompt, choices, w, dw)) ==
            Shown(prompt, choices, cur, keys, up)
  {
    Geometry.TotalRowsIsWrittenText(prompt, choices, w, dw);
    if count == LineCount && dw("") == 0 && ClosedPieces(prompt, choices) {
      Geometry.HeightAgrees(prompt, choices, w, dw);
    }
  }

  /**
   * When no piece is empty or ends in a line feed, the session as written,
   * counting lines, is the session counting the rows written.
   */
  lemma CountsAgree(prompt: string, choices: seq<string>, vanish: bool, cur: nat, keys: seq<Key>, w: nat, dw: string -> nat)
    requires |choices| > 0 && w > 0 && dw("") == 0
    requires ClosedPieces(prompt, choices)
    ensures UpRows(LineCount, choices, w, dw) == UpRows(WrittenRows, choices, w, dw)
    ensures EraseRows(LineCount, prompt, choices, w, dw) == EraseRows(WrittenRows, prompt, choices, w, dw)
    ensures Session(prompt, choices, vanish, cur, keys,
                    UpRows(LineCount, choices, w, dw), EraseRows(LineCount, prompt, choices, w, dw))
         == Session(prompt, choices, vanish, cur, keys,
                    UpRows(WrittenRows, choices, w, dw), EraseRows(WrittenRows, prompt, choices, w, dw))
  {
    Geometry.ChoiceHeightAgrees(choices, w, dw);
    Geometry.HeightAgrees(prompt, choices, w, dw);
  }

  /**
   * Options `["", "b"]`, then Down: two rows were written, but as written
   * the redraw moves up one row only; counting written rows moves up two.
   */
  // Concrete inputs are parameters pinned by `requires`, so the definitions are not unfolded over literals without bound.
  lemma EmptyOptionRedrawsLow(choices: seq<string>, keys: seq<Key>, w: nat, dw: string -> nat)
    requires choices == ["", "b"] && keys == [Down]
    requires w > 0 && dw("") == 0 && dw("b") < w
    ensures Redraws(choices, 0, keys, UpRows(LineCount, choices, w, dw)) == Rewind(1) + Frame(choices, 1)
    ensures Redraws(choices, 0, keys, UpRows(WrittenRows, choices, w, dw)) == Rewind(2) + Frame(choices, 1)
  {
    Geometry.EmptyOptionUndercounted(w, dw);
    assert keys[1..] == [];
  }

  class Chooser {
    var vanish: bool
    var prompt: string
    var choices: seq<string>
    var currentChoice: nat

    /** `Chooser::new` (src/lib.rs:23-30). */
    constructor (options: seq<string>)
      ensures vanish && prompt == DefaultPrompt && choices == options && currentChoice == 0
    {
      vanish := true;
      prompt := DefaultPrompt;
      choices := options;
      currentChoice := 0;
    }

    /** `set_choice` (src/lib.rs:33-41): highlight the first choice equal to `val`. */
    method SetChoice(val: string) returns (found: bool)
      modifies this`currentChoice
      ensures found <==> val in choices
      ensures found ==> FirstMatch(choices, val) == Some(currentChoice)
      ensures !found ==> currentChoice == old(currentChoice)
    {
      for i := 0 to |choices|
        invariant forall j :: 0 <= j < i ==> choices[j] != val
        invariant currentChoice == old(currentChoice)
      {
        if val == choices[i] {
          currentChoice := i;
          return true;
        }
      }
      return false;
    }

    /** `choice_str` (src/lib.rs:84-94): the option list as written to the terminal. */
    method ChoiceStr() returns (s: seq<Piece>)
      ensures s == Frame(choices, currentChoice)
    {
      s := [];
      for i := 0 to |choices|
        invariant s == Frame(choices[..i], currentChoice)
      {
        if i == currentChoice {
          s := s + [Green, Text(Cursor), Text(choices[i]), Reset, Text(Crlf)];
        } else {
          s := s + [Text(Indent), Text(choices[i]), Text(Crlf)];
        }
        FramePrefix(choices, i, currentChoice);
      }
      assert choices[..|choices|] == choices;
    }

    /** `choice_height` (src/lib.rs:106-111), or the corrected count. */
    function RowsUp(count: RowCount, w: nat, dw: string -> nat): nat
      requires w > 0
      reads this
    {
      UpRows(count, choices, w, dw)
    }

    /**
     * One pass of the key loop of `present` (src/lib.rs:56-75): move the
     * highlight and redraw, confirm, cancel, or ignore the key. A redraw
     * moves up the rows `count` gives for the option list.
     */
    method HandleKey(k: Key, w: nat, dw: string -> nat, count: RowCount)
      returns (done: bool, picked: Option<nat>, written: seq<Piece>)
      requires |choices| > 0 && currentChoice < |choices| && w > 0
      modifies this`currentChoice
      ensures var o := Step(|choices|, old(currentChoice), k);
              && currentChoice == o.index
              && done == !o.Pending?
              && picked == (if o.Confirmed? then Some(o.index) else None)
              && written == Redrawn(choices, old(currentChoice), o, UpRows(count, choices, w, dw))
    {
      done, picked, written := false, None, [];
      if IsUp(k) {
        if currentChoice > 0 {
          currentChoice := currentChoice - 1;
          var frame := ChoiceStr();
          written := Rewind(RowsUp(count, w, dw)) + frame;
        }
      } else if IsDown(k) {
        if currentChoice < |choices| - 1 {
          currentChoice := currentChoice + 1;
          var frame := ChoiceStr();
          written := Rewind(RowsUp(count, w, dw)) + frame;
        }
      } else if IsConfirm(k) {
        done, picked := true, Some(currentChoice);
      } else if IsCancel(k) {
        done := true;
      }
    }

    /**
     * The key loop of `present` (src/lib.rs:54-77) over the key sequence
     * `keys`: it ends at the first confirmation or cancellation, or when
     * the keys run out, and writes one rewind and frame per move.
     */
    method KeyLoop(keys: seq<Key>, w: nat, dw: string -> nat, count: RowCount) returns (picked: Option<nat>, out: seq<Piece>)
      requires |choices| > 0 && currentChoice < |choices| && w > 0
      modifies this`currentChoice
      ensures var o := Run(|choices|, old(currentChoice), keys);
              && currentChoice == o.index
              && picked == (if o.Confirmed? then Some(o.index) else None)
      ensures out == Redraws(choices, old(currentChoice), keys, UpRows(count, choices, w, dw))
    {
      ghost var n, cur0, cs, up := |choices|, currentChoice, choices, UpRows(count, choices, w, dw);
      out := [];
      picked := None;
      var i := 0;
      while i < |keys|
        invariant i <= |keys| && choices == cs
        invariant currentChoice < n
        invariant Run(n, cur0, keys) == Run(n, currentChoice, keys[i..])
        invariant out + Redraws(cs, currentChoice, keys[i..], up) == Redraws(cs, cur0, keys, up)
        invariant picked == None
      {
        KeyAdvances(cs, cur0, currentChoice, keys, i, out, up);
        var done, written;
        done, picked, written := HandleKey(keys[i], w, dw, count);
        out := out + written;
        if done {
          return;
        }
        i := i + 1;
      }
      assert keys[i..] == [];
    }

    /** `height` (src/lib.rs:98-105), or the corrected count. */
    function RowsTotal(count: RowCount, w: nat, dw: string -> nat): nat
      requires w > 0
      reads this
    {
      EraseRows(count, prompt, choices, w, dw)
    }

    /**
     * `present` (src/lib.rs:42-82) over the key sequence `keys`, with the
     * terminal `w` columns wide and display width `dw`. Running out of keys
     * ends the loop like the end of the key stream does. With `LineCount`
     * the cursor moves are those of the source; with `WrittenRows` they
     * cover the rows actually written.
     */
    method Present(keys: seq<Key>, w: nat, dw: string -> nat, count: RowCount)
      returns (result: Option<(nat, string)>, out: seq<Piece>)
      requires |choices| > 0 && currentChoice < |choices| && w > 0
      modifies this
      ensures var o := Run(|old(choices)|, old(currentChoice), keys);
              && result == (if o.Confirmed? then Some((o.index, old(choices)[o.index])) else None)
              && currentChoice == o.index
              && choices == (if o.Confirmed? then old(choices)[..o.index] + old(choices)[o.index + 1..]
                             else old(choices))
      ensures out == Session(old(prompt), old(choices), old(vanish), old(currentChoice), keys,
                             UpRows(count, old(choices), w, dw), EraseRows(count, old(prompt), old(choices), w, dw))
      ensures prompt == old(prompt) && vanish == old(vanish)
    {
      out := [Text("\r" + prompt + "\n")];
      var frame := ChoiceStr();
      out := out + frame;
      var picked, redraws := KeyLoop(keys, w, dw, count);
      out := out + redraws;
      if vanish {
        out := out + Erase(RowsTotal(count, w, dw));
      }
      match picked {
        case Some(c) =>
          result := Some((c, choices[c]));
          choices := choices[..c] + choices[c + 1..];
        case None =>
          result := None;
      }
    }
  }
}
