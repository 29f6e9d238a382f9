/**
 * How many terminal rows a piece of text occupies (src/lib.rs:96-116).
 *
 * The terminal width is a parameter `w > 0` and the display width of a
 * string is an abstract function `dw`; Rust's `str::lines` is modelled
 * explicitly by `Lines`.
 */
module Geometry {

  /** Drops one trailing carriage return, as `str::lines` does for each line. */
  function StripCr(l: string): string {
    if l != [] && l[|l| - 1] == '\r' then l[..|l| - 1] else l
  }

  /**
   * The lines of `s` when the line in progress so far is `cur`: a line
   * feed ends the line in progress, and the end of the text ends it too
   * unless it is empty (so no empty line follows a final line feed).
   */
  function LinesFrom(cur: string, s: string): (ls: seq<string>)
    requires '\n' !in cur
    ensures forall l :: l in ls ==> '\n' !in l
    ensures ls == [] <==> cur == [] && s == []
    decreases |s|
  {
    if s == [] then
      if cur == [] then [] else [StripCr(cur)]
    else if s[0] == '\n' then
      [StripCr(cur)] + LinesFrom([], s[1..])
    else
      LinesFrom(cur + [s[0]], s[1..])
  }

  /**
   * Rust's `str::lines`: split at each line feed, drop one trailing `\r`
   * from every line, and produce no empty line after a final line feed
   * (so `""` has no lines at all).
   */
  function Lines(s: string): (ls: seq<string>)
    ensures forall l :: l in ls ==> '\n' !in l
    ensures ls == [] <==> s == []
  {
    LinesFrom([], s)
  }

  /** The lines `ls`, each followed by the line terminator `eol`. */
  function Terminated(ls: seq<string>, eol: string): string {
    if ls == [] then [] else ls[0] + eol + Terminated(ls[1..], eol)
  }

  predicate EndsWithCr(l: string) {
    l != [] && l[|l| - 1] == '\r'
  }

  /** A line feed after `l` ends the line in progress `cur + l`. */
  lemma {:induction false} LinesFromLine(cur: string, l: string, rest: string)
    requires '\n' !in cur && '\n' !in l
    ensures LinesFrom(cur, l + "\n" + rest) == [StripCr(cur + l)] + Lines(rest)
    decreases |l|
  {
    var s := l + "\n" + rest;
    if l == [] {
      assert cur + l == cur;
      assert s[0] == '\n' && s[1..] == rest;
    } else {
      assert s[0] == l[0] && s[1..] == l[1..] + "\n" + rest;
      assert l[0] in l;
      assert '\n' !in l[1..] by {
        assert forall c :: c in l[1..] ==> c in l;
      }
      assert '\n' !in cur + [l[0]];
      LinesFromLine(cur + [l[0]], l[1..], rest);
      assert cur + [l[0]] + l[1..] == cur + l;
    }
  }

  lemma LinesOfLf()
    ensures Lines("\n") == [""]
  {
    LinesFromLine([], [], []);
    assert [] + [] + "\n" + [] == "\n";
  }

  /** `Lines` undoes writing lines terminated by CR LF. */
  lemma {:induction false} LinesOfCrlfTerminated(ls: seq<string>)
    requires forall l :: l in ls ==> '\n' !in l
    ensures Lines(Terminated(ls, "\r\n")) == ls
  {
    if ls != [] {
      var l := ls[0];
      var rest := Terminated(ls[1..], "\r\n");
      assert l in ls;
      assert '\n' !in l + "\r";
      LinesFromLine([], l + "\r", rest);
      assert l + "\r\n" + rest == l + "\r" + "\n" + rest;
      assert [] + (l + "\r") == l + "\r";
      assert (l + "\r")[..|l|] == l;
      LinesOfCrlfTerminated(ls[1..]);
    }
  }

  /** `Lines` undoes writing lines terminated by LF, when no line ends in `\r`. */
  lemma {:induction false} LinesOfLfTerminated(ls: seq<string>)
    requires forall l :: l in ls ==> '\n' !in l && !EndsWithCr(l)
    ensures Lines(Terminated(ls, "\n")) == ls
  {
    if ls != [] {
      var l := ls[0];
      var rest := Terminated(ls[1..], "\n");
      assert l in ls;
      LinesFromLine([], l, rest);
      assert [] + l == l;
      LinesOfLfTerminated(ls[1..]);
    }
  }

  /** Splitting text cut right after a line feed, from a line in progress. */
  lemma {:induction false} LinesFromConcat(cur: string, a: string, b: string)
    requires '\n' !in cur
    requires (a == [] && cur == []) || (a != [] && a[|a| - 1] == '\n')
    ensures LinesFrom(cur, a + b) == LinesFrom(cur, a) + Lines(b)
    decreases |a|
  {
    if a == [] {
      assert a + b == b;
    } else {
      assert (a + b)[0] == a[0] && (a + b)[1..] == a[1..] + b;
      if a[0] == '\n' {
        LinesFromConcat([], a[1..], b);
        var x := [StripCr(cur)];
        assert x + (LinesFrom([], a[1..]) + Lines(b)) == (x + LinesFrom([], a[1..])) + Lines(b);
      } else {
        assert '\n' !in cur + [a[0]];
        LinesFromConcat(cur + [a[0]], a[1..], b);
      }
    }
  }

  /** Text that is empty or ends in a line feed splits independently of what follows. */
  lemma LinesConcat(a: string, b: string)
    requires a == [] || a[|a| - 1] == '\n'
    ensures Lines(a + b) == Lines(a) + Lines(b)
  {
    LinesFromConcat([], a, b);
  }

  /** Rows taken by the lines `ls`: each line takes `1 + dw(line) / w`. */
  function RowsOf(ls: seq<string>, w: nat, dw: string -> nat): (r: nat)
    requires w > 0
    ensures r >= |ls|
  {
    if ls == [] then 0 else 1 + dw(ls[0]) / w + RowsOf(ls[1..], w, dw)
  }

  lemma {:induction false} RowsOfAppend(a: seq<string>, b: seq<string>, w: nat, dw: string -> nat)
    requires w > 0
    ensures RowsOf(a + b, w, dw) == RowsOf(a, w, dw) + RowsOf(b, w, dw)
  {
    if a != [] {
      assert (a + b)[0] == a[0];
      assert (a + b)[1..] == a[1..] + b;
      RowsOfAppend(a[1..], b, w, dw);
    } else {
      assert a + b == b;
    }
  }

  /** Every line takes exactly one row iff every line is narrower than the terminal. */
  lemma {:induction false} RowsOfExact(ls: seq<string>, w: nat, dw: string -> nat)
    requires w > 0
    ensures RowsOf(ls, w, dw) == |ls| <==> forall l :: l in ls ==> dw(l) < w
  {
    if ls != [] {
      RowsOfExact(ls[1..], w, dw);
      assert dw(ls[0]) / w == 0 <==> dw(ls[0]) < w;
      assert ls == [ls[0]] + ls[1..];
    }
  }

  /**
   * `str_height` (src/lib.rs:114-116): the empty string takes no rows;
   * other text takes at least one row per line.
   */
  function StrHeight(s: string, w: nat, dw: string -> nat): (r: nat)
    requires w > 0
    ensures r == 0 <==> s == []
    ensures r >= |Lines(s)|
  {
    RowsOf(Lines(s), w, dw)
  }

  /** The height is the line count exactly when no line wraps. */
  lemma StrHeightExact(s: string, w: nat, dw: string -> nat)
    requires w > 0
    ensures StrHeight(s, w, dw) == |Lines(s)| <==> forall l :: l in Lines(s) ==> dw(l) < w
  {
    RowsOfExact(Lines(s), w, dw);
  }

  /** Heights add up over text cut after a line feed. */
  lemma StrHeightConcat(a: string, b: string, w: nat, dw: string -> nat)
    requires w > 0
    requires a == [] || a[|a| - 1] == '\n'
    ensures StrHeight(a + b, w, dw) == StrHeight(a, w, dw) + StrHeight(b, w, dw)
  {
    LinesConcat(a, b);
    RowsOfAppend(Lines(a), Lines(b), w, dw);
  }

  /**
   * `choice_height` (src/lib.rs:106-111), as the source computes it: it is
   * zero exactly when every choice is empty, so empty choices take no rows.
   */
  function ChoiceHeight(choices: seq<string>, w: nat, dw: string -> nat): (r: nat)
    requires w > 0
    ensures r == 0 <==> forall j :: 0 <= j < |choices| ==> choices[j] == []
  {
    if choices == [] then 0
    else
      StrHeight(choices[0], w, dw) + ChoiceHeight(choices[1..], w, dw)
  }

  /**
   * `height` (src/lib.rs:98-105), as the source computes it: zero exactly
   * when the prompt and every choice are empty.
   */
  function Height(prompt: string, choices: seq<string>, w: nat, dw: string -> nat): (r: nat)
    requires w > 0
    ensures r == 0 <==> prompt == [] && forall j :: 0 <= j < |choices| ==> choices[j] == []
  {
    StrHeight(prompt, w, dw) + ChoiceHeight(choices, w, dw)
  }

  /** Rows that `s` takes when it is written followed by a line break. */
  function BlockRows(s: string, w: nat, dw: string -> nat): (r: nat)
    requires w > 0
    ensures r >= 1
  {
    assert Lines(s + "\n") != [];
    StrHeight(s + "\n", w, dw)
  }

  /** Rows the option list takes on screen: one line-terminated block per choice. */
  function FrameRows(choices: seq<string>, w: nat, dw: string -> nat): (r: nat)
    requires w > 0
    ensures r >= |choices|
  {
    if choices == [] then 0 else BlockRows(choices[0], w, dw) + FrameRows(choices[1..], w, dw)
  }

  /** Rows the prompt and the option list take together. */
  function TotalRows(prompt: string, choices: seq<string>, w: nat, dw: string -> nat): nat
    requires w > 0
  {
    BlockRows(prompt, w, dw) + FrameRows(choices, w, dw)
  }

  /** The block of `s` agrees with `str_height(s)` unless `s` is empty or ends in a line feed. */
  lemma BlockRowsVersusStrHeight(s: string, w: nat, dw: string -> nat)
    requires w > 0 && dw("") == 0
    ensures s != [] && s[|s| - 1] != '\n' ==> BlockRows(s, w, dw) == StrHeight(s, w, dw)
    ensures s == [] || s[|s| - 1] == '\n' ==> BlockRows(s, w, dw) == StrHeight(s, w, dw) + 1
  {
    if s == [] || s[|s| - 1] == '\n' {
      BlockRowsOfClosedText(s, w, dw);
    } else {
      LinesOfPrefixLine(s);
    }
  }

  /** A line break after empty or line-terminated text adds one empty row. */
  lemma BlockRowsOfClosedText(s: string, w: nat, dw: string -> nat)
    requires w > 0 && dw("") == 0
    requires s == [] || s[|s| - 1] == '\n'
    ensures BlockRows(s, w, dw) == StrHeight(s, w, dw) + 1
  {
    StrHeightConcat(s, "\n", w, dw);
    LinesOfLf();
    assert RowsOf([""], w, dw) == 1;
  }

  /** Adding a line feed to text whose last line is unterminated does not add a line. */
  lemma {:induction false} LinesFromPrefixLine(cur: string, s: string)
    requires '\n' !in cur
    requires cur != [] || s != []
    requires s == [] || s[|s| - 1] != '\n'
    ensures LinesFrom(cur, s + "\n") == LinesFrom(cur, s)
    decreases |s|
  {
    if s == [] {
      assert s + "\n" == "\n";
      assert "\n"[1..] == [];
    } else {
      assert (s + "\n")[0] == s[0] && (s + "\n")[1..] == s[1..] + "\n";
      if s[0] == '\n' {
        LinesFromPrefixLine([], s[1..]);
      } else {
        assert '\n' !in cur + [s[0]];
        LinesFromPrefixLine(cur + [s[0]], s[1..]);
      }
    }
  }

  lemma LinesOfPrefixLine(s: string)
    requires s != [] && s[|s| - 1] != '\n'
    ensures Lines(s + "\n") == Lines(s)
  {
    LinesFromPrefixLine([], s);
  }

  /**
   * The rows counted for a prompt and its options are exactly the rows of
   * the text written for them, each piece followed by a line break.
   */
  lemma {:induction false} TotalRowsIsWrittenText(prompt: string, choices: seq<string>, w: nat, dw: string -> nat)
    requires w > 0
    ensures TotalRows(prompt, choices, w, dw) == StrHeight(Terminated([prompt] + choices, "\n"), w, dw)
  {
    assert ([prompt] + choices)[1..] == choices;
    assert Terminated([prompt] + choices, "\n") == (prompt + "\n") + Terminated(choices, "\n");
    StrHeightConcat(prompt + "\n", Terminated(choices, "\n"), w, dw);
    FrameRowsIsWrittenText(choices, w, dw);
  }

  lemma {:induction false} FrameRowsIsWrittenText(choices: seq<string>, w: nat, dw: string -> nat)
    requires w > 0
    ensures FrameRows(choices, w, dw) == StrHeight(Terminated(choices, "\n"), w, dw)
  {
    if choices != [] {
      assert Terminated(choices, "\n") == (choices[0] + "\n") + Terminated(choices[1..], "\n");
      StrHeightConcat(choices[0] + "\n", Terminated(choices[1..], "\n"), w, dw);
      FrameRowsIsWrittenText(choices[1..], w, dw);
    }
  }

  /**
   * The source's count agrees with the written text when no piece is empty
   * or ends in a line feed.
   */
  lemma {:induction false} ChoiceHeightAgrees(choices: seq<string>, w: nat, dw: string -> nat)
    requires w > 0 && dw("") == 0
    requires forall c :: c in choices ==> c != [] && c[|c| - 1] != '\n'
    ensures ChoiceHeight(choices, w, dw) == FrameRows(choices, w, dw)
  {
    if choices != [] {
      BlockRowsVersusStrHeight(choices[0], w, dw);
      ChoiceHeightAgrees(choices[1..], w, dw);
    }
  }

  /** Likewise `height` agrees with the rows of the prompt and the options. */
  lemma HeightAgrees(prompt: string, choices: seq<string>, w: nat, dw: string -> nat)
    requires w > 0 && dw("") == 0
    requires prompt != [] && prompt[|prompt| - 1] != '\n'
    requires forall c :: c in choices ==> c != [] && c[|c| - 1] != '\n'
    ensures Height(prompt, choices, w, dw) == TotalRows(prompt, choices, w, dw)
  {
    BlockRowsVersusStrHeight(prompt, w, dw);
    ChoiceHeightAgrees(choices, w, dw);
  }

  /** An empty option is written as a row of its own but counted as none. */
  lemma EmptyOptionUndercounted(w: nat, dw: string -> nat)
    requires w > 0 && dw("") == 0
    requires dw("b") < w
    ensures ChoiceHeight(["", "b"], w, dw) == 1
    ensures FrameRows(["", "b"], w, dw) == 2
  {
    BlockRowsVersusStrHeight("", w, dw);
    BlockRowsVersusStrHeight("b", w, dw);
    assert StrHeight("", w, dw) == 0;
    assert Lines("b") == ["b"] by {
      assert [] + ['b'] == "b";
      assert "b"[1..] == [];
    }
    assert ["", "b"][1..] == ["b"];
    assert StrHeight("b", w, dw) == 1;
    assert ChoiceHeight(["b"], w, dw) == 1;
    assert FrameRows(["b"], w, dw) == 1;
  }
}
