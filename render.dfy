/**
 * The text `choice_str` builds (src/lib.rs:84-94) and the other output
 * `present` writes, with the terminal escapes kept as abstract markers.
 */
module Render {
  import opened Wrappers

  /** Pieces of terminal output: plain text, or one of termion's escapes. */
  datatype Piece = Text(s: string) | Green | Reset | CursorUp(rows: nat) | ClearAfterCursor

  const Cursor: string := "> "
  const Indent: string := "  "
  const Crlf: string := "\r\n"

  /** One rendered option: highlighted with the cursor marker, or indented. */
  function Line(choice: string, selected: bool): seq<Piece> {
    if selected then [Green, Text(Cursor), Text(choice), Reset, Text(Crlf)]
    else [Text(Indent), Text(choice), Text(Crlf)]
  }

  /** The whole option list with the option at `cur` highlighted. */
  function Frame(choices: seq<string>, cur: nat): (ps: seq<Piece>)
    ensures forall p :: p in ps ==> !p.CursorUp? && !p.ClearAfterCursor?
    decreases |choices|
  {
    if choices == [] then []
    else Frame(choices[..|choices| - 1], cur) + Line(choices[|choices| - 1], |choices| - 1 == cur)
  }

  /** What a frame shows: each option's text and whether it is highlighted, in order. */
  function Marked(choices: seq<string>, cur: nat): seq<(string, bool)> {
    seq(|choices|, i requires 0 <= i < |choices| => (choices[i], i == cur))
  }

  /** Reads a frame back, line by line from the end; `None` if it is not a frame. */
  function Unframe(ps: seq<Piece>): Option<seq<(string, bool)>>
    decreases |ps|
  {
    var n := |ps|;
    if ps == [] then Some([])
    else if n >= 5 && ps[n - 5] == Green && ps[n - 4] == Text(Cursor) && ps[n - 3].Text?
         && ps[n - 2] == Reset && ps[n - 1] == Text(Crlf) then
      match Unframe(ps[..n - 5])
      case Some(rows) => Some(rows + [(ps[n - 3].s, true)])
      case None => None
    else if n >= 3 && ps[n - 3] == Text(Indent) && ps[n - 2].Text? && ps[n - 1] == Text(Crlf) then
      match Unframe(ps[..n - 3])
      case Some(rows) => Some(rows + [(ps[n - 2].s, false)])
      case None => None
    else None
  }

  /** Reading back the last line of a frame. */
  lemma UnframeLine(prefix: seq<Piece>, choice: string, selected: bool)
    ensures Unframe(prefix + Line(choice, selected)) ==
            match Unframe(prefix)
            case Some(rows) => Some(rows + [(choice, selected)])
            case None => None
  {
    var ps := prefix + Line(choice, selected);
    var m := |ps|;
    if selected {
      assert ps[m - 5] == Green && ps[m - 4] == Text(Cursor) && ps[m - 3] == Text(choice);
      assert ps[m - 2] == Reset && ps[m - 1] == Text(Crlf);
      assert ps[..m - 5] == prefix;
    } else {
      assert ps[m - 2] == Text(choice) && ps[m - 3] == Text(Indent) && ps[m - 1] == Text(Crlf);
      assert ps[..m - 3] == prefix;
    }
  }

  lemma MarkedSnoc(choices: seq<string>, cur: nat)
    requires choices != []
    ensures Marked(choices, cur) ==
            Marked(choices[..|choices| - 1], cur) + [(choices[|choices| - 1], |choices| - 1 == cur)]
  {
  }

  /**
   * A frame holds one CR LF terminated line per choice, in order, and only
   * the line at `cur` carries the highlight.
   */
  lemma {:induction false} UnframeFrame(choices: seq<string>, cur: nat)
    ensures Unframe(Frame(choices, cur)) == Some(Marked(choices, cur))
    decreases |choices|
  {
    if choices != [] {
      var n := |choices|;
      UnframeFrame(choices[..n - 1], cur);
      UnframeLine(Frame(choices[..n - 1], cur), choices[n - 1], n - 1 == cur);
      MarkedSnoc(choices, cur);
    } else {
      assert Marked(choices, cur) == [];
    }
  }

  /** Exactly one option is highlighted when `cur` is a valid index, none otherwise. */
  lemma FrameHighlightsCur(choices: seq<string>, cur: nat, i: nat)
    requires i < |choices|
    ensures Unframe(Frame(choices, cur)).Some?
    ensures |Unframe(Frame(choices, cur)).value| == |choices|
    ensures Unframe(Frame(choices, cur)).value[i] == (choices[i], i == cur)
  {
    UnframeFrame(choices, cur);
  }

  /** Writing the frame for more choices extends the frame for fewer. */
  lemma {:induction false} FramePrefix(choices: seq<string>, k: nat, cur: nat)
    requires k < |choices|
    ensures Frame(choices[..k + 1], cur) == Frame(choices[..k], cur) + Line(choices[k], k == cur)
  {
    assert choices[..k + 1][..k] == choices[..k];
  }
}
