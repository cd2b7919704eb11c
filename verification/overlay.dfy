/**
 * What the client draws over the video for one result: the 2D context of the
 * overlay canvas is cleared, then every box is stroked in lime with its label
 * `Pessoa <n>` written ten pixels above its top-left corner. Drawing is
 * modelled as the sequence of commands issued to the context.
 */
module Overlay {
  import opened Protocol
  import Seqs

  const Color: string := "lime"
  const LineWidth: int := 3
  const Font: string := "18px Arial"
  /** How far above the box's top edge the label's baseline sits. */
  const LabelOffset: int := 10
  const LabelPrefix: string := "Pessoa "

  datatype DrawCommand =
    | ClearRect(x: int, y: int, width: int, height: int)
    | StrokeRect(x: int, y: int, width: int, height: int, color: string, lineWidth: int)
    | FillText(text: string, x: int, y: int, font: string, color: string)

  /** The decimal numeral of `n`, as a template literal renders a number: digits, with no leading zero. */
  function Decimal(n: nat): (s: string)
    ensures |s| >= 1 && forall i :: 0 <= i < |s| ==> '0' <= s[i] <= '9'
    ensures s[0] == '0' <==> n == 0
  {
    if n < 10 then [('0' as int + n) as char]
    else Decimal(n / 10) + [('0' as int + n % 10) as char]
  }

  /** The number a string of decimal digits denotes. */
  function DecimalValue(s: string): nat
    requires forall i :: 0 <= i < |s| ==> '0' <= s[i] <= '9'
  {
    if s == [] then 0
    else DecimalValue(s[..|s| - 1]) * 10 + (s[|s| - 1] as int - '0' as int)
  }

  /** Reading the numeral back gives the number, so different numbers get different numerals. */
  lemma {:induction false} DecimalRoundTrip(n: nat)
    ensures DecimalValue(Decimal(n)) == n
  {
    if n >= 10 {
      DecimalRoundTrip(n / 10);
      var s := Decimal(n);
      assert s[..|s| - 1] == Decimal(n / 10);
    }
  }

  /** The label of the box at zero-based position `i`: `Pessoa ${i + 1}`, the prefix then the one-based position in digits. */
  function Label(i: nat): (s: string)
    ensures |s| > |LabelPrefix| && s[..|LabelPrefix|] == LabelPrefix
    ensures var n := s[|LabelPrefix|..];
      (forall k :: 0 <= k < |n| ==> '0' <= n[k] <= '9') && DecimalValue(n) == i + 1
    ensures s[|LabelPrefix|] != '0'
  {
    DecimalRoundTrip(i + 1);
    LabelPrefix + Decimal(i + 1)
  }

  /** Boxes at different positions carry different labels. */
  lemma LabelsDistinct(i: nat, j: nat)
    requires i != j
    ensures Label(i) != Label(j)
  {
  }

  /** The two commands the `forEach` body issues for the box at position `i`. */
  function BoxCommands(b: Box, i: nat): (cmds: seq<DrawCommand>)
    ensures |cmds| == 2 && cmds[0].StrokeRect? && cmds[1].FillText?
    ensures cmds[0].x == b.x1 && cmds[0].y == b.y1 && cmds[0].x + cmds[0].width == b.x2 && cmds[0].y + cmds[0].height == b.y2
    ensures cmds[0].color == cmds[1].color == Color && cmds[0].lineWidth == LineWidth && cmds[1].font == Font
    ensures cmds[1].text == Label(i) && cmds[1].x == b.x1 && cmds[1].y + LabelOffset == b.y1
  {
    [StrokeRect(b.x1, b.y1, b.x2 - b.x1, b.y2 - b.y1, Color, LineWidth),
     FillText(Label(i), b.x1, b.y1 - LabelOffset, Font, Color)]
  }

  /** The commands for all boxes, in box order. */
  function Overlay(boxes: seq<Box>): (cmds: seq<DrawCommand>)
    ensures |cmds| == 2 * |boxes|
    ensures forall k :: 0 <= k < |cmds| ==> !cmds[k].ClearRect?
    decreases |boxes|
  {
    if boxes == [] then []
    else Overlay(boxes[..|boxes| - 1]) + BoxCommands(boxes[|boxes| - 1], |boxes| - 1)
  }

  /** Drawing one more box adds that box's two commands. */
  lemma OverlayStep(boxes: seq<Box>, i: nat)
    requires i < |boxes|
    ensures Overlay(boxes[..i + 1]) == Overlay(boxes[..i]) + BoxCommands(boxes[i], i)
  {
    assert boxes[..i + 1][..i] == boxes[..i];
  }

  /**
   * Box `i` gives commands `2i` and `2i + 1`: a rectangle spanning exactly
   * the box's corners and the label `Pessoa i+1` at (x1, y1 - 10).
   */
  lemma OverlayAt(boxes: seq<Box>, i: nat)
    requires i < |boxes|
    ensures var cmds, b := Overlay(boxes), boxes[i];
      && cmds[2 * i] == StrokeRect(b.x1, b.y1, b.x2 - b.x1, b.y2 - b.y1, Color, LineWidth)
      && cmds[2 * i].x + cmds[2 * i].width == b.x2
      && cmds[2 * i].y + cmds[2 * i].height == b.y2
      && cmds[2 * i + 1] == FillText(Label(i), b.x1, b.y1 - LabelOffset, Font, Color)
  {
    OverlaySlot(boxes, i);
  }

  /** Commands `2i` and `2i + 1` are the commands of box `i`. */
  lemma {:induction false} OverlaySlot(boxes: seq<Box>, i: nat)
    requires i < |boxes|
    ensures var cmds, own := Overlay(boxes), BoxCommands(boxes[i], i);
      cmds[2 * i] == own[0] && cmds[2 * i + 1] == own[1]
    decreases |boxes|
  {
    var n := |boxes| - 1;
    var prefix, last := Overlay(boxes[..n]), BoxCommands(boxes[n], n);
    assert Overlay(boxes) == prefix + last;
    if i < n {
      OverlaySlot(boxes[..n], i);
      assert boxes[..n][i] == boxes[i];
    }
  }

  /**
   * What remains on the canvas after a run of commands: everything issued
   * since the last clear (every clear in this model covers the whole canvas).
   */
  function Visible(cmds: seq<DrawCommand>): (v: seq<DrawCommand>)
    ensures |v| <= |cmds|
    ensures forall k :: 0 <= k < |v| ==> !v[k].ClearRect?
  {
    if cmds == [] then []
    else if cmds[|cmds| - 1].ClearRect? then []
    else Visible(cmds[..|cmds| - 1]) + [cmds[|cmds| - 1]]
  }

  /** Commands that do not clear are simply added to what is visible. */
  lemma {:induction false} VisibleAfterDrawing(before: seq<DrawCommand>, drawn: seq<DrawCommand>)
    requires forall k :: 0 <= k < |drawn| ==> !drawn[k].ClearRect?
    ensures Visible(before + drawn) == Visible(before) + drawn
    decreases |drawn|
  {
    if drawn == [] {
      assert before + drawn == before;
    } else {
      var n := |drawn| - 1;
      var all := before + drawn;
      assert all[..|all| - 1] == before + drawn[..n] && all[|all| - 1] == drawn[n];
      VisibleAfterDrawing(before, drawn[..n]);
      Seqs.AppendLast(Visible(before), drawn);
    }
  }

  /**
   * Full replacement: whatever was drawn before, clearing and then drawing a
   * result's boxes leaves exactly that result's overlay visible.
   */
  lemma OverlayReplaces(before: seq<DrawCommand>, clear: DrawCommand, boxes: seq<Box>)
    requires clear.ClearRect?
    ensures Visible(before + [clear] + Overlay(boxes)) == Overlay(boxes)
  {
    VisibleAfterDrawing(before + [clear], Overlay(boxes));
  }
}
