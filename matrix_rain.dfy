/** The "matrix rain" background drawn by initMatrixRain: a canvas split into
    columns one glyph wide, each holding one falling drop whose row is kept in
    the `drops` array. Every frame paints one glyph per column at its drop's
    row, then moves every drop one row down; a drop that has fallen past the
    bottom edge restarts at the top with a small chance per frame.
    Math.random is replaced by draws the caller passes in; painting itself is
    recorded as the glyph, column and row that would be drawn. */
module MatrixRain {

  /** Glyph size in pixels: the width of a column and the height of a row. */
  const FontSize: nat := 14

  /** The rain alphabet; each character is one glyph. */
  const Chars: string := "ABCDEFGHIJKLMNOPQRSTUVWXYZ0123456789@#$%^&*()"

  /** A drop past the bottom edge restarts when its coin exceeds this. */
  const ResetThreshold: real := 0.975

  /** A draw of Math.random: uniform in [0, 1). */
  predicate IsUniform(r: real) {
    0.0 <= r < 1.0
  }

  predicate AllUniform(rs: seq<real>) {
    forall k :: 0 <= k < |rs| ==> IsUniform(rs[k])
  }

  /** Index of the glyph chosen by the draw r, floor(r * |Chars|): always a
      position of the 45-character alphabet. */
  function GlyphIndex(r: real): (k: nat)
    requires IsUniform(r)
    ensures |Chars| == 45 && k < |Chars|
    ensures k as real <= r * (|Chars| as real) < (k + 1) as real
  {
    (r * (|Chars| as real)).Floor
  }

  /** Number of drops created for a canvas `width` pixels wide.
      `initMatrixRain` counts the integers i with i < width / FontSize in
      real division, so a partial column at the right edge gets a drop too:
      the count is the least n that is not below width / FontSize, the
      ceiling. */
  function ColumnCount(width: nat): (n: nat)
    ensures (n as real) >= (width as real) / (FontSize as real)
    ensures n == 0 || ((n - 1) as real) < (width as real) / (FontSize as real)
  {
    var n := (width + FontSize - 1) / FontSize;
    assert FontSize * n >= width;
    assert n == 0 || FontSize * (n - 1) < width;
    n
  }

  /** The initialisation loop: one drop, at row 1, for every column index i
      with i < width / FontSize. */
  method InitialDrops(width: nat) returns (drops: seq<int>)
    ensures |drops| == ColumnCount(width)
    ensures forall k :: 0 <= k < |drops| ==> drops[k] == 1
  {
    var columns: real := (width as real) / (FontSize as real);
    drops := [];
    var i: nat := 0;
    while (i as real) < columns
      invariant i == |drops| <= ColumnCount(width)
      invariant forall k :: 0 <= k < |drops| ==> drops[k] == 1
      decreases ColumnCount(width) - i
    {
      drops := drops + [1];
      i := i + 1;
    }
  }

  /** One column's drop after a frame. It restarts (is set to 0, then
      advanced to 1) only when it is below the bottom edge of a canvas
      `height` pixels tall and its coin exceeds the threshold; otherwise it
      moves one row down. */
  function NextDrop(drop: int, height: nat, coin: real): (r: int)
    ensures drop * FontSize > height && coin > ResetThreshold ==> r == 1
    ensures drop * FontSize <= height || coin <= ResetThreshold ==> r == drop + 1
    ensures r == drop + 1 || r == 1
    ensures drop >= 0 ==> r >= 1
  {
    (if drop * FontSize > height && coin > ResetThreshold then 0 else drop) + 1
  }

  /** All drops after a frame, column by column. */
  function Fall(drops: seq<int>, height: nat, coins: seq<real>): (r: seq<int>)
    requires |coins| == |drops|
    ensures |r| == |drops|
    ensures forall k :: 0 <= k < |r| ==> r[k] == NextDrop(drops[k], height, coins[k])
  {
    if drops == [] then []
    else [NextDrop(drops[0], height, coins[0])] + Fall(drops[1..], height, coins[1..])
  }

  /** What a frame paints in one column: glyph `ch` at pixel (x, y). */
  datatype Glyph = Glyph(x: int, y: int, ch: char)

  /** The field as a value: the drops and the canvas size. */
  datatype Field = Field(drops: seq<int>, width: nat, height: nat)

  /** What can happen to the field: a frame of the 50 ms interval, with the
      draws it consumes per column, or a window resize. */
  datatype Event =
    | Frame(glyphRolls: seq<real>, resetRolls: seq<real>)
    | Resized(width: nat, height: nat)

  /** Every frame in `events` brings one coin per column. */
  predicate Fits(columns: nat, events: seq<Event>) {
    forall k :: 0 <= k < |events| ==> (events[k].Frame? ==> |events[k].resetRolls| == columns)
  }

  /** The field right after initialisation. */
  function Start(width: nat, height: nat): (f: Field)
    ensures |f.drops| == ColumnCount(width)
    ensures forall k :: 0 <= k < |f.drops| ==> f.drops[k] == 1
  {
    Field(seq(ColumnCount(width), _ => 1), width, height)
  }

  /** The field after a sequence of events. */
  function Replay(f: Field, events: seq<Event>): (r: Field)
    requires Fits(|f.drops|, events)
    ensures |r.drops| == |f.drops|
    decreases |events|
  {
    if events == [] then f
    else
      assert Fits(|f.drops|, events[1..]) by {
        forall k | 0 <= k < |events[1..]| ensures events[1..][k] == events[k + 1] { }
      }
      match events[0]
      case Frame(_, coins) => Replay(Field(Fall(f.drops, f.height, coins), f.width, f.height), events[1..])
      case Resized(w, h) => Replay(Field(f.drops, w, h), events[1..])
  }

  /** However frames and resizes interleave, the number of drops never
      changes and every drop stays at row 1 or below. */
  lemma {:induction false} ReplayKeepsDrops(f: Field, events: seq<Event>)
    requires Fits(|f.drops|, events)
    requires forall k :: 0 <= k < |f.drops| ==> f.drops[k] >= 1
    ensures |Replay(f, events).drops| == |f.drops|
    ensures forall k :: 0 <= k < |f.drops| ==> Replay(f, events).drops[k] >= 1
    decreases |events|
  {
    if events != [] {
      assert Fits(|f.drops|, events[1..]) by {
        forall k | 0 <= k < |events[1..]| ensures events[1..][k] == events[k + 1] { }
      }
      match events[0]
      case Frame(_, coins) =>
        ReplayKeepsDrops(Field(Fall(f.drops, f.height, coins), f.width, f.height), events[1..]);
      case Resized(w, h) =>
        ReplayKeepsDrops(Field(f.drops, w, h), events[1..]);
    }
  }

  /** Resizing alone never touches the drops: neither their number nor
      their rows. */
  lemma {:induction false} ResizesKeepDrops(f: Field, events: seq<Event>)
    requires forall k :: 0 <= k < |events| ==> events[k].Resized?
    ensures Fits(|f.drops|, events)
    ensures Replay(f, events).drops == f.drops
    decreases |events|
  {
    if events != [] {
      assert events[0].Resized?;
      assert forall k :: 0 <= k < |events[1..]| ==> events[1..][k] == events[k + 1];
      ResizesKeepDrops(Field(f.drops, events[0].width, events[0].height), events[1..]);
    }
  }

  /** The rain field of one canvas. */
  class RainField {
    var width: nat
    var height: nat
    const drops: array<int>

    /** Every drop is at row 1 or below. */
    ghost predicate Valid()
      reads this, drops
    {
      forall k :: 0 <= k < drops.Length ==> drops[k] >= 1
    }

    ghost function State(): Field
      reads this, drops
    {
      Field(drops[..], width, height)
    }

    /** Sets up the canvas at the window's size and one drop per column. */
    constructor (width: nat, height: nat)
      ensures Valid() && fresh(drops)
      ensures State() == Start(width, height)
    {
      var init := InitialDrops(width);
      this.width := width;
      this.height := height;
      this.drops := new int[|init|](k requires 0 <= k < |init| => init[k]);
      new;
      assert drops[..] == Start(width, height).drops;
    }

    /** One frame (`draw`): paints a glyph in every column at its drop's
        current row, then advances every drop in place. */
    method Tick(glyphRolls: seq<real>, resetRolls: seq<real>) returns (painted: seq<Glyph>)
      requires Valid()
      requires |glyphRolls| == drops.Length && |resetRolls| == drops.Length
      requires AllUniform(glyphRolls) && AllUniform(resetRolls)
      modifies drops
      ensures Valid()
      ensures drops[..] == Fall(old(drops[..]), height, resetRolls)
      ensures State() == Replay(old(State()), [Frame(glyphRolls, resetRolls)])
      ensures |painted| == drops.Length
      ensures forall k :: 0 <= k < |painted| ==>
        painted[k] == Glyph(k * FontSize, old(drops[k]) * FontSize, Chars[GlyphIndex(glyphRolls[k])])
    {
      painted := [];
      for i := 0 to drops.Length
        invariant |painted| == i
        invariant forall k :: 0 <= k < i ==> drops[k] == NextDrop(old(drops[k]), height, resetRolls[k])
        invariant forall k :: i <= k < drops.Length ==> drops[k] == old(drops[k])
        invariant forall k :: 0 <= k < i ==>
          painted[k] == Glyph(k * FontSize, old(drops[k]) * FontSize, Chars[GlyphIndex(glyphRolls[k])])
      {
        var text := Chars[GlyphIndex(glyphRolls[i])];
        painted := painted + [Glyph(i * FontSize, drops[i] * FontSize, text)];
        if drops[i] * FontSize > height && resetRolls[i] > ResetThreshold {
          drops[i] := 0;
        }
        drops[i] := drops[i] + 1;
      }
      assert drops[..] == Fall(old(drops[..]), height, resetRolls);
    }

    /** Window resize: only the canvas size changes; the drops keep their
        number and rows even when the column count no longer matches. */
    method Resize(newWidth: nat, newHeight: nat)
      requires Valid()
      modifies this
      ensures Valid()
      ensures width == newWidth && height == newHeight
      ensures drops[..] == old(drops[..])
      ensures State() == Replay(old(State()), [Resized(newWidth, newHeight)])
    {
      width := newWidth;
      height := newHeight;
    }
  }
}
