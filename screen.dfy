/** The differential terminal renderer (src/automata.rs:46-87): the previous
    frame is kept, and drawing a new frame writes only the changed cells, each
    as a cursor-position sequence (ECMA-48 CUP, section 8.3.21, ESC [ row ; col H)
    followed by the new character. */
module Screen {
  import opened Wrappers
  import opened RowMajor
  import opened Decimal

  const Esc: char := '\U{1B}'

  /** The glyph for a live tile. */
  const Dot: char := '\U{2022}'

  /** One positioned write: row y, column x, both 0-based as the source emits
      them, then the character. */
  datatype Update = Update(y: nat, x: nat, ch: char)

  /** `format!("\x1B[{};{}H{}", y, x, c)`: a CUP introducer, the row and the
      column in decimal, the final byte `H`, then the character. */
  function EncodeUpdate(u: Update): (r: string)
    ensures |r| >= 6 && r[0] == Esc && r[1] == '[' && r[|r| - 2] == 'H' && r[|r| - 1] == u.ch
  {
    [Esc, '['] + Format(u.y) + [';'] + Format(u.x) + ['H', u.ch]
  }

  /** The concatenated updates of one frame. */
  function EncodeUpdates(us: seq<Update>): string {
    if us == [] then [] else EncodeUpdate(us[0]) + EncodeUpdates(us[1..])
  }

  /** `println!("\x1b[38;5;{}m", color)`: select palette colour `color` for the
      foreground; `println!` ends the line. */
  function ColorPrefix(color: u8): (r: string)
    ensures |r| >= 10 && r[..7] == [Esc] + "[38;5;" && r[|r| - 2..] == "m\n"
    ensures AllDigits(r[7..|r| - 2]) && Parse(r[7..|r| - 2]) == color
  {
    var r := [Esc] + "[38;5;" + Format(color) + "m\n";
    assert r[7..|r| - 2] == Format(color);
    ParseFormat(color);
    r
  }

  /** (y, x) comes first in row-major order. */
  predicate Before(a: Update, b: Update) {
    a.y < b.y || (a.y == b.y && a.x < b.x)
  }

  /** Strictly increasing in row-major order, so no cell is written twice. */
  predicate Ordered(us: seq<Update>) {
    forall i, j | 0 <= i < j < |us| :: Before(us[i], us[j])
  }

  /** The inner loop: the updates for columns 0 up to x of row y. */
  function RowDiff(prev: seq<char>, next: seq<char>, w: nat, y: nat, x: nat): seq<Update>
    requires |prev| == |next| && x <= w && y * w + w <= |prev|
  {
    if x == 0 then []
    else
      RowDiff(prev, next, w, y, x - 1) +
      if At(prev, w, x - 1, y) != At(next, w, x - 1, y) then [Update(y, x - 1, At(next, w, x - 1, y))] else []
  }

  /** The outer loop: the updates for rows 0 up to y. */
  function FrameDiff(prev: seq<char>, next: seq<char>, w: nat, y: nat): seq<Update>
    requires |prev| == |next| && y * w <= |prev|
  {
    if y == 0 then []
    else
      assert (y - 1) * w + w == y * w;
      FrameDiff(prev, next, w, y - 1) + RowDiff(prev, next, w, y - 1, w)
  }

  /** Every update needed to turn frame `prev` into frame `next`. */
  function Diff(prev: seq<char>, next: seq<char>, w: nat, h: nat): seq<Update>
    requires |prev| == w * h && |next| == w * h
  {
    assert h * w == w * h;
    FrameDiff(prev, next, w, h)
  }

  /** Everything `draw_buffer` writes: nothing at all when no cell changed,
      otherwise the colour selection followed by the updates. */
  function Frame(color: u8, prev: seq<char>, next: seq<char>, w: nat, h: nat): string
    requires |prev| == w * h && |next| == w * h
  {
    var d := Diff(prev, next, w, h);
    if d == [] then [] else ColorPrefix(color) + EncodeUpdates(d)
  }

  /** `print_tiles`' mapping: tile 1 is the dot, every other value a space. */
  function TileChar(t: u8): (c: char)
    ensures c == Dot || c == ' '
    ensures c == Dot <==> t == 1
  {
    if t == 1 then Dot else ' '
  }

  /** The frame for a board: one glyph per tile, in the same order. */
  function TileChars(tiles: seq<u8>): (cs: seq<char>)
    ensures |cs| == |tiles|
    ensures forall i | 0 <= i < |tiles| :: cs[i] == Dot <==> tiles[i] == 1
  {
    seq(|tiles|, i requires 0 <= i < |tiles| => TileChar(tiles[i]))
  }

  // ---------------------------------------------------------------------------
  // The terminal

  class Terminal {
    const width: nat
    const height: nat
    var buffer: seq<char>
    const color: u8

    /** The previous frame has one character per cell. */
    ghost predicate Valid()
      reads this
    {
      |buffer| == width * height
    }

    /** `Terminal::new`: the previous frame is all spaces. */
    constructor (width: nat, height: nat, color: u8)
      ensures Valid() && this.width == width && this.height == height && this.color == color
      ensures buffer == seq(width * height, _ => ' ')
    {
      this.width := width;
      this.height := height;
      this.color := color;
      buffer := seq(width * height, _ => ' ');
    }

    /** `draw_buffer`: None models the "Wrong buffer data count!" panic. On
        success the new frame is adopted and the written characters returned. */
    method DrawBuffer(data: seq<char>) returns (out: Option<string>)
      requires Valid()
      modifies this
      ensures Valid()
      ensures |data| != |old(buffer)| ==> out == None && buffer == old(buffer)
      ensures |data| == |old(buffer)| ==> out == Some(Frame(color, old(buffer), data, width, height))
      ensures |data| == |old(buffer)| ==> buffer == data
    {
      if |data| != |buffer| {
        return None;
      }
      var printBuffer: string := [];
      assert height * width == width * height;
      for y := 0 to height
        invariant buffer == old(buffer)
        invariant y * width <= |buffer|
        invariant printBuffer == EncodeUpdates(FrameDiff(buffer, data, width, y))
      {
        MulMonotone(y + 1, height, width);
        assert (y + 1) * width == y * width + width;
        assert FrameDiff(buffer, data, width, y) + RowDiff(buffer, data, width, y, 0) == FrameDiff(buffer, data, width, y);
        for x := 0 to width
          invariant buffer == old(buffer) && y * width + width <= |buffer|
          invariant printBuffer == EncodeUpdates(FrameDiff(buffer, data, width, y) + RowDiff(buffer, data, width, y, x))
        {
          var idx := x + y * width;
          var changed := buffer[idx] != data[idx];
          DrawStep(buffer, data, width, y, x);
          if !changed {
            continue;
          }
          printBuffer := printBuffer + EncodeUpdate(Update(y, x, data[idx]));
        }
      }
      EncodeEmpty(Diff(buffer, data, width, height));
      if |printBuffer| == 0 {
        DiffEmptyIff(buffer, data, width, height);
        return Some([]);
      }
      buffer := data;
      out := Some(ColorPrefix(color) + printBuffer);
    }

    /** `print_tiles`: draw the board's tiles as dots and spaces. */
    method PrintTiles(tiles: seq<u8>) returns (out: Option<string>)
      requires Valid()
      modifies this
      ensures Valid()
      ensures |tiles| != |old(buffer)| ==> out == None && buffer == old(buffer)
      ensures |tiles| == |old(buffer)| ==> out == Some(Frame(color, old(buffer), TileChars(tiles), width, height))
      ensures |tiles| == |old(buffer)| ==> buffer == TileChars(tiles)
    {
      out := DrawBuffer(TileChars(tiles));
    }
  }

  // ---------------------------------------------------------------------------
  // The encoding

  /** One pass of `draw_buffer`'s inner loop: column x adds its update, when
      the cell changed, to what was written so far. */
  lemma DrawStep(prev: seq<char>, next: seq<char>, w: nat, y: nat, x: nat)
    requires |prev| == |next| && x < w && y * w + w <= |prev|
    ensures x + y * w < |prev|
    ensures EncodeUpdates(FrameDiff(prev, next, w, y) + RowDiff(prev, next, w, y, x + 1))
         == EncodeUpdates(FrameDiff(prev, next, w, y) + RowDiff(prev, next, w, y, x))
          + if prev[x + y * w] != next[x + y * w] then EncodeUpdate(Update(y, x, next[x + y * w])) else []
  {
    var i := x + y * w;
    var d := FrameDiff(prev, next, w, y) + RowDiff(prev, next, w, y, x);
    var u := Update(y, x, next[i]);
    if prev[i] != next[i] {
      assert FrameDiff(prev, next, w, y) + RowDiff(prev, next, w, y, x + 1) == d + [u];
      EncodeAppend(d, u);
    } else {
      assert FrameDiff(prev, next, w, y) + RowDiff(prev, next, w, y, x + 1) == d;
    }
  }

  lemma {:induction false} EncodeAppend(us: seq<Update>, u: Update)
    ensures EncodeUpdates(us + [u]) == EncodeUpdates(us) + EncodeUpdate(u)
    decreases |us|
  {
    if us == [] {
      assert [] + [u] == [u];
    } else {
      assert (us + [u])[1..] == us[1..] + [u];
      EncodeAppend(us[1..], u);
    }
  }

  /** Every update writes something, so nothing is written exactly when there
      is nothing to update (the check at src/automata.rs:75). */
  lemma EncodeEmpty(us: seq<Update>)
    ensures EncodeUpdates(us) == [] <==> us == []
  {
  }

  /** Read a decimal number ended by `term`; give it and what follows. */
  function ReadNumber(s: string, term: char): (r: Option<(nat, string)>)
    ensures r.Some? ==> |r.value.1| < |s|
  {
    var k := DigitRun(s);
    if k == 0 || k >= |s| || s[k] != term then None else Some((Parse(s[..k]), s[k + 1..]))
  }

  lemma ReadFormatted(n: nat, term: char, rest: string)
    requires !IsDigit(term)
    ensures ReadNumber(Format(n) + [term] + rest, term) == Some((n, rest))
  {
    var f := Format(n);
    var s := f + [term] + rest;
    assert s == f + ([term] + rest);
    DigitRunAll(f, [term] + rest);
    assert s[..|f|] == f;
    assert s[|f| + 1..] == rest;
    ParseFormat(n);
  }

  /** Read one positioned write off the front of s. */
  function ReadUpdate(s: string): (r: Option<(Update, string)>)
    ensures r.Some? ==> |r.value.1| < |s|
  {
    if |s| < 2 || s[0] != Esc || s[1] != '[' then None
    else
      match ReadNumber(s[2..], ';')
      case None => None
      case Some((y, r1)) =>
        match ReadNumber(r1, 'H')
        case None => None
        case Some((x, r2)) =>
          if r2 == [] then None else Some((Update(y, x, r2[0]), r2[1..]))
  }

  lemma ReadEncoded(u: Update, rest: string)
    ensures ReadUpdate(EncodeUpdate(u) + rest) == Some((u, rest))
  {
    var s := EncodeUpdate(u) + rest;
    var r1 := Format(u.x) + ['H'] + ([u.ch] + rest);
    assert s[2..] == Format(u.y) + [';'] + r1;
    ReadFormatted(u.y, ';', r1);
    ReadFormatted(u.x, 'H', [u.ch] + rest);
  }

  /** Read back a stream of positioned writes. */
  function DecodeUpdates(s: string): Option<seq<Update>>
    decreases |s|
  {
    if s == [] then Some([])
    else
      match ReadUpdate(s)
      case None => None
      case Some((u, rest)) =>
        match DecodeUpdates(rest)
        case None => None
        case Some(us) => Some([u] + us)
  }

  /** The written stream determines the updates: decoding it gives them back. */
  lemma {:induction false} DecodeEncode(us: seq<Update>)
    ensures DecodeUpdates(EncodeUpdates(us)) == Some(us)
    decreases |us|
  {
    if us != [] {
      ReadEncoded(us[0], EncodeUpdates(us[1..]));
      DecodeEncode(us[1..]);
      assert [us[0]] + us[1..] == us;
    }
  }

  /** Read back everything `draw_buffer` writes for one frame. */
  function DecodeFrame(s: string): Option<seq<Update>> {
    if s == [] then Some([])
    else if |s| < 7 || s[..7] != [Esc] + "[38;5;" then None
    else
      match ReadNumber(s[7..], 'm')
      case None => None
      case Some((_, r)) => if r == [] || r[0] != '\n' then None else DecodeUpdates(r[1..])
  }

  /** A frame's output exactly determines the updates it performs. */
  lemma FrameDecodes(color: u8, prev: seq<char>, next: seq<char>, w: nat, h: nat)
    requires |prev| == w * h && |next| == w * h
    ensures DecodeFrame(Frame(color, prev, next, w, h)) == Some(Diff(prev, next, w, h))
  {
    var d := Diff(prev, next, w, h);
    if d != [] {
      var s := Frame(color, prev, next, w, h);
      var rest := EncodeUpdates(d);
      assert s == [Esc] + "[38;5;" + Format(color) + "m\n" + rest;
      assert s[..7] == [Esc] + "[38;5;";
      assert s[7..] == Format(color) + ['m'] + ("\n" + rest);
      ReadFormatted(color, 'm', "\n" + rest);
      assert ("\n" + rest)[1..] == rest;
      DecodeEncode(d);
    }
  }

  // ---------------------------------------------------------------------------
  // The diff

  /** Soundness: each update is on the screen, at a cell whose character
      changed, and writes that cell's new character. */
  lemma {:induction false} RowDiffSound(prev: seq<char>, next: seq<char>, w: nat, y: nat, x: nat)
    requires |prev| == |next| && x <= w && y * w + w <= |prev|
    ensures forall u | u in RowDiff(prev, next, w, y, x) ::
      u.y == y && u.x < x && At(prev, w, u.x, u.y) != At(next, w, u.x, u.y) && u.ch == At(next, w, u.x, u.y)
  {
    if x > 0 {
      RowDiffSound(prev, next, w, y, x - 1);
    }
  }

  lemma {:induction false} FrameDiffSound(prev: seq<char>, next: seq<char>, w: nat, y: nat)
    requires |prev| == |next| && y * w <= |prev|
    ensures forall u | u in FrameDiff(prev, next, w, y) ::
      u.y < y && u.x < w && u.x + u.y * w < |prev| &&
      At(prev, w, u.x, u.y) != At(next, w, u.x, u.y) && u.ch == At(next, w, u.x, u.y)
  {
    if y > 0 {
      assert (y - 1) * w + w == y * w;
      FrameDiffSound(prev, next, w, y - 1);
      RowDiffSound(prev, next, w, y - 1, w);
    }
  }

  /** Completeness: every changed cell gets its update. */
  lemma {:induction false} RowDiffComplete(prev: seq<char>, next: seq<char>, w: nat, y: nat, x: nat)
    requires |prev| == |next| && x <= w && y * w + w <= |prev|
    ensures forall x' | 0 <= x' < x && At(prev, w, x', y) != At(next, w, x', y) ::
      Update(y, x', At(next, w, x', y)) in RowDiff(prev, next, w, y, x)
  {
    if x > 0 {
      RowDiffComplete(prev, next, w, y, x - 1);
    }
  }

  lemma {:induction false} FrameDiffComplete(prev: seq<char>, next: seq<char>, w: nat, y: nat)
    requires |prev| == |next| && y * w <= |prev|
    ensures forall x', y' | 0 <= x' < w && 0 <= y' < y && x' + y' * w < |prev| && At(prev, w, x', y') != At(next, w, x', y') ::
      Update(y', x', At(next, w, x', y')) in FrameDiff(prev, next, w, y)
  {
    if y > 0 {
      assert (y - 1) * w + w == y * w;
      FrameDiffComplete(prev, next, w, y - 1);
      RowDiffComplete(prev, next, w, y - 1, w);
    }
  }

  /** Order: the updates come in row-major order, each cell at most once. */
  lemma {:induction false} RowDiffOrdered(prev: seq<char>, next: seq<char>, w: nat, y: nat, x: nat)
    requires |prev| == |next| && x <= w && y * w + w <= |prev|
    ensures Ordered(RowDiff(prev, next, w, y, x))
  {
    if x > 0 {
      RowDiffOrdered(prev, next, w, y, x - 1);
      RowDiffSound(prev, next, w, y, x - 1);
    }
  }

  lemma {:induction false} FrameDiffOrdered(prev: seq<char>, next: seq<char>, w: nat, y: nat)
    requires |prev| == |next| && y * w <= |prev|
    ensures Ordered(FrameDiff(prev, next, w, y))
  {
    if y > 0 {
      assert (y - 1) * w + w == y * w;
      FrameDiffOrdered(prev, next, w, y - 1);
      FrameDiffSound(prev, next, w, y - 1);
      RowDiffOrdered(prev, next, w, y - 1, w);
      RowDiffSound(prev, next, w, y - 1, w);
    }
  }

  /** The diff writes exactly the changed cells: an update (y, x, c) is in it
      if and only if (x, y) is on the screen, its character changed, and c is
      the new one. The updates are in row-major order, so none repeats. */
  lemma DiffExact(prev: seq<char>, next: seq<char>, w: nat, h: nat)
    requires |prev| == w * h && |next| == w * h
    ensures Ordered(Diff(prev, next, w, h))
    ensures forall u: Update ::
      u in Diff(prev, next, w, h) <==>
        u.x < w && u.y < h && u.x + u.y * w < |prev| &&
        At(prev, w, u.x, u.y) != At(next, w, u.x, u.y) && u.ch == At(next, w, u.x, u.y)
  {
    assert h * w == w * h;
    FrameDiffSound(prev, next, w, h);
    FrameDiffComplete(prev, next, w, h);
    FrameDiffOrdered(prev, next, w, h);
  }

  /** Nothing is written exactly when the frame did not change. */
  lemma {:induction false} RowDiffSame(frame: seq<char>, w: nat, y: nat, x: nat)
    requires x <= w && y * w + w <= |frame|
    ensures RowDiff(frame, frame, w, y, x) == []
  {
    if x > 0 {
      RowDiffSame(frame, w, y, x - 1);
    }
  }

  lemma {:induction false} FrameDiffSame(frame: seq<char>, w: nat, y: nat)
    requires y * w <= |frame|
    ensures FrameDiff(frame, frame, w, y) == []
  {
    if y > 0 {
      assert (y - 1) * w + w == y * w;
      FrameDiffSame(frame, w, y - 1);
      RowDiffSame(frame, w, y - 1, w);
    }
  }

  lemma DiffEmptyIff(prev: seq<char>, next: seq<char>, w: nat, h: nat)
    requires |prev| == w * h && |next| == w * h
    ensures Diff(prev, next, w, h) == [] <==> prev == next
  {
    assert h * w == w * h;
    var d := FrameDiff(prev, next, w, h);
    if prev == next {
      FrameDiffSame(prev, w, h);
    }
    if prev != next {
      var i :| 0 <= i < |prev| && prev[i] != next[i];
      IndexCovers(w, h, i);
      var x, y := i % w, i / w;
      FrameDiffComplete(prev, next, w, h);
      assert Update(y, x, At(next, w, x, y)) in d;
    }
  }

  /** Drawing the frame already on the screen writes nothing, not even the
      colour selection: a second `draw_buffer` of the same frame is silent. */
  lemma RedrawIsSilent(color: u8, frame: seq<char>, w: nat, h: nat)
    requires |frame| == w * h
    ensures Frame(color, frame, frame, w, h) == []
  {
    DiffEmptyIff(frame, frame, w, h);
  }

  /** A changed frame is written as the colour selection followed by the
      updates. */
  lemma ChangedFrameOutput(color: u8, prev: seq<char>, next: seq<char>, w: nat, h: nat)
    requires |prev| == w * h && |next| == w * h && prev != next
    ensures Diff(prev, next, w, h) != []
    ensures Frame(color, prev, next, w, h) == ColorPrefix(color) + EncodeUpdates(Diff(prev, next, w, h))
  {
    DiffEmptyIff(prev, next, w, h);
  }

  /** For 0/1 boards the glyph mapping loses nothing: two boards draw the same
      frame only if they are equal, so every change of the board reaches the
      screen. */
  lemma TileCharsInjective(a: seq<u8>, b: seq<u8>)
    requires |a| == |b| && IsBinary(a) && IsBinary(b)
    ensures TileChars(a) == TileChars(b) <==> a == b
  {
    if TileChars(a) == TileChars(b) {
      forall i | 0 <= i < |a|
        ensures a[i] == b[i]
      {
        assert TileChars(a)[i] == TileChars(b)[i];
      }
    }
  }

  /** Drawing "abcd" over a blank 2x2 screen writes four updates in row-major
      order after one colour selection; drawing it again writes nothing. */
  lemma TwoByTwo(color: u8)
    ensures Diff("    ", "abcd", 2, 2) ==
      [Update(0, 0, 'a'), Update(0, 1, 'b'), Update(1, 0, 'c'), Update(1, 1, 'd')]
    ensures Frame(color, "    ", "abcd", 2, 2) ==
      ColorPrefix(color) + EncodeUpdates([Update(0, 0, 'a'), Update(0, 1, 'b'), Update(1, 0, 'c'), Update(1, 1, 'd')])
    ensures Frame(color, "abcd", "abcd", 2, 2) == []
  {
    RedrawIsSilent(color, "abcd", 2, 2);
  }
}
