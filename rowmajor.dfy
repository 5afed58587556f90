/** Flat row-major layout shared by the board and the terminal: cell (x, y) of a
    width-w grid lives at index x + y * w. */
module RowMajor {

  /** Rust's `u8`. */
  type u8 = x: int | 0 <= x < 256

  /** Every entry is 0 or 1: a tile that is dead or alive, a rule slot that
      is off or on. */
  predicate IsBinary(s: seq<u8>) {
    forall i | 0 <= i < |s| :: s[i] <= 1
  }

  /** The element at column x, row y of a row-major buffer of width w. */
  function At<T>(s: seq<T>, w: nat, x: nat, y: nat): T
    requires x + y * w < |s|
  {
    s[x + y * w]
  }

  lemma MulMonotone(a: nat, b: nat, w: nat)
    requires a <= b
    ensures a * w <= b * w
  {
    var k := b - a;
    assert b * w == a * w + k * w;
  }

  /** Every in-range cell addresses a slot of a width*height buffer. */
  lemma IndexInBounds(w: nat, h: nat, x: nat, y: nat)
    requires x < w && y < h
    ensures x + y * w < w * h
  {
    MulMonotone(y + 1, h, w);
    assert (y + 1) * w == y * w + w;
  }

  /** The flat index of (x, y) gives back x and y by remainder and quotient. */
  lemma IndexSplit(w: nat, x: nat, y: nat)
    requires x < w
    ensures (x + y * w) / w == y && (x + y * w) % w == x
  {
    var i := x + y * w;
    var q, r := i / w, i % w;
    assert i == q * w + r && 0 <= r < w;
    assert (y + 1) * w == y * w + w && (q + 1) * w == q * w + w;
    if q > y {
      MulMonotone(y + 1, q, w);
    } else if q < y {
      MulMonotone(q + 1, y, w);
    }
  }

  /** Distinct cells have distinct flat indices. */
  lemma IndexInjective(w: nat, x1: nat, y1: nat, x2: nat, y2: nat)
    requires x1 < w && x2 < w
    requires x1 + y1 * w == x2 + y2 * w
    ensures x1 == x2 && y1 == y2
  {
    IndexSplit(w, x1, y1);
    IndexSplit(w, x2, y2);
  }

  /** Every slot of a width*height buffer is the flat index of one in-range cell. */
  lemma IndexCovers(w: nat, h: nat, i: nat)
    requires i < w * h
    ensures w > 0 && i % w < w && i / w < h && i == i % w + (i / w) * w
  {
    assert 0 * h == 0;
    assert h * w == w * h;
    if i / w >= h {
      MulMonotone(h, i / w, w);
    }
  }
}
