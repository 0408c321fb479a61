/** Rectangles of the linear framebuffer: filling, and copying between overlapping areas. */
module Framebuffer {
  import opened Bytes

  /** Row `r`, column `x` of a buffer with `p` pixels to the row. */
  function At(p: nat, r: nat, x: nat): nat {
    r * p + x
  }

  /** Rows and columns can be told from the index. */
  lemma RowColumn(p: nat, r: nat, x: nat)
    requires x < p
    ensures At(p, r, x) / p == r && At(p, r, x) % p == x
  {
    var i := At(p, r, x);
    var q, m := i / p, i % p;
    assert q * p + m == r * p + x;
    assert (q - r) * p == x - m && (r - q) * p == m - x;
    if q > r {
      Times(q - r, p);
    } else if q < r {
      Times(r - q, p);
    }
  }

  lemma Times(k: nat, p: nat)
    requires k >= 1
    ensures k * p >= p
  {
  }

  lemma RowOrder(p: nat, r: nat, s: nat)
    requires r <= s
    ensures r * p <= s * p
  {
  }

  /** A rectangle: its left column, top row, width and height. */
  datatype Rect = Rect(x: nat, y: nat, w: nat, h: nat)

  predicate Inside(p: nat, j: nat, rect: Rect)
    requires p > 0
  {
    rect.y <= j / p < rect.y + rect.h && rect.x <= j % p < rect.x + rect.w
  }

  /** Row `r` of a rectangle is one run of the buffer. */
  lemma RowRun(p: nat, j: nat, r: nat, x: nat, w: nat)
    requires p > 0 && x + w <= p
    ensures At(p, r, x) <= j < At(p, r, x) + w <==> j / p == r && x <= j % p < x + w
  {
    if At(p, r, x) <= j < At(p, r, x) + w {
      RowColumn(p, r, x + (j - At(p, r, x)));
    }
    if j / p == r && x <= j % p < x + w {
      assert j == r * p + j % p;
    }
  }

  class Screen {
    var initialized: bool
    const width: nat
    const height: nat
    const pixelsPerRow: nat
    const pixels: array<u32>

    /** The rows fit one below the other in the memory that was mapped. */
    predicate Valid()
    {
      width <= pixelsPerRow && 0 < pixelsPerRow && height * pixelsPerRow <= pixels.Length
    }

    constructor (pixels: array<u32>, width: nat, height: nat, pixelsPerRow: nat)
      requires width <= pixelsPerRow && 0 < pixelsPerRow && height * pixelsPerRow <= pixels.Length
      ensures Valid() && initialized && this.pixels == pixels
      ensures this.width == width && this.height == height && this.pixelsPerRow == pixelsPerRow
    {
      this.pixels, this.initialized := pixels, true;
      this.width, this.height, this.pixelsPerRow := width, height, pixelsPerRow;
    }

    lemma RowFits(r: nat, x: nat, w: nat)
      requires Valid() && r < height && x + w <= width
      ensures At(pixelsPerRow, r, x) + w <= pixels.Length
    {
      RowOrder(pixelsPerRow, r + 1, height);
      assert (r + 1) * pixelsPerRow == r * pixelsPerRow + pixelsPerRow;
    }

    /** Moves `n` pixels from `src` to `dst`, as if through a buffer of their own. */
    method MoveRow(src: nat, dst: nat, n: nat)
      requires src + n <= pixels.Length && dst + n <= pixels.Length
      modifies pixels
      ensures forall j {:trigger pixels[j]} :: 0 <= j < pixels.Length ==>
                pixels[j] == old(if dst <= j < dst + n then pixels[src + (j - dst)] else pixels[j])
    {
      forall j | dst <= j < dst + n {
        pixels[j] := pixels[src + (j - dst)];
      }
    }

    /** Whether both rectangles lie on the screen. */
    predicate OnScreen(srcX: nat, srcY: nat, dstX: nat, dstY: nat, w: nat, h: nat) {
      srcX + w <= width && srcY + h <= height && dstX + w <= width && dstY + h <= height
    }

    /** How far a pixel of the destination is from its source. */
    function Shift(srcX: nat, srcY: nat, dstX: nat, dstY: nat): int {
      At(pixelsPerRow, srcY, srcX) - At(pixelsPerRow, dstY, dstX)
    }

    /** The source of a destination pixel is on the buffer, in the row that belongs to its own. */
    lemma SourceOf(srcX: nat, srcY: nat, dstX: nat, dstY: nat, w: nat, h: nat, j: nat)
      requires Valid() && OnScreen(srcX, srcY, dstX, dstY, w, h)
      requires Inside(pixelsPerRow, j, Rect(dstX, dstY, w, h))
      ensures var s := j + Shift(srcX, srcY, dstX, dstY);
              && 0 <= s < pixels.Length
              && s == At(pixelsPerRow, srcY + (j / pixelsPerRow - dstY), srcX + (j % pixelsPerRow - dstX))
    {
      var p, r, x := pixelsPerRow, j / pixelsPerRow, j % pixelsPerRow;
      assert j == r * p + x;
      assert (srcY + (r - dstY)) * p == srcY * p + r * p - dstY * p;
      RowFits(srcY + (r - dstY), srcX + (x - dstX), 1);
    }

    /** The pixels after copying: the destination shows the source as it was before, everything else is as before. */
    ghost predicate Copied(before: seq<u32>, after: seq<u32>, srcX: nat, srcY: nat, dstX: nat, dstY: nat, w: nat,
                           top: nat, bottom: nat)
      requires Valid() && OnScreen(srcX, srcY, dstX, dstY, w, bottom) && top <= bottom
        && |before| == |after| == pixels.Length
    {
      forall j: nat {:trigger after[j]} :: j < |after| ==>
        if Inside(pixelsPerRow, j, Rect(dstX, dstY + top, w, bottom - top)) then
          (SourceOf(srcX, srcY, dstX, dstY, w, bottom, j); after[j] == before[j + Shift(srcX, srcY, dstX, dstY)])
        else after[j] == before[j]
    }

    /** One more row, whose source has not been overwritten yet. */
    lemma RowCopied(before: seq<u32>, mid: seq<u32>, after: seq<u32>, srcX: nat, srcY: nat, dstX: nat, dstY: nat,
                    w: nat, top: nat, bottom: nat, y: nat)
      requires Valid() && OnScreen(srcX, srcY, dstX, dstY, w, bottom) && OnScreen(srcX, srcY, dstX, dstY, w, y + 1)
      requires top <= bottom && |before| == |mid| == |after| == pixels.Length
      requires Copied(before, mid, srcX, srcY, dstX, dstY, w, top, bottom)
      requires (y == bottom && dstY <= srcY) || (y == top - 1 && dstY >= srcY)
      requires At(pixelsPerRow, srcY + y, srcX) + w <= pixels.Length
      requires forall j: nat {:trigger after[j]} :: j < |after| ==>
                 var dst := At(pixelsPerRow, dstY + y, dstX);
                 after[j] == if dst <= j < dst + w then mid[At(pixelsPerRow, srcY + y, srcX) + (j - dst)] else mid[j]
      ensures Copied(before, after, srcX, srcY, dstX, dstY, w,
                     if y < top then y else top, if y < top then bottom else y + 1)
    {
      var p := pixelsPerRow;
      var src, dst := At(p, srcY + y, srcX), At(p, dstY + y, dstX);
      assert (srcY + y) * p == srcY * p + y * p && (dstY + y) * p == dstY * p + y * p;
      assert src - dst == Shift(srcX, srcY, dstX, dstY);
      var newTop, newBottom := if y < top then y else top, if y < top then bottom else y + 1;
      forall j: nat {:trigger after[j]} | j < |after|
        ensures if Inside(p, j, Rect(dstX, dstY + newTop, w, newBottom - newTop)) then
                  (SourceOf(srcX, srcY, dstX, dstY, w, newBottom, j);
                   after[j] == before[j + Shift(srcX, srcY, dstX, dstY)])
                else after[j] == before[j]
      {
        RowRun(p, j, dstY + y, dstX, w);
        if dst <= j < dst + w {
          var s := src + (j - dst);
          RowRun(p, s, srcY + y, srcX, w);
          assert !Inside(p, s, Rect(dstX, dstY + top, w, bottom - top));
          assert mid[s] == before[s];
        } else {
          assert after[j] == mid[j];
        }
      }
    }

    lemma NothingCopied(before: seq<u32>, srcX: nat, srcY: nat, dstX: nat, dstY: nat, w: nat, at: nat)
      requires Valid() && OnScreen(srcX, srcY, dstX, dstY, w, at) && |before| == pixels.Length
      ensures Copied(before, before, srcX, srcY, dstX, dstY, w, at, at)
    {
    }

    /** Copies row `y` of the rectangle, next to the rows copied so far. */
    method CopyRow(srcX: nat, srcY: nat, dstX: nat, dstY: nat, w: nat, ghost top: nat, ghost bottom: nat, y: nat,
                   ghost before: seq<u32>)
      requires Valid()
      requires OnScreen(srcX, srcY, dstX, dstY, w, bottom) && OnScreen(srcX, srcY, dstX, dstY, w, y + 1)
      requires top <= bottom && |before| == pixels.Length
        && Copied(before, pixels[..], srcX, srcY, dstX, dstY, w, top, bottom)
      requires (y == bottom && dstY <= srcY) || (y == top - 1 && dstY >= srcY)
      modifies pixels
      ensures Copied(before, pixels[..], srcX, srcY, dstX, dstY, w,
                     if y < top then y else top, if y < top then bottom else y + 1)
    {
      hide Copied, At;
      ghost var mid := pixels[..];
      RowFits(srcY + y, srcX, w);
      RowFits(dstY + y, dstX, w);
      var srcRow, dstRow := At(pixelsPerRow, srcY + y, srcX), At(pixelsPerRow, dstY + y, dstX);
      MoveRow(srcRow, dstRow, w);
      RowCopied(before, mid, pixels[..], srcX, srcY, dstX, dstY, w, top, bottom, y);
    }

    /**
     Copies a rectangle, row by row: downwards when the destination is above its source, upwards
     when it is below.
     */
    method CopyRect(srcX: nat, srcY: nat, dstX: nat, dstY: nat, w: nat, h: nat)
      requires Valid()
      modifies pixels
      ensures var inside := srcX + w <= width && dstX + w <= width && srcY + h <= height && dstY + h <= height;
              if initialized && inside then Copied(old(pixels[..]), pixels[..], srcX, srcY, dstX, dstY, w, 0, h)
              else pixels[..] == old(pixels[..])
    {
      if !initialized || w == 0 || h == 0 {
        return;
      }
      if srcX + w > width || srcY + h > height {
        return;
      }
      if dstX + w > width || dstY + h > height {
        return;
      }
      hide Copied, At;
      ghost var before := pixels[..];
      if dstY < srcY || (dstY == srcY && dstX <= srcX) {
        NothingCopied(before, srcX, srcY, dstX, dstY, w, 0);
        for y := 0 to h
          invariant Copied(before, pixels[..], srcX, srcY, dstX, dstY, w, 0, y)
        {
          CopyRow(srcX, srcY, dstX, dstY, w, 0, y, y, before);
        }
      } else {
        NothingCopied(before, srcX, srcY, dstX, dstY, w, h);
        for y := h downto 0
          invariant Copied(before, pixels[..], srcX, srcY, dstX, dstY, w, y, h)
        {
          CopyRow(srcX, srcY, dstX, dstY, w, y + 1, h, y, before);
        }
      }
    }

    predicate Within(x: nat, y: nat) {
      x < width && y < height
    }

    /** The color at a place of the screen; black off it. */
    function Pixel(x: nat, y: nat): u32
      requires Valid()
      reads this, pixels
    {
      if !initialized || !Within(x, y) then 0
      else
        RowFits(y, x, 1);
        pixels[At(pixelsPerRow, y, x)]
    }

    /** Seen as pixels: the destination shows what the source showed, and nothing else on the screen changes. */
    twostate lemma CopiedPixels(srcX: nat, srcY: nat, dstX: nat, dstY: nat, w: nat, h: nat, x: nat, y: nat)
      requires Valid() && old(initialized) && initialized && OnScreen(srcX, srcY, dstX, dstY, w, h)
      requires Copied(old(pixels[..]), pixels[..], srcX, srcY, dstX, dstY, w, 0, h) && Within(x, y)
      ensures Pixel(x, y) == if dstX <= x < dstX + w && dstY <= y < dstY + h then
        old(Pixel(srcX + (x - dstX), srcY + (y - dstY)))
                             else old(Pixel(x, y))
    {
      var j := At(pixelsPerRow, y, x);
      RowFits(y, x, 1);
      RowColumn(pixelsPerRow, y, x);
      assert pixels[..][j] == pixels[j];
      if Inside(pixelsPerRow, j, Rect(dstX, dstY, w, h)) {
        SourceOf(srcX, srcY, dstX, dstY, w, h, j);
      }
    }

    /** Fills what of the rectangle lies on the screen. */
    method FillRect(left: nat, top: nat, right: nat, bottom: nat, color: u32)
      requires Valid()
      modifies pixels
      ensures forall j: nat {:trigger pixels[j]} :: j < pixels.Length ==>
                var y, x := j / pixelsPerRow, j % pixelsPerRow;
                pixels[j] == if initialized && top <= y < Min(bottom, height) && left <= x < Min(right, width)
                             then color else old(pixels[j])
    {
      if !initialized {
        return;
      }
      var l, r, t, b := Min(left, width), Min(right, width), Min(top, height), Min(bottom, height);
      if l >= r || t >= b {
        return;
      }
      for y := t to b
        invariant forall j: nat {:trigger pixels[j]} :: j < pixels.Length ==>
                    pixels[j] == if t <= j / pixelsPerRow < y && l <= j % pixelsPerRow < r then color
                      else old(pixels[j])
      {
        FillRow(y, l, r, color);
      }
    }

    method FillRow(y: nat, l: nat, r: nat, color: u32)
      requires Valid() && y < height && l < r <= width
      modifies pixels
      ensures forall j: nat {:trigger pixels[j]} :: j < pixels.Length ==>
                pixels[j] == if j / pixelsPerRow == y && l <= j % pixelsPerRow < r then color else old(pixels[j])
    {
      RowFits(y, l, r - l);
      var rowStart := At(pixelsPerRow, y, l);
      for x := 0 to r - l
        invariant forall j: nat {:trigger pixels[j]} :: j < pixels.Length ==>
                    pixels[j] == if rowStart <= j < rowStart + x then color else old(pixels[j])
      {
        pixels[rowStart + x] := color;
      }
      forall j: nat {:trigger pixels[j]} | j < pixels.Length
        ensures pixels[j] == if j / pixelsPerRow == y && l <= j % pixelsPerRow < r then color else old(pixels[j])
      {
        RowRun(pixelsPerRow, j, y, l, r - l);
      }
    }
  }
}
