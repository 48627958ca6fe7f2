/** `transparent_rgba` of document_app_icon_windows.rs: transparency recovered from a black and a white rendering. */
module IconAlpha {
  type Byte = n: int | 0 <= n < 256

  function SaturatingSub(a: Byte, b: Byte): Byte {
    if a < b then 0 else a - b
  }

  function Max(a: Byte, b: Byte): Byte {
    if a < b then b else a
  }

  function Min(a: nat, b: nat): nat {
    if a < b then a else b
  }

  function AlphaOf(black: seq<Byte>, white: seq<Byte>): Byte
    requires |black| == 4 && |white| == 4
  {
    255 - Max(SaturatingSub(white[0], black[0]),
              Max(SaturatingSub(white[1], black[1]), SaturatingSub(white[2], black[2])))
  }

  /** The rounded quotient before it is clamped. */
  function Quotient(channel: Byte, alpha: Byte): nat
    requires alpha != 0
  {
    (channel * 255 + alpha / 2) / alpha
  }

  function Unpremultiply(channel: Byte, alpha: Byte): Byte {
    if alpha == 0 then 0 else Min(Quotient(channel, alpha), 255)
  }

  function RecoverPixel(black: seq<Byte>, white: seq<Byte>): seq<Byte>
    requires |black| == 4 && |white| == 4
  {
    var alpha := AlphaOf(black, white);
    [Unpremultiply(black[2], alpha), Unpremultiply(black[1], alpha), Unpremultiply(black[0], alpha), alpha]
  }

  /** Whole pixels of both renderings, pairwise; a trailing partial pixel is dropped. */
  function Recover(black: seq<Byte>, white: seq<Byte>): seq<Byte> {
    if |black| < 4 || |white| < 4 then []
    else RecoverPixel(black[..4], white[..4]) + Recover(black[4..], white[4..])
  }

  /** Premultiplying a colour again, with rounding. */
  function Premultiply(colour: Byte, alpha: Byte): (c: Byte)
    ensures c <= alpha
  {
    assert colour * alpha <= 255 * alpha by { Scale(colour, 255, alpha); }
    (colour * alpha + 127) / 255
  }

  lemma Scale(x: int, y: int, k: nat)
    requires x <= y
    ensures x * k <= y * k
  {
  }

  /** For a premultiplied channel the clamp is never needed, and premultiplying again gives the channel back. */
  lemma UnpremultiplyIsExact(channel: Byte, alpha: Byte)
    requires channel <= alpha
    ensures alpha != 0 ==> Quotient(channel, alpha) <= 255
    ensures Premultiply(Unpremultiply(channel, alpha), alpha) == channel
  {
    if alpha != 0 {
      var x := channel * 255 + alpha / 2;
      var q := x / alpha;
      DivBounds(x, alpha);
      if q > 255 {
        Scale(256, q, alpha);
      }
      assert q * alpha + 127 == 255 * channel + (q * alpha + 127 - 255 * channel);
      DivIs(q * alpha + 127, channel);
    }
  }

  lemma DivBounds(x: nat, d: nat)
    requires d > 0
    ensures (x / d) * d <= x < (x / d) * d + d
  {
    assert x == (x / d) * d + x % d;
  }

  lemma DivIs(x: int, c: int)
    requires 255 * c <= x < 255 * c + 255
    ensures x / 255 == c
  {
  }

  /** Unpremultiplying rounds to the nearest value, is full from the alpha on, and gives nothing for a clear pixel. */
  lemma UnpremultiplyIsNearest(channel: Byte, alpha: Byte)
    ensures alpha == 0 ==> Unpremultiply(channel, alpha) == 0
    ensures 0 < alpha <= channel ==> Unpremultiply(channel, alpha) == 255
    ensures channel <= alpha && 0 < alpha ==>
            var shown := Unpremultiply(channel, alpha) * alpha;
            2 * shown <= 510 * channel + alpha < 2 * shown + 2 * alpha
  {
    if alpha != 0 {
      var x := channel * 255 + alpha / 2;
      DivBounds(x, alpha);
      if alpha <= channel && x / alpha < 255 {
        Scale(x / alpha, 254, alpha);
      }
      if channel <= alpha {
        UnpremultiplyIsExact(channel, alpha);
      }
    }
  }

  /** How much lighter the white rendering is in channel `c`. */
  function Lighter(black: seq<Byte>, white: seq<Byte>, c: nat): int
    requires c < |black| && c < |white|
  {
    var w: int, b: int := white[c], black[c];
    w - b
  }

  /** The alpha is the greatest that explains the difference of the renderings in every colour channel. */
  lemma AlphaExactly(black: seq<Byte>, white: seq<Byte>)
    requires |black| == 4 && |white| == 4
    ensures forall c: nat | c < 3 :: Lighter(black, white, c) <= 255 - AlphaOf(black, white)
    ensures AlphaOf(black, white) == 255 ||
            exists c: nat :: c < 3 && Lighter(black, white, c) == 255 - AlphaOf(black, white)
  {
    var d := 255 - AlphaOf(black, white);
    assert d == 0 || Lighter(black, white, 0) == d || Lighter(black, white, 1) == d || Lighter(black, white, 2) == d;
  }

  // ---------- one pixel ----------

  /** The two renderings are one premultiplied pixel over black and over white. */
  predicate IsComposite(black: seq<Byte>, white: seq<Byte>, alpha: Byte)
    requires |black| == 4 && |white| == 4
  {
    forall c | 0 <= c < 3 :: black[c] <= alpha && white[c] == 255 - alpha + black[c]
  }

  /** The colour channels of a straight-alpha pixel drawn over black, in the renderings' channel order. */
  function OverBlack(rgba: seq<Byte>): seq<Byte>
    requires |rgba| == 4
  {
    [Premultiply(rgba[2], rgba[3]), Premultiply(rgba[1], rgba[3]), Premultiply(rgba[0], rgba[3])]
  }

  function OverWhite(rgba: seq<Byte>): seq<Byte>
    requires |rgba| == 4
  {
    [255 - rgba[3] + OverBlack(rgba)[0], 255 - rgba[3] + OverBlack(rgba)[1], 255 - rgba[3] + OverBlack(rgba)[2]]
  }

  lemma CompositeIsRecovered(black: seq<Byte>, white: seq<Byte>, alpha: Byte)
    requires |black| == 4 && |white| == 4 && IsComposite(black, white, alpha)
    ensures RecoverPixel(black, white)[3] == alpha
    ensures OverBlack(RecoverPixel(black, white)) == black[..3]
    ensures OverWhite(RecoverPixel(black, white)) == white[..3]
  {
    UnpremultiplyIsExact(black[0], alpha);
    UnpremultiplyIsExact(black[1], alpha);
    UnpremultiplyIsExact(black[2], alpha);
  }

  /** Drawing the recovered pixel again reproduces both renderings exactly when they come from one pixel. */
  lemma RecoveryIsExactIff(black: seq<Byte>, white: seq<Byte>)
    requires |black| == 4 && |white| == 4
    ensures OverBlack(RecoverPixel(black, white)) == black[..3] && OverWhite(RecoverPixel(black, white)) == white[..3]
            <==> exists alpha :: IsComposite(black, white, alpha)
  {
    var rgba := RecoverPixel(black, white);
    if alpha :| IsComposite(black, white, alpha) {
      CompositeIsRecovered(black, white, alpha);
    }
    if OverBlack(rgba) == black[..3] && OverWhite(rgba) == white[..3] {
      forall c | 0 <= c < 3 ensures black[c] <= rgba[3] && white[c] == 255 - rgba[3] + black[c] {
        assert black[c] == black[..3][c] == OverBlack(rgba)[c] && white[c] == white[..3][c] == OverWhite(rgba)[c];
      }
      assert IsComposite(black, white, rgba[3]);
    }
  }

  // ---------- images ----------

  /** Pixel `i` of an image of four-byte pixels. */
  function PixelAt(image: seq<Byte>, i: nat): seq<Byte>
    requires 4 * i + 4 <= |image|
  {
    image[4 * i..4 * i + 4]
  }

  lemma {:induction false} RecoverAt(black: seq<Byte>, white: seq<Byte>, i: nat)
    requires 4 * i + 4 <= |black| && 4 * i + 4 <= |white|
    ensures 4 * i + 4 <= |Recover(black, white)|
    ensures PixelAt(Recover(black, white), i) == RecoverPixel(PixelAt(black, i), PixelAt(white, i))
  {
    RecoverStep(black, white);
    if i > 0 {
      PixelOfTail(black, i);
      PixelOfTail(white, i);
      RecoverAt(black[4..], white[4..], i - 1);
      PixelOfTail(Recover(black, white), i);
    }
  }

  lemma PixelOfTail(image: seq<Byte>, i: nat)
    requires 0 < i && 4 * i + 4 <= |image|
    ensures PixelAt(image, i) == PixelAt(image[4..], i - 1)
  {
    var a, b := PixelAt(image, i), PixelAt(image[4..], i - 1);
    assert |a| == |b| == 4;
    assert forall k | 0 <= k < 4 :: a[k] == image[4 * i + k] && b[k] == image[4..][4 * i - 4 + k];
  }

  lemma RecoverStep(black: seq<Byte>, white: seq<Byte>)
    requires |black| >= 4 && |white| >= 4
    ensures |Recover(black, white)| >= 4
    ensures PixelAt(Recover(black, white), 0) == RecoverPixel(PixelAt(black, 0), PixelAt(white, 0))
    ensures Recover(black, white)[4..] == Recover(black[4..], white[4..])
  {
    var p := RecoverPixel(black[..4], white[..4]);
    assert |p| == 4 && Recover(black, white) == p + Recover(black[4..], white[4..]);
    assert PixelAt(black, 0) == black[..4] && PixelAt(white, 0) == white[..4];
  }

  lemma LessOnePixel(n: nat)
    requires n >= 4
    ensures (n - 4) / 4 == n / 4 - 1
  {
  }

  /** The recovered image has one pixel for every pair of whole pixels. */
  lemma {:induction false} RecoverLength(black: seq<Byte>, white: seq<Byte>)
    ensures |Recover(black, white)| == 4 * Min(|black| / 4, |white| / 4)
  {
    if |black| >= 4 && |white| >= 4 {
      RecoverLength(black[4..], white[4..]);
      assert |RecoverPixel(black[..4], white[..4])| == 4;
      LessOnePixel(|black|);
      LessOnePixel(|white|);
    }
  }

  /** In an image of any length, every composited pixel is recovered with its true alpha and redraws to itself. */
  lemma ImageIsRecovered(black: seq<Byte>, white: seq<Byte>, i: nat, alpha: Byte)
    requires 4 * i + 4 <= |black| && 4 * i + 4 <= |white|
    requires IsComposite(PixelAt(black, i), PixelAt(white, i), alpha)
    ensures |Recover(black, white)| == 4 * Min(|black| / 4, |white| / 4) && 4 * i + 4 <= |Recover(black, white)|
    ensures var rgba := PixelAt(Recover(black, white), i);
      rgba[3] == alpha && OverBlack(rgba) == PixelAt(black, i)[..3] && OverWhite(rgba) == PixelAt(white, i)[..3]
  {
    RecoverLength(black, white);
    RecoverAt(black, white, i);
    CompositeIsRecovered(PixelAt(black, i), PixelAt(white, i), alpha);
  }
}
