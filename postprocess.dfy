/**
 * PNG post-processing (lib/postprocess.ts): an optional pass that makes
 * near-white pixels transparent, followed by an optional downscale loop that
 * re-encodes the image until it fits a byte budget or the width schedule runs out.
 */
module Postprocess {
  import opened Wrappers
  import opened Codec

  /** Channel value at or above which all three channels make a pixel near-white (`TH`). */
  const TH: int := 248
  /** Width of the feathering band below `TH`, measured on the channel mean (`SOFT`). */
  const SOFT: int := 6
  /** `avg >= TH - SOFT` with `avg = (r + g + b) / 3` holds exactly when `r + g + b >= FeatherSum`. */
  const FeatherSum: int := 3 * (TH - SOFT)

  /** Width assumed when the metadata reports none (`meta.width ?? 1024`). */
  const DefaultWidth: nat := 1024
  /** Cap on the first width the downscale loop tries. */
  const MaxStartWidth: nat := 1400
  /** The loop stops once the width drops below this (`minWidth`). */
  const MinWidth: nat := 256

  function Min(a: int, b: int): int {
    if a <= b then a else b
  }

  function Clamp(x: real, lo: real, hi: real): real {
    if x < lo then lo else if x > hi then hi else x
  }

  // ---------------------------------------------------------------------------
  // The alpha pass
  // ---------------------------------------------------------------------------

  /** `r >= TH && g >= TH && b >= TH`; such a pixel is also past the feathering band. */
  predicate NearWhite(r: byte, g: byte, b: byte)
    ensures NearWhite(r, g, b) ==> ChannelSum(r, g, b) >= 3 * TH
  {
    r >= TH && g >= TH && b >= TH
  }

  /** `r + g + b`, three times the channel mean `avg`. */
  function ChannelSum(r: byte, g: byte, b: byte): int {
    r as int + g as int + b as int
  }

  /** The clamped feather value `max(0, min(255, ((TH - avg) / SOFT) * 255))` in exact arithmetic. */
  function FeatherExact(sum: int): real {
    Clamp(((TH as real - sum as real / 3.0) / SOFT as real) * 255.0, 0.0, 255.0)
  }

  /**
   * `Math.round` of the feather value for a pixel whose channels add up to `sum`.
   * With `k = 3 * TH - sum` the unclamped value is `k * 255 / (3 * SOFT)`, and
   * rounding half up is `floor((2 * 255 * k + 3 * SOFT) / (6 * SOFT))`.
   */
  function Feather(sum: int): (f: byte)
    ensures sum >= 3 * TH ==> f == 0
    ensures sum <= FeatherSum ==> f == 255
    ensures FeatherSum < sum < 3 * TH ==> 0 < f < 255
  {
    if sum >= 3 * TH then 0
    else if sum <= FeatherSum then 255
    else ((3 * TH - sum) * 510 + 3 * SOFT) / (6 * SOFT)
  }

  /** `Feather` is the exact feather value rounded to the nearest integer, halves rounded up. */
  lemma FeatherIsRounded(sum: int)
    ensures Feather(sum) as real - 0.5 <= FeatherExact(sum) < Feather(sum) as real + 0.5
  {
    var x := ((TH as real - sum as real / 3.0) / SOFT as real) * 255.0;
    var k := 3 * TH - sum;
    assert x == (k as real) * 255.0 / 18.0;
    if FeatherSum < sum < 3 * TH {
      var f := Feather(sum);
      assert f == (k * 510 + 18) / 36;
      assert 36 * f <= k * 510 + 18 < 36 * f + 36;
      assert 36.0 * (f as real) <= (k as real) * 510.0 + 18.0 < 36.0 * (f as real) + 36.0;
      assert 0.0 <= x <= 255.0;
    } else if sum >= 3 * TH {
      assert x <= 0.0;
    } else {
      assert x >= 255.0;
    }
  }

  /** The whiter a pixel (the larger `r + g + b`), the lower its feather value. */
  lemma FeatherNonIncreasing(s1: int, s2: int)
    requires s1 <= s2
    ensures Feather(s2) <= Feather(s1)
  {
    if FeatherSum < s1 <= s2 < 3 * TH {
      var n1, n2 := (3 * TH - s1) * 510 + 3 * SOFT, (3 * TH - s2) * 510 + 3 * SOFT;
      assert n2 <= n1;
      var q1, q2 := n1 / 36, n2 / 36;
      assert 36 * q2 <= n2 <= n1 < 36 * q1 + 36;
    }
  }

  /** The alpha one pixel ends with (lib/postprocess.ts:23-31). */
  function NewAlpha(r: byte, g: byte, b: byte, a: byte): (a': byte)
    ensures a' <= a
    ensures NearWhite(r, g, b) ==> a' == 0
    ensures !NearWhite(r, g, b) && ChannelSum(r, g, b) < FeatherSum ==> a' == a
    ensures !NearWhite(r, g, b) && ChannelSum(r, g, b) >= FeatherSum ==> a' <= Feather(ChannelSum(r, g, b))
  {
    if NearWhite(r, g, b) then 0
    else if ChannelSum(r, g, b) >= FeatherSum then Min(a, Feather(ChannelSum(r, g, b)))
    else a
  }

  /**
   * The buffer the alpha pass leaves: byte `4p + 3` of every complete pixel `p`
   * gets that pixel's new alpha and every other byte is kept.
   */
  function WhiteToAlpha(s: Bytes): (t: Bytes)
    ensures |t| == |s|
  {
    seq(|s|, i requires 0 <= i < |s| =>
      if i % 4 == 3 then NewAlpha(s[i - 3], s[i - 2], s[i - 1], s[i]) else s[i])
  }

  /** Only alpha bytes are written: the length and every R, G and B byte stay as they were. */
  lemma AlphaPassFrame(s: Bytes)
    ensures |WhiteToAlpha(s)| == |s|
    ensures forall i :: 0 <= i < |s| && i % 4 != 3 ==> WhiteToAlpha(s)[i] == s[i]
  {
  }

  /** No byte of the buffer increases. */
  lemma AlphaNeverRises(s: Bytes)
    ensures forall i :: 0 <= i < |s| ==> WhiteToAlpha(s)[i] <= s[i]
  {
  }

  /** A near-white pixel ends fully transparent. */
  lemma NearWhiteBecomesTransparent(s: Bytes, p: nat)
    requires 4 * p + 3 < |s|
    requires NearWhite(s[4 * p], s[4 * p + 1], s[4 * p + 2])
    ensures WhiteToAlpha(s)[4 * p + 3] == 0
  {
  }

  /** A pixel that is not near-white and whose mean is below `TH - SOFT` keeps its alpha. */
  lemma DarkPixelKeepsAlpha(s: Bytes, p: nat)
    requires 4 * p + 3 < |s|
    requires !NearWhite(s[4 * p], s[4 * p + 1], s[4 * p + 2])
    requires ChannelSum(s[4 * p], s[4 * p + 1], s[4 * p + 2]) < FeatherSum
    ensures WhiteToAlpha(s)[4 * p + 3] == s[4 * p + 3]
  {
  }

  /**
   * A feathered pixel gets the smaller of its old alpha and the feather value,
   * which lies in [0, 255]; a pixel with `r + g + b >= 3 * TH` is feathered to 0
   * even when one channel is below `TH`.
   */
  lemma FeatheredPixelAlpha(s: Bytes, p: nat)
    requires 4 * p + 3 < |s|
    requires !NearWhite(s[4 * p], s[4 * p + 1], s[4 * p + 2])
    requires ChannelSum(s[4 * p], s[4 * p + 1], s[4 * p + 2]) >= FeatherSum
    ensures WhiteToAlpha(s)[4 * p + 3] == Min(s[4 * p + 3], Feather(ChannelSum(s[4 * p], s[4 * p + 1], s[4 * p + 2])))
    ensures WhiteToAlpha(s)[4 * p + 3] <= s[4 * p + 3]
    ensures ChannelSum(s[4 * p], s[4 * p + 1], s[4 * p + 2]) >= 3 * TH ==> WhiteToAlpha(s)[4 * p + 3] == 0
  {
  }

  /** A pixel whose alpha was already recomputed gets the same alpha again. */
  lemma NewAlphaIdempotent(r: byte, g: byte, b: byte, a: byte)
    ensures NewAlpha(r, g, b, NewAlpha(r, g, b, a)) == NewAlpha(r, g, b, a)
  {
  }

  /** Running the pass on its own output changes nothing. */
  lemma AlphaPassIdempotent(s: Bytes)
    ensures WhiteToAlpha(WhiteToAlpha(s)) == WhiteToAlpha(s)
  {
    var t := WhiteToAlpha(s);
    var u := WhiteToAlpha(t);
    forall i | 0 <= i < |s|
      ensures u[i] == t[i]
    {
      var p := i / 4;
      var j := 4 * p;
      if j + 3 < |s| {
        PixelAfterPass(s, p);
        PixelAfterPass(t, p);
        NewAlphaIdempotent(s[j], s[j + 1], s[j + 2], s[j + 3]);
      } else {
        PartialPixelAfterPass(s, p);
        PartialPixelAfterPass(t, p);
      }
    }
    assert u == t;
  }

  /** Positions within pixel `p`. */
  lemma FourthsOfPixel(p: nat)
    ensures (4 * p) % 4 == 0 && (4 * p + 1) % 4 == 1 && (4 * p + 2) % 4 == 2 && (4 * p + 3) % 4 == 3
  {
  }

  /** The four bytes of the complete pixel starting at `i`, after the pass. */
  lemma PixelAfterPass(s: Bytes, p: nat)
    requires 4 * p + 3 < |s|
    ensures var i := 4 * p; WhiteToAlpha(s)[i] == s[i] && WhiteToAlpha(s)[i + 1] == s[i + 1] && WhiteToAlpha(s)[i + 2] == s[i + 2]
    ensures var i := 4 * p; WhiteToAlpha(s)[i + 3] == NewAlpha(s[i], s[i + 1], s[i + 2], s[i + 3])
  {
    FourthsOfPixel(p);
  }

  /** The bytes of a trailing partial pixel starting at `i` are left alone. */
  lemma PartialPixelAfterPass(s: Bytes, p: nat)
    requires 4 * p <= |s| < 4 * p + 4
    ensures forall k :: 4 * p <= k < |s| ==> WhiteToAlpha(s)[k] == s[k]
  {
    FourthsOfPixel(p);
  }

  /** `makeWhiteTransparent` as a value: decode, the alpha pass, palette re-encode. */
  function WhiteTransparentPng(c: ImageCodec, input: Bytes): (r: Result<Bytes, CodecError>)
    ensures r.Failure? <==> c.decodeRgba(input).None?
    ensures r.Failure? ==> r.error == DecodeFailed
  {
    match c.decodeRgba(input)
    case None => Failure(DecodeFailed)
    case Some(raw) => Success(c.encodePalette(RawImage(raw.width, raw.height, WhiteToAlpha(raw.data))))
  }

  /** With a well-behaved decoder the re-encoded buffer has the decoded geometry. */
  lemma WhiteTransparentKeepsGeometry(c: ImageCodec, input: Bytes)
    requires DecodesToRgba(c)
    requires c.decodeRgba(input).Some?
    ensures |WhiteToAlpha(c.decodeRgba(input).value.data)|
         == c.decodeRgba(input).value.width * c.decodeRgba(input).value.height * 4
  {
  }

  /**
   * lib/postprocess.ts:18-33: one pass over the buffer, four bytes at a time,
   * writing only the alpha byte of each pixel.
   */
  method ClearWhiteBackground(out: array<byte>)
    modifies out
    ensures out[..] == WhiteToAlpha(old(out[..]))
  {
    ghost var data := out[..];
    ghost var target := WhiteToAlpha(data);
    var i := 0;
    ghost var p := 0;
    while i < out.Length
      invariant i == 4 * p
      invariant forall k :: 0 <= k < i && k < out.Length ==> out[k] == target[k]
      invariant forall k :: i <= k < out.Length ==> out[k] == data[k]
      decreases out.Length - i
    {
      // A trailing partial pixel reads `undefined` channels in the source, and writes nothing.
      if i + 3 < out.Length {
        PixelAfterPass(data, p);
        var red, green, blue := out[i], out[i + 1], out[i + 2];
        // `alpha` is the byte at `i + 3` as the source leaves it: written in two branches, untouched in the third.
        var alpha := out[i + 3];
        if NearWhite(red, green, blue) {
          alpha := 0;
        } else {
          var sum := ChannelSum(red, green, blue);
          if sum >= FeatherSum {
            alpha := Min(alpha, Feather(sum));
          }
        }
        assert alpha == target[i + 3];
        out[i + 3] := alpha;
      } else {
        PartialPixelAfterPass(data, p);
      }
      i, p := i + 4, p + 1;
    }
    assert out[..] == target;
  }

  /**
   * lib/postprocess.ts:8-42: decode with alpha, copy the pixels into a fresh
   * buffer (`Buffer.from(data)`), clear the background in place, palette re-encode.
   */
  method MakeWhiteTransparent(c: ImageCodec, input: Bytes) returns (r: Result<Bytes, CodecError>)
    ensures r == WhiteTransparentPng(c, input)
  {
    var decoded := c.decodeRgba(input);
    if decoded.None? {
      return Failure(DecodeFailed);
    }
    var raw := decoded.value;
    var out := new byte[|raw.data|](k requires 0 <= k < |raw.data| => raw.data[k]);
    assert out[..] == raw.data;
    ClearWhiteBackground(out);
    return Success(c.encodePalette(RawImage(raw.width, raw.height, out[..])));
  }

  // ---------------------------------------------------------------------------
  // The downscale loop
  // ---------------------------------------------------------------------------

  /** `Math.floor(width * 0.85)`, which equals the integer quotient for every width up to 1400. */
  function NextWidth(w: nat): (n: nat)
    ensures 100 * n <= 85 * w < 100 * (n + 1)
    ensures w > 0 ==> n < w
  {
    w * 85 / 100
  }

  /** `Math.min(meta.width ?? 1024, 1400)` */
  function StartWidth(metaWidth: Option<nat>): (w: nat)
    ensures w <= MaxStartWidth && w <= metaWidth.GetOr(DefaultWidth)
    ensures w == MaxStartWidth || w == metaWidth.GetOr(DefaultWidth)
  {
    Min(metaWidth.GetOr(DefaultWidth), MaxStartWidth)
  }

  /** The widths the loop would try from `w` if no candidate ever fitted. */
  function Widths(w: nat): (ws: seq<nat>)
    ensures |ws| == 0 <==> w < MinWidth
    ensures |ws| > 0 ==> ws[0] == w
    decreases w
  {
    if w < MinWidth then [] else [w] + Widths(NextWidth(w))
  }

  /**
   * The schedule starts at `w` when `w >= 256` and is empty otherwise; each
   * width is the floor of 85% of the one before, strictly smaller, and in
   * [256, w]; the width after the last one is below 256.
   */
  lemma {:induction false} WidthsSchedule(w: nat)
    ensures |Widths(w)| > 0 <==> w >= MinWidth
    ensures |Widths(w)| > 0 ==> Widths(w)[0] == w && NextWidth(Widths(w)[|Widths(w)| - 1]) < MinWidth
    ensures forall i :: 0 <= i < |Widths(w)| ==> MinWidth <= Widths(w)[i] <= w
    ensures forall i :: 0 <= i < |Widths(w)| - 1 ==> Widths(w)[i + 1] == NextWidth(Widths(w)[i])
    ensures forall i, j :: 0 <= i < j < |Widths(w)| ==> Widths(w)[j] < Widths(w)[i]
    decreases w
  {
    if w >= MinWidth {
      WidthsSchedule(NextWidth(w));
      var rest := Widths(NextWidth(w));
      assert Widths(w) == [w] + rest;
      forall i, j | 0 <= i < j < |Widths(w)|
        ensures Widths(w)[j] < Widths(w)[i]
      {
        if i > 0 {
          assert Widths(w)[j] == rest[j - 1] && Widths(w)[i] == rest[i - 1];
        } else {
          assert Widths(w)[j] == rest[j - 1] <= NextWidth(w) < w;
        }
      }
    }
  }

  /** A narrower start never gives a longer schedule. */
  lemma {:induction false} WidthsMonotone(v: nat, w: nat)
    requires v <= w
    ensures |Widths(v)| <= |Widths(w)|
    decreases w
  {
    if v >= MinWidth {
      assert NextWidth(v) <= NextWidth(w);
      WidthsMonotone(NextWidth(v), NextWidth(w));
    }
  }

  /** From any start the loop can take, it runs at most eleven times (1400, 1190, ..., 273). */
  lemma WidthsAtMostEleven(w: nat)
    requires w <= MaxStartWidth
    ensures |Widths(w)| <= 11
  {
    WidthsMonotone(w, MaxStartWidth);
    assert NextWidth(1400) == 1190 && NextWidth(1190) == 1011 && NextWidth(1011) == 859;
    assert NextWidth(859) == 730 && NextWidth(730) == 620 && NextWidth(620) == 527;
    assert NextWidth(527) == 447 && NextWidth(447) == 379 && NextWidth(379) == 322;
    assert NextWidth(322) == 273 && NextWidth(273) == 232;
    assert Widths(232) == [];
    assert Widths(273) == [273] + Widths(232);
    assert Widths(322) == [322] + Widths(273);
    assert Widths(379) == [379] + Widths(322);
    assert Widths(447) == [447] + Widths(379);
    assert Widths(527) == [527] + Widths(447);
    assert Widths(620) == [620] + Widths(527);
    assert Widths(730) == [730] + Widths(620);
    assert Widths(859) == [859] + Widths(730);
    assert Widths(1011) == [1011] + Widths(859);
    assert Widths(1190) == [1190] + Widths(1011);
    assert Widths(1400) == [1400] + Widths(1190);
  }

  /** Every width the loop tries, from whatever the metadata reports, lies in [256, 1400]. */
  lemma TriedWidthsInRange(metaWidth: Option<nat>)
    ensures forall i :: 0 <= i < |Widths(StartWidth(metaWidth))| ==>
      MinWidth <= Widths(StartWidth(metaWidth))[i] <= MaxStartWidth
    ensures |Widths(StartWidth(metaWidth))| <= 11
  {
    WidthsSchedule(StartWidth(metaWidth));
    WidthsAtMostEleven(StartWidth(metaWidth));
  }

  /**
   * The candidates the loop produces from `buf` at width `w` under budget
   * `maxBytes`: each is a resize of the one before, and production stops after
   * the first that fits or when the width drops below 256.
   */
  function Candidates(c: ImageCodec, buf: Bytes, w: nat, maxBytes: real): (cs: seq<Bytes>)
    ensures |cs| == 0 <==> w < MinWidth
    ensures |cs| > 0 ==> cs[0] == c.resizePalette(buf, w)
    decreases w
  {
    if w < MinWidth then []
    else
      var candidate := c.resizePalette(buf, w);
      if |candidate| as real <= maxBytes then [candidate]
      else [candidate] + Candidates(c, candidate, NextWidth(w), maxBytes)
  }

  /** One unfolding of `Candidates` at a width the loop accepts. */
  lemma CandidatesStep(c: ImageCodec, buf: Bytes, w: nat, maxBytes: real)
    requires w >= MinWidth
    ensures Candidates(c, buf, w, maxBytes) ==
      if |c.resizePalette(buf, w)| as real <= maxBytes then [c.resizePalette(buf, w)]
      else [c.resizePalette(buf, w)] + Candidates(c, c.resizePalette(buf, w), NextWidth(w), maxBytes)
  {
  }

  /** What the loop leaves in `buf`: the last candidate, or `buf` itself when there was none. */
  function Shrink(c: ImageCodec, buf: Bytes, w: nat, maxBytes: real): (r: Bytes)
    ensures w < MinWidth ==> r == buf
    ensures w >= MinWidth ==> r in Candidates(c, buf, w, maxBytes)
  {
    var cs := Candidates(c, buf, w, maxBytes);
    if |cs| == 0 then buf else cs[|cs| - 1]
  }

  /**
   * Candidate `i` is the resize of candidate `i - 1` (of `buf` for `i = 0`) to
   * schedule width `i`; every candidate but the last is over budget; and the
   * last one fits unless the whole schedule was used.
   */
  lemma {:induction false} CandidatesFollowSchedule(c: ImageCodec, buf: Bytes, w: nat, maxBytes: real)
    ensures |Candidates(c, buf, w, maxBytes)| <= |Widths(w)|
    ensures |Candidates(c, buf, w, maxBytes)| == 0 <==> w < MinWidth
    ensures |Candidates(c, buf, w, maxBytes)| > 0 ==>
      Candidates(c, buf, w, maxBytes)[0] == c.resizePalette(buf, Widths(w)[0])
    ensures forall i :: 0 < i < |Candidates(c, buf, w, maxBytes)| ==>
      Candidates(c, buf, w, maxBytes)[i] == c.resizePalette(Candidates(c, buf, w, maxBytes)[i - 1], Widths(w)[i])
    ensures forall i :: 0 <= i < |Candidates(c, buf, w, maxBytes)| - 1 ==>
      |Candidates(c, buf, w, maxBytes)[i]| as real > maxBytes
    ensures |Candidates(c, buf, w, maxBytes)| > 0 ==>
      || |Candidates(c, buf, w, maxBytes)[|Candidates(c, buf, w, maxBytes)| - 1]| as real <= maxBytes
      || |Candidates(c, buf, w, maxBytes)| == |Widths(w)|
    decreases w
  {
    if w >= MinWidth {
      var candidate := c.resizePalette(buf, w);
      if |candidate| as real > maxBytes {
        CandidatesFollowSchedule(c, candidate, NextWidth(w), maxBytes);
        var cs, rest := Candidates(c, buf, w, maxBytes), Candidates(c, candidate, NextWidth(w), maxBytes);
        assert cs == [candidate] + rest;
        assert Widths(w) == [w] + Widths(NextWidth(w));
        forall i | 0 < i < |cs|
          ensures cs[i] == c.resizePalette(cs[i - 1], Widths(w)[i])
        {
          if i > 1 {
            assert cs[i] == rest[i - 1] && cs[i - 1] == rest[i - 2];
          }
        }
      }
    }
  }

  /**
   * The loop's result is the first candidate within budget; failing that it is
   * the last candidate, produced only after every width of the schedule was
   * tried; with no candidate at all it is `buf` unchanged.
   */
  lemma ShrinkOutcome(c: ImageCodec, buf: Bytes, w: nat, maxBytes: real)
    ensures w < MinWidth ==> Shrink(c, buf, w, maxBytes) == buf
    ensures forall i :: 0 <= i < |Candidates(c, buf, w, maxBytes)| && |Candidates(c, buf, w, maxBytes)[i]| as real <= maxBytes ==>
      Shrink(c, buf, w, maxBytes) == Candidates(c, buf, w, maxBytes)[i]
    ensures |Shrink(c, buf, w, maxBytes)| as real <= maxBytes
         || |Candidates(c, buf, w, maxBytes)| == |Widths(w)|
  {
    CandidatesFollowSchedule(c, buf, w, maxBytes);
  }

  /**
   * With a codec that never enlarges, each candidate is no wider than its
   * schedule width and no wider than the image it was resized from.
   */
  lemma CandidatesNeverEnlarge(c: ImageCodec, buf: Bytes, w: nat, maxBytes: real)
    requires ResizeNeverEnlarges(c)
    ensures |Candidates(c, buf, w, maxBytes)| <= |Widths(w)|
    ensures forall i :: 0 <= i < |Candidates(c, buf, w, maxBytes)| ==>
      && WidthOf(c, Candidates(c, buf, w, maxBytes)[i]).Some?
      && WidthOf(c, Candidates(c, buf, w, maxBytes)[i]).value <= Widths(w)[i]
    ensures forall i :: 0 < i < |Candidates(c, buf, w, maxBytes)| ==>
      WidthOf(c, Candidates(c, buf, w, maxBytes)[i]).value <= WidthOf(c, Candidates(c, buf, w, maxBytes)[i - 1]).value
    ensures |Candidates(c, buf, w, maxBytes)| > 0 && WidthOf(c, buf).Some? ==>
      WidthOf(c, Candidates(c, buf, w, maxBytes)[0]).value <= WidthOf(c, buf).value
  {
    CandidatesFollowSchedule(c, buf, w, maxBytes);
    var cs := Candidates(c, buf, w, maxBytes);
    forall i | 0 <= i < |cs|
      ensures WidthOf(c, cs[i]).Some? && WidthOf(c, cs[i]).value <= Widths(w)[i]
      ensures i > 0 ==> WidthOf(c, cs[i - 1]).Some? && WidthOf(c, cs[i]).value <= WidthOf(c, cs[i - 1]).value
    {
      var source := if i == 0 then buf else cs[i - 1];
      assert cs[i] == c.resizePalette(source, Widths(w)[i]);
      if i > 0 {
        var j := i - 1;
        var src := if j == 0 then buf else cs[j - 1];
        assert cs[j] == c.resizePalette(src, Widths(w)[j]);
      }
    }
  }

  // ---------------------------------------------------------------------------
  // The whole step
  // ---------------------------------------------------------------------------

  /** `PostOpts`; an undefined (or NaN) `maxBytes` is `None`, an undefined `transparentBg` is false. */
  datatype PostOpts = PostOpts(maxBytes: Option<real>, transparentBg: bool)

  /** `opts.maxBytes && buf.length > opts.maxBytes`: a budget is set, non-zero and exceeded. */
  predicate OverBudget(buf: Bytes, maxBytes: Option<real>)
    ensures OverBudget(buf, maxBytes) ==> maxBytes.Some? && |buf| as real > maxBytes.value
    ensures maxBytes.Some? && maxBytes.value > 0.0 ==> (OverBudget(buf, maxBytes) <==> |buf| as real > maxBytes.value)
    ensures maxBytes.Some? && maxBytes.value < 0.0 ==> OverBudget(buf, maxBytes)
  {
    maxBytes.Some? && maxBytes.value != 0.0 && |buf| as real > maxBytes.value
  }

  /** The buffer after the optional background pass. */
  function BackgroundStage(c: ImageCodec, input: Bytes, opts: PostOpts): (r: Result<Bytes, CodecError>)
    ensures !opts.transparentBg ==> r == Success(input)
    ensures r.Failure? ==> opts.transparentBg && r.error == DecodeFailed
  {
    if opts.transparentBg then WhiteTransparentPng(c, input) else Success(input)
  }

  /** `postprocessPng` as a value. */
  function PostprocessSpec(c: ImageCodec, input: Bytes, opts: PostOpts): (r: Result<Bytes, CodecError>)
    ensures r.Failure? && r.error == DecodeFailed ==> opts.transparentBg
    ensures r.Failure? && r.error == MetadataFailed ==> BackgroundStage(c, input, opts).Success? && OverBudget(BackgroundStage(c, input, opts).value, opts.maxBytes)
    ensures r.Success? && BackgroundStage(c, input, opts).Success? && !OverBudget(BackgroundStage(c, input, opts).value, opts.maxBytes)
         ==> r.value == BackgroundStage(c, input, opts).value
  {
    match BackgroundStage(c, input, opts)
    case Failure(e) => Failure(e)
    case Success(buf) =>
      if !OverBudget(buf, opts.maxBytes) then Success(buf)
      else match c.metadata(buf)
        case None => Failure(MetadataFailed)
        case Some(meta) => Success(Shrink(c, buf, StartWidth(meta.width), opts.maxBytes.value))
  }

  /**
   * lib/postprocess.ts:59-74: resize the previous candidate at each width of
   * the schedule until a candidate fits `maxBytes` or the width drops below 256.
   */
  method DownscaleLoop(c: ImageCodec, start: Bytes, w0: nat, maxBytes: real) returns (buf: Bytes)
    ensures buf == Shrink(c, start, w0, maxBytes)
  {
    buf := start;
    var width: nat := w0;
    ghost var produced: seq<Bytes> := [];
    while width >= MinWidth
      invariant Candidates(c, start, w0, maxBytes) == produced + Candidates(c, buf, width, maxBytes)
      invariant buf == if produced == [] then start else produced[|produced| - 1]
      decreases width
    {
      var candidate := c.resizePalette(buf, width);
      CandidatesAdvance(c, start, w0, maxBytes, produced, buf, width);
      produced := produced + [candidate];
      buf := candidate;
      if |candidate| as real <= maxBytes {
        break;
      }
      width := NextWidth(width);
    }
    if width < MinWidth {
      CandidatesExhausted(c, start, w0, maxBytes, produced, buf, width);
    }
  }

  /**
   * One round of the loop: the candidate made at `width` is the next element of
   * `Candidates`, and when it fits it is the last one.
   */
  lemma CandidatesAdvance(c: ImageCodec, start: Bytes, w0: nat, maxBytes: real,
                          produced: seq<Bytes>, buf: Bytes, width: nat)
    requires width >= MinWidth
    requires Candidates(c, start, w0, maxBytes) == produced + Candidates(c, buf, width, maxBytes)
    ensures |c.resizePalette(buf, width)| as real <= maxBytes ==>
      Candidates(c, start, w0, maxBytes) == produced + [c.resizePalette(buf, width)]
    ensures |c.resizePalette(buf, width)| as real > maxBytes ==>
      Candidates(c, start, w0, maxBytes)
        == (produced + [c.resizePalette(buf, width)])
           + Candidates(c, c.resizePalette(buf, width), NextWidth(width), maxBytes)
  {
    CandidatesStep(c, buf, width, maxBytes);
    var candidate := c.resizePalette(buf, width);
    if |candidate| as real > maxBytes {
      assert produced + ([candidate] + Candidates(c, candidate, NextWidth(width), maxBytes))
          == (produced + [candidate]) + Candidates(c, candidate, NextWidth(width), maxBytes);
    }
  }

  /** Once the width is below 256 the loop has produced every candidate. */
  lemma CandidatesExhausted(c: ImageCodec, start: Bytes, w0: nat, maxBytes: real,
                            produced: seq<Bytes>, buf: Bytes, width: nat)
    requires width < MinWidth
    requires Candidates(c, start, w0, maxBytes) == produced + Candidates(c, buf, width, maxBytes)
    ensures Candidates(c, start, w0, maxBytes) == produced
  {
    assert Candidates(c, buf, width, maxBytes) == [];
    assert produced + [] == produced;
  }

  /** lib/postprocess.ts:44-78 */
  method PostprocessPng(c: ImageCodec, input: Bytes, opts: PostOpts) returns (r: Result<Bytes, CodecError>)
    ensures r == PostprocessSpec(c, input, opts)
  {
    var buf := input;
    if opts.transparentBg {
      var cleared := MakeWhiteTransparent(c, buf);
      if cleared.Failure? {
        return cleared;
      }
      buf := cleared.value;
    }
    if OverBudget(buf, opts.maxBytes) {
      var meta := c.metadata(buf);
      if meta.None? {
        return Failure(MetadataFailed);
      }
      buf := DownscaleLoop(c, buf, StartWidth(meta.value.width), opts.maxBytes.value);
    }
    return Success(buf);
  }

  /**
   * Pass-through: without the background pass and with no budget, a zero
   * budget or a buffer already within budget, the input comes back as it was.
   */
  lemma PassThrough(c: ImageCodec, input: Bytes, opts: PostOpts)
    requires !opts.transparentBg
    requires opts.maxBytes.None? || opts.maxBytes.value == 0.0 || |input| as real <= opts.maxBytes.value
    ensures PostprocessSpec(c, input, opts) == Success(input)
  {
  }

  /**
   * When the budget is exceeded and the start width is already below 256, no
   * candidate is made and the over-budget buffer is returned.
   */
  lemma NarrowImageReturnedOverBudget(c: ImageCodec, input: Bytes, opts: PostOpts)
    requires BackgroundStage(c, input, opts).Success?
    requires OverBudget(BackgroundStage(c, input, opts).value, opts.maxBytes)
    requires c.metadata(BackgroundStage(c, input, opts).value).Some?
    requires StartWidth(c.metadata(BackgroundStage(c, input, opts).value).value.width) < MinWidth
    ensures PostprocessSpec(c, input, opts) == BackgroundStage(c, input, opts)
  {
  }

  /**
   * A successful result either is within a set budget, or comes from a loop
   * that tried every width of its schedule, or the budget was not exceeded in
   * the first place and the buffer after the background pass is returned.
   */
  lemma BudgetMetOrScheduleExhausted(c: ImageCodec, input: Bytes, opts: PostOpts)
    requires PostprocessSpec(c, input, opts).Success?
    ensures var out := PostprocessSpec(c, input, opts).value;
      var buf := BackgroundStage(c, input, opts).value;
      || (!OverBudget(buf, opts.maxBytes) && out == buf)
      || (opts.maxBytes.Some? && |out| as real <= opts.maxBytes.value)
      || (c.metadata(buf).Some? &&
          |Candidates(c, buf, StartWidth(c.metadata(buf).value.width), opts.maxBytes.value)|
            == |Widths(StartWidth(c.metadata(buf).value.width))|)
  {
    var buf := BackgroundStage(c, input, opts).value;
    if OverBudget(buf, opts.maxBytes) {
      ShrinkOutcome(c, buf, StartWidth(c.metadata(buf).value.width), opts.maxBytes.value);
    }
  }

  /**
   * With a codec that never enlarges, a downscaled result is no wider than the
   * buffer the loop started from, when that buffer reports a width.
   */
  lemma ResultNeverEnlarged(c: ImageCodec, input: Bytes, opts: PostOpts)
    requires ResizeNeverEnlarges(c)
    requires PostprocessSpec(c, input, opts).Success?
    requires BackgroundStage(c, input, opts).Success?
    requires WidthOf(c, BackgroundStage(c, input, opts).value).Some?
    ensures WidthOf(c, PostprocessSpec(c, input, opts).value).Some?
    ensures WidthOf(c, PostprocessSpec(c, input, opts).value).value
         <= WidthOf(c, BackgroundStage(c, input, opts).value).value
  {
    var buf := BackgroundStage(c, input, opts).value;
    if OverBudget(buf, opts.maxBytes) {
      ShrinkNeverEnlarges(c, buf, StartWidth(c.metadata(buf).value.width), opts.maxBytes.value);
    }
  }

  /** With a non-enlarging resize the loop's result is never wider than its start. */
  lemma ShrinkNeverEnlarges(c: ImageCodec, buf: Bytes, w0: nat, m: real)
    requires ResizeNeverEnlarges(c)
    requires WidthOf(c, buf).Some?
    ensures WidthOf(c, Shrink(c, buf, w0, m)).Some?
    ensures WidthOf(c, Shrink(c, buf, w0, m)).value <= WidthOf(c, buf).value
  {
    CandidatesNeverEnlarge(c, buf, w0, m);
    var cs := Candidates(c, buf, w0, m);
    var n := |cs|;
    if n > 0 {
      var i := 0;
      while i < n - 1
        invariant 0 <= i <= n - 1
        invariant WidthOf(c, cs[i]).value <= WidthOf(c, buf).value
      {
        i := i + 1;
      }
    }
  }
}
