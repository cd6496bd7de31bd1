/** The gauge renderer `row` of scaling.py: a bracketed bar of fill and
    blank glyphs whose width is the capacity, or the scale when the
    capacity is larger. */
module Scaling {
  import opened PyText
  import opened PyNum
  import opened PyCollections

  /** An argument of `row`: callers pass Python ints or strings, and `row`
      converts each with `int(...)`. */
  datatype Quantity = Int(n: int) | Text(s: string)

  /** `int(q)`: an int stays as it is, a string is parsed. */
  function AsInt(q: Quantity): Option<int>
  {
    match q
    case Int(n) => Some(n)
    case Text(s) => ParseInt(s)
  }

  const NotNumeric := "numeric quantities are required"
  const ZeroLength := "Cannot use zero length delimiters"
  const Negative := "quantities must be non-negative"

  /** The default scale of `row`. */
  const DefaultScale := 80

  /** How many fill glyphs `row` draws for a valid call: `used` clamped to
      `max_avail`, then rescaled with Python's `round` when the scale is
      smaller than the capacity. */
  function Fill(used: int, maxAvail: int, scale: int): (k: int)
    requires used >= 0 && maxAvail > 0 && scale > 0
    ensures 0 <= k <= Min(scale, maxAvail)
  {
    var u := if used > maxAvail then maxAvail else used;
    if scale < maxAvail then
      MulAtLeast(maxAvail, u, scale);
      MulAtLeast(u, 0, scale);
      assert scale * maxAvail == maxAvail * scale;
      RoundHalfEvenBounds(u * scale, maxAvail, scale);
      RoundHalfEven(u * scale, maxAvail)
    else u
  }

  /** `row(used, max_avail, scale, x, _, ends)`. The source tests whether
      `len(x) * len(_) * scale * max_avail` is zero; `ProductZero` shows
      that is the case exactly when one of the four factors is zero, which
      is the test written here. */
  function Row(used: Quantity, maxAvail: Quantity, scale: Quantity,
               x: string, blank: string, ends: (string, string)): Result<string>
  {
    match (AsInt(used), AsInt(maxAvail), AsInt(scale))
    case (Some(u), Some(m), Some(s)) =>
      if x == "" || blank == "" || s == 0 || m == 0 then Err(Raised(ZeroLength))
      else if u < 0 || m < 0 || s < 0 then Err(Raised(Negative))
      else
        var width := Min(s, m);
        var k := Fill(u, m, s);
        Ok(ends.0 + Repeat(x, k) + Repeat(blank, width - k) + ends.1)
    case _ => Err(Raised(NotNumeric))
  }

  /** `row(used, max_avail)` with every default: scale 80, glyphs `X` and
      `_`, brackets `[` and `]`. */
  function Gauge(used: Quantity, maxAvail: Quantity): Result<string>
  {
    Row(used, maxAvail, Int(DefaultScale), "X", "_", ("[", "]"))
  }

  /** A default-glyph bar with `fill` X's and `empty` underscores. */
  function Bar(fill: nat, empty: nat): string
  {
    "[" + Repeat("X", fill) + Repeat("_", empty) + "]"
  }

  /** A product of four integers is zero exactly when a factor is: the
      zero-length test of `row` on the product is the test on the factors. */
  lemma ProductZero(a: int, b: int, c: int, d: int)
    ensures a * b * c * d == 0 <==> (a == 0 || b == 0 || c == 0 || d == 0)
  {
    if a != 0 && b != 0 && c != 0 && d != 0 {
      assert a * b != 0;
      assert a * b * c != 0;
    }
  }

  /** When `row` raises, and with which message: a value that `int()`
      rejects, then an empty glyph or a zero scale or capacity, then a
      negative quantity. Any other call draws a bar. */
  lemma RowErrors(used: Quantity, maxAvail: Quantity, scale: Quantity,
                  x: string, blank: string, ends: (string, string))
    ensures (AsInt(used).None? || AsInt(maxAvail).None? || AsInt(scale).None?)
            ==> Row(used, maxAvail, scale, x, blank, ends) == Err(Raised(NotNumeric))
    ensures AsInt(used).Some? && AsInt(maxAvail).Some? && AsInt(scale).Some? ==>
              var (u, m, s) := (AsInt(used).value, AsInt(maxAvail).value, AsInt(scale).value);
              && ((x == "" || blank == "" || s == 0 || m == 0)
                  ==> Row(used, maxAvail, scale, x, blank, ends) == Err(Raised(ZeroLength)))
              && ((x != "" && blank != "" && s != 0 && m != 0 && (u < 0 || m < 0 || s < 0))
                  ==> Row(used, maxAvail, scale, x, blank, ends) == Err(Raised(Negative)))
              && ((x != "" && blank != "" && s > 0 && m > 0 && u >= 0)
                  <==> Row(used, maxAvail, scale, x, blank, ends).Ok?)
  {
  }

  /** The shape of every bar `row` draws: the opening bracket, `k` fill
      glyphs, `width - k` blank glyphs and the closing bracket, where the
      width is `min(scale, max_avail)` and `0 <= k <= width`. */
  lemma RowShape(used: Quantity, maxAvail: Quantity, scale: Quantity,
                 x: string, blank: string, ends: (string, string))
    requires AsInt(used).Some? && AsInt(maxAvail).Some? && AsInt(scale).Some?
    requires x != "" && blank != ""
    requires AsInt(used).value >= 0 && AsInt(maxAvail).value > 0 && AsInt(scale).value > 0
    ensures var (u, m, s) := (AsInt(used).value, AsInt(maxAvail).value, AsInt(scale).value);
            var k := Fill(u, m, s);
            && 0 <= k <= Min(s, m)
            && Row(used, maxAvail, scale, x, blank, ends)
               == Ok(ends.0 + Repeat(x, k) + Repeat(blank, Min(s, m) - k) + ends.1)
  {
    RowErrors(used, maxAvail, scale, x, blank, ends);
  }

  /** The width is exact: the bar is `min(scale, max_avail)` glyph slots
      between its brackets, so with one-character glyphs and the default
      brackets it is `min(scale, max_avail) + 2` characters long. */
  lemma RowLength(used: Quantity, maxAvail: Quantity, scale: Quantity,
                  x: string, blank: string, ends: (string, string))
    requires Row(used, maxAvail, scale, x, blank, ends).Ok?
    ensures var (m, s) := (AsInt(maxAvail).value, AsInt(scale).value);
            var k := Fill(AsInt(used).value, m, s);
            |Row(used, maxAvail, scale, x, blank, ends).value|
              == |ends.0| + k * |x| + (Min(s, m) - k) * |blank| + |ends.1|
    ensures |x| == 1 && |blank| == 1 && ends == ("[", "]") ==>
              |Row(used, maxAvail, scale, x, blank, ends).value| == Min(AsInt(scale).value, AsInt(maxAvail).value) + 2
  {
    RowErrors(used, maxAvail, scale, x, blank, ends);
    RowShape(used, maxAvail, scale, x, blank, ends);
  }

  /** A bar drawn with the default glyphs and brackets from `used` and
      `max_avail` that convert to `u` and `m` is a `Bar` with `Fill` fill
      glyphs out of `min(scale, m)` slots. */
  lemma DefaultGlyphs(used: Quantity, maxAvail: Quantity, scale: int, u: int, m: int)
    requires AsInt(used) == Some(u) && AsInt(maxAvail) == Some(m)
    requires Row(used, maxAvail, Int(scale), "X", "_", ("[", "]")).Ok?
    ensures u >= 0 && m > 0 && scale > 0
    ensures Row(used, maxAvail, Int(scale), "X", "_", ("[", "]")).value
            == Bar(Fill(u, m, scale), Min(scale, m) - Fill(u, m, scale))
  {
    RowErrors(used, maxAvail, Int(scale), "X", "_", ("[", "]"));
    RowShape(used, maxAvail, Int(scale), "X", "_", ("[", "]"));
  }

  /** A default-glyph bar is a single word. */
  lemma BarWord(fill: nat, empty: nat)
    ensures Bar(fill, empty) != [] && NoSpace(Bar(fill, empty))
  {
    RepeatChar('X', fill);
    RepeatChar('_', empty);
    var b := Bar(fill, empty);
    forall j | 0 <= j < |b| ensures !IsSpace(b[j]) {
      if j == 0 || j == |b| - 1 {
      } else if j <= fill {
        assert b[j] == Repeat("X", fill)[j - 1];
      } else {
        assert b[j] == Repeat("_", empty)[j - 1 - fill];
      }
    }
  }

  /** A bar drawn with the default glyphs and brackets is one word: it is
      never empty and holds no whitespace. */
  lemma DefaultRowWord(used: Quantity, maxAvail: Quantity, scale: int)
    requires Row(used, maxAvail, Int(scale), "X", "_", ("[", "]")).Ok?
    ensures Row(used, maxAvail, Int(scale), "X", "_", ("[", "]")).value != []
    ensures NoSpace(Row(used, maxAvail, Int(scale), "X", "_", ("[", "]")).value)
  {
    RowErrors(used, maxAvail, Int(scale), "X", "_", ("[", "]"));
    var (u, m) := (AsInt(used).value, AsInt(maxAvail).value);
    DefaultGlyphs(used, maxAvail, scale, u, m);
    BarWord(Fill(u, m, scale), Min(scale, m) - Fill(u, m, scale));
  }

  /** Which fill count `row` uses: without rescaling (`scale >= max_avail`)
      it is `used` clamped to `max_avail`; with rescaling it is the integer
      nearest `min(used, max_avail) * scale / max_avail`, ties to even. */
  lemma FillCount(used: int, maxAvail: int, scale: int)
    requires used >= 0 && maxAvail > 0 && scale > 0
    ensures scale >= maxAvail ==> Fill(used, maxAvail, scale) == Min(used, maxAvail)
    ensures scale < maxAvail ==> NearestEven(Min(used, maxAvail) * scale, maxAvail, Fill(used, maxAvail, scale))
  {
    if scale < maxAvail {
      RoundHalfEvenNearest(Min(used, maxAvail) * scale, maxAvail);
    }
  }

  /** Over-allocation is clamped, never an error: any `used` above
      `max_avail` draws the same bar as `used == max_avail`. */
  lemma RowClamps(used: int, maxAvail: int, scale: Quantity,
                  x: string, blank: string, ends: (string, string))
    requires used > maxAvail
    ensures Row(Int(used), Int(maxAvail), scale, x, blank, ends)
         == Row(Int(maxAvail), Int(maxAvail), scale, x, blank, ends)
  {
  }

  /** The first three pairs `scaling_main` draws with the default scale
      80: an empty gauge, an empty gauge rescaled, an overfull gauge. */
  lemma DemoPairs()
    ensures Gauge(Int(0), Int(40)) == Ok(Bar(0, 40))
    ensures Gauge(Int(0), Int(200)) == Ok(Bar(0, 80))
    ensures Gauge(Int(250), Int(200)) == Ok(Bar(80, 0))
  {
    assert Gauge(Int(0), Int(200)) == Ok(Bar(0, 80)) by { assert RoundHalfEven(0, 200) == 0; }
    assert Gauge(Int(250), Int(200)) == Ok(Bar(80, 0)) by { assert RoundHalfEven(200 * 80, 200) == 80; }
  }

  /** The last two pairs of `scaling_main`: 50 of 384 and 768 of 1500,
      rescaled to 80 slots. */
  lemma DemoRescaled()
    ensures Gauge(Int(50), Int(384)) == Ok(Bar(10, 70))
    ensures Gauge(Int(768), Int(1500)) == Ok(Bar(41, 39))
  {
    assert Gauge(Int(50), Int(384)) == Ok(Bar(10, 70)) by { assert RoundHalfEven(50 * 80, 384) == 10; }
    assert Gauge(Int(768), Int(1500)) == Ok(Bar(41, 39)) by { assert RoundHalfEven(768 * 80, 1500) == 41; }
  }

  /** Python's `round` sends halves to the even neighbour: 1/160 of 80
      slots (0.5) draws nothing, 3/160 (1.5) draws two. */
  lemma HalvesToEven()
    ensures Gauge(Int(1), Int(160)) == Ok(Bar(0, 80))
    ensures Gauge(Int(3), Int(160)) == Ok(Bar(2, 78))
  {
    assert RoundHalfEven(80, 160) == 0;
    assert RoundHalfEven(240, 160) == 2;
  }
}
